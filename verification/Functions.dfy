/** Function definitions, their identity and their shape. */
module Functions {
  import opened Common
  import opened Json
  import opened JsonCompact
  import opened RawJson

  datatype Param = Param(name: string, dataType: string, comment: string, defaultValue: string)

  datatype Column = Column(name: string, dataType: string, comment: string)

  datatype Resources = Resources(jars: seq<string>, files: seq<string>, archives: seq<string>)

  datatype Impl = Impl(
    language: string,
    runtime: string,
    sql: string,
    className: string,
    handler: string,
    codeBlock: string,
    resources: Option<Resources>,
    properties: map<string, string>)

  datatype Definition = Definition(
    parameters: seq<Param>,
    returnType: string,
    returnColumns: seq<Column>,
    impls: seq<Impl>)

  // ----- Signature -----

  function Part(p: Param): string {
    p.name + ":" + ToTerraform(p.dataType)
  }

  /** The parameters as text: name and type of each, joined by commas. */
  function SignatureOf(parameters: seq<Param>): string {
    if parameters == [] then ""
    else if |parameters| == 1 then Part(parameters[0])
    else Part(parameters[0]) + "," + SignatureOf(parameters[1..])
  }

  function Signature(d: Definition): string {
    SignatureOf(d.parameters)
  }

  // ----- Wire form -----

  /** A raw value in an encoded struct: compacted, or nothing when it is not JSON. */
  function WireRaw(raw: string): Option<string> {
    if ParseText(raw).Some? then Some(CompactOut(raw)) else None
  }

  /** A raw member that is left out when it is empty. */
  function WireOptional(raw: string): Option<string> {
    if raw == "" then Some("") else WireRaw(raw)
  }

  /** A raw member that is null when it is empty. */
  function WireRequired(raw: string): Option<string> {
    if raw == "" then Some("null") else WireRaw(raw)
  }

  function WireParams(ps: seq<Param>): Option<seq<Param>> {
    if ps == [] then Some([])
    else
      var dataType :- WireRequired(ps[0].dataType);
      var defaultValue :- WireOptional(ps[0].defaultValue);
      var rest :- WireParams(ps[1..]);
      Some([ps[0].(dataType := dataType, defaultValue := defaultValue)] + rest)
  }

  function WireColumns(cs: seq<Column>): Option<seq<Column>> {
    if cs == [] then Some([])
    else
      var dataType :- WireRequired(cs[0].dataType);
      var rest :- WireColumns(cs[1..]);
      Some([cs[0].(dataType := dataType)] + rest)
  }

  /** What json.Marshal makes of a definition, as a value; nothing when a raw member is not JSON. */
  function Wire(d: Definition): Option<Definition> {
    var parameters :- WireParams(d.parameters);
    var returnType :- WireOptional(d.returnType);
    var returnColumns :- WireColumns(d.returnColumns);
    Some(Definition(parameters, returnType, returnColumns, d.impls))
  }

  datatype Shape = Marshalled(definition: Definition) | Verbatim(definition: Definition)

  /** A definition without its implementations: its wire form, or the definition itself when it
      cannot be encoded. */
  function ShapeOf(d: Definition): Shape {
    var bare := d.(impls := []);
    match Wire(bare)
    case Some(w) => Marshalled(w)
    case None => Verbatim(bare)
  }

  /** functionDefinitionEqual: two definitions are identical on the wire. */
  predicate WireEqual(a: Definition, b: Definition) {
    Wire(a).Some? && Wire(a) == Wire(b)
  }

  // ----- Uniqueness -----

  predicate UniqueSignatures(ds: seq<Definition>) {
    forall i, k :: 0 <= i < k < |ds| ==> Signature(ds[i]) != Signature(ds[k])
  }

  predicate UniqueRuntimes(impls: seq<Impl>) {
    forall i, k :: 0 <= i < k < |impls| ==> impls[i].runtime != impls[k].runtime
  }
}
