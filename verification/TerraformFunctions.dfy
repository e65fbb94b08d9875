/** Function definitions as Terraform holds them: optional texts, lists, maps and objects are null or present,
    and a present one may be empty. */
module TerraformFunctions {
  import opened Common
  import opened Functions

  datatype TFParam = TFParam(name: string, dataType: string, comment: Option<string>, defaultValue: Option<string>)

  datatype TFColumn = TFColumn(name: string, dataType: string, comment: Option<string>)

  datatype TFResources = TFResources(
    jars: Option<seq<string>>,
    files: Option<seq<string>>,
    archives: Option<seq<string>>)

  datatype TFImpl = TFImpl(
    language: string,
    runtime: string,
    sql: Option<string>,
    className: Option<string>,
    handler: Option<string>,
    codeBlock: Option<string>,
    resources: Option<TFResources>,
    properties: Option<map<string, string>>)

  datatype TFDefinition = TFDefinition(
    parameters: Option<seq<TFParam>>,
    returnType: Option<string>,
    returnColumns: Option<seq<TFColumn>>,
    impls: Option<seq<TFImpl>>)

  // ----- Null and empty -----

  /** The text of a Terraform string; null has none. */
  function Text(v: Option<string>): string {
    if v.Some? then v.value else ""
  }

  /** stringValueOrNull. */
  function TextOrNull(s: string): (r: Option<string>)
    ensures Text(r) == s
  {
    if s == "" then None else Some(s)
  }

  function Items<T>(v: Option<seq<T>>): seq<T> {
    if v.Some? then v.value else []
  }

  /** An empty list is shown as null. */
  function ListOrNull<T(==)>(s: seq<T>): (r: Option<seq<T>>)
    ensures Items(r) == s
  {
    if s == [] then None else Some(s)
  }

  function Entries(v: Option<map<string, string>>): map<string, string> {
    if v.Some? then v.value else map[]
  }

  function MapOrNull(m: map<string, string>): (r: Option<map<string, string>>)
    ensures Entries(r) == m
  {
    if m == map[] then None else Some(m)
  }

  lemma TextStays(v: Option<string>)
    ensures TextOrNull(Text(v)) == v <==> v != Some("")
  {
  }

  lemma ListStays<T>(v: Option<seq<T>>, s: seq<T>)
    ensures ListOrNull(s) == v <==> v != Some([]) && s == Items(v)
  {
  }

  // ----- Implementations -----

  /** Gravitino always answers with a resources object; an empty one means none. */
  function ShowResources(r: Option<Resources>): Option<TFResources> {
    if r.None? || r == Some(Resources([], [], [])) then None
    else Some(TFResources(ListOrNull(r.value.jars), ListOrNull(r.value.files), ListOrNull(r.value.archives)))
  }

  function ReadResources(v: Option<TFResources>): Option<Resources> {
    if v.None? then None
    else
      var r := Resources(Items(v.value.jars), Items(v.value.files), Items(v.value.archives));
      if r == Resources([], [], []) then None else Some(r)
  }

  function ShowImpl(impl: Impl): TFImpl {
    TFImpl(impl.language, impl.runtime, TextOrNull(impl.sql), TextOrNull(impl.className), TextOrNull(impl.handler),
           TextOrNull(impl.codeBlock), ShowResources(impl.resources), MapOrNull(impl.properties))
  }

  function ReadImpl(tf: TFImpl): Impl {
    Impl(tf.language, tf.runtime, Text(tf.sql), Text(tf.className), Text(tf.handler), Text(tf.codeBlock),
         ReadResources(tf.resources), Entries(tf.properties))
  }

  function ShowImpls(impls: seq<Impl>): (r: seq<TFImpl>)
    ensures |r| == |impls| && forall i :: 0 <= i < |r| ==> r[i] == ShowImpl(impls[i])
  {
    seq(|impls|, i requires 0 <= i < |impls| => ShowImpl(impls[i]))
  }

  function ReadEach(tf: seq<TFImpl>): (r: seq<Impl>)
    ensures |r| == |tf| && forall i :: 0 <= i < |r| ==> r[i] == ReadImpl(tf[i])
  {
    seq(|tf|, i requires 0 <= i < |tf| => ReadImpl(tf[i]))
  }

  /** Nothing optional is present and empty: no text, no map, no list of resources and no resources object
      without any. */
  predicate NoEmptyParts(tf: TFImpl) {
    && tf.sql != Some("") && tf.className != Some("") && tf.handler != Some("") && tf.codeBlock != Some("")
    && tf.properties != Some(map[])
    && (tf.resources.Some? ==>
          var r := tf.resources.value;
          r.jars != Some([]) && r.files != Some([]) && r.archives != Some([]) && r != TFResources(None, None, None))
  }

  /** An implementation is shown as it was written exactly if nothing in it is present and empty. */
  lemma ImplAsWritten(tf: TFImpl)
    ensures ShowImpl(ReadImpl(tf)) == tf <==> NoEmptyParts(tf)
  {
    ResourcesAsWritten(tf.resources);
    TextStays(tf.sql);
    TextStays(tf.className);
    TextStays(tf.handler);
    TextStays(tf.codeBlock);
  }

  lemma ResourcesAsWritten(v: Option<TFResources>)
    ensures ShowResources(ReadResources(v)) == v <==>
            (v.Some? ==>
               v.value.jars != Some([]) && v.value.files != Some([]) && v.value.archives != Some([]) &&
               v.value != TFResources(None, None, None))
  {
    if v.Some? {
      var r := v.value;
      ListStays(r.jars, Items(r.jars));
      ListStays(r.files, Items(r.files));
      ListStays(r.archives, Items(r.archives));
    }
  }

  /** What is shown of an implementation reads back to it, but for an empty resources object. */
  lemma ShownReads(impl: Impl)
    ensures var read := ReadImpl(ShowImpl(impl));
            && read == impl.(resources := read.resources)
            && ShowImpl(read) == ShowImpl(impl) && read.runtime == impl.runtime
  {
  }

  function RuntimesShown(tf: seq<TFImpl>): (r: seq<string>)
    ensures |r| == |tf| && forall i :: 0 <= i < |r| ==> r[i] == tf[i].runtime
  {
    seq(|tf|, i requires 0 <= i < |tf| => tf[i].runtime)
  }

  predicate UniqueShown(tf: seq<TFImpl>) {
    forall i, k :: 0 <= i < k < |tf| ==> tf[i].runtime != tf[k].runtime
  }
}
