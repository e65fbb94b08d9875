/** Gravitino data types: a recursive algebra with a JSON printer, a decoder, a validator and the
    parser of the Terraform representation. */
module DataTypes {
  import opened Common
  import opened Json

  datatype DataType = DataType(
    kind: string,
    fields: Fields,
    containsNull: Option<bool>,
    elementType: Option<DataType>,
    keyType: Option<DataType>,
    valueType: Option<DataType>,
    valueContainsNull: Option<bool>,
    types: Types,
    unparsedType: string,
    catalogString: string)

  datatype StructField = StructField(name: string, fieldType: DataType, nullable: Option<bool>, comment: string)

  /** A list of fields or of types; none at all is not the empty list. */
  datatype Fields = NoFields | Fields(list: seq<StructField>)

  datatype Types = NoTypes | Types(list: seq<DataType>)

  function FieldsOf(v: Fields): seq<StructField> {
    if v.NoFields? then [] else v.list
  }

  function TypesOf(v: Types): seq<DataType> {
    if v.NoTypes? then [] else v.list
  }

  /** A type that carries nothing but its name. */
  function Plain(kind: string): DataType {
    DataType(kind, NoFields, None, None, None, None, None, NoTypes, "", "")
  }

  predicate IsStructured(kind: string) {
    kind == "struct" || kind == "list" || kind == "map" || kind == "union" || kind == "unparsed" || kind == "external"
  }

  // ----- Printer -----

  function BoolMember(key: string, o: Option<bool>): seq<Member> {
    if o.Some? then [Member(key, JBool(o.value))] else []
  }

  function Encode(d: DataType): (j: Json)
    ensures if IsStructured(d.kind) then j.JObj? else j == JStr(d.kind)
    decreases d, 1
  {
    if d.kind == "struct" then
      JObj([Member("fields", EncodeFieldList(d.fields)), Member("type", JStr("struct"))])
    else if d.kind == "list" then
      JObj(BoolMember("containsNull", d.containsNull) +
           [Member("elementType", EncodePointer(d.elementType)), Member("type", JStr("list"))])
    else if d.kind == "map" then
      JObj([Member("keyType", EncodePointer(d.keyType)), Member("type", JStr("map"))] +
           BoolMember("valueContainsNull", d.valueContainsNull) +
           [Member("valueType", EncodePointer(d.valueType))])
    else if d.kind == "union" then
      JObj([Member("type", JStr("union")), Member("types", EncodeTypeList(d.types))])
    else if d.kind == "unparsed" then
      JObj([Member("type", JStr("unparsed")), Member("unparsedType", JStr(d.unparsedType))])
    else if d.kind == "external" then
      JObj([Member("catalogString", JStr(d.catalogString)), Member("type", JStr("external"))])
    else
      JStr(d.kind)
  }

  function EncodePointer(o: Option<DataType>): Json
    decreases o, 0
  {
    if o.Some? then Encode(o.value) else JNull
  }

  /** A list; one that is absent is printed as null. */
  function EncodeTypeList(v: Types): Json
    decreases v, 1
  {
    if v.NoTypes? then JNull else JArr(EncodeTypes(v.list))
  }

  function EncodeFieldList(v: Fields): Json
    decreases v, 1
  {
    if v.NoFields? then JNull else JArr(EncodeFields(v.list))
  }

  function EncodeTypes(types: seq<DataType>): (r: seq<Json>)
    ensures |r| == |types| && forall i :: 0 <= i < |r| ==> r[i] == Encode(types[i])
    decreases types, 0
  {
    if types == [] then [] else [Encode(types[0])] + EncodeTypes(types[1..])
  }

  function EncodeFields(fields: seq<StructField>): (r: seq<Json>)
    ensures |r| == |fields|
    ensures forall i :: 0 <= i < |r| ==>
              r[i] == EncodeField(fields[i].name, Encode(fields[i].fieldType), fields[i].nullable, fields[i].comment)
    decreases fields, 0
  {
    if fields == [] then []
    else [EncodeField(fields[0].name, Encode(fields[0].fieldType), fields[0].nullable, fields[0].comment)] +
         EncodeFields(fields[1..])
  }

  function EncodeField(name: string, typ: Json, nullable: Option<bool>, comment: string): Json {
    JObj((if comment != "" then [Member("comment", JStr(comment))] else []) +
         [Member("name", JStr(name))] +
         BoolMember("nullable", nullable) +
         [Member("type", typ)])
  }

  /** The canonical Terraform representation of a type. */
  function String(d: DataType): string {
    if IsStructured(d.kind) then Print(Encode(d)) else d.kind
  }

  // ----- Decoder -----

  /** The members by key: the last one wins when a key is repeated. */
  function Index(members: seq<Member>): map<string, Json> {
    if members == [] then map[]
    else
      var last := members[|members| - 1];
      Index(members[..|members| - 1])[last.key := last.value]
  }

  function Find(members: seq<Member>, key: string): Option<Json> {
    var m := Index(members);
    if key in m then Some(m[key]) else None
  }

  /** What is found is one of the members. */
  lemma {:induction false} FindsMember(members: seq<Member>, key: string)
    ensures Find(members, key).Some? ==>
              exists i :: 0 <= i < |members| && members[i] == Member(key, Find(members, key).value)
  {
    if members != [] {
      var n := |members| - 1;
      FindsMember(members[..n], key);
      if key == members[n].key {
        assert members[n] == Member(key, Find(members, key).value);
      } else if Find(members, key).Some? {
        var i :| 0 <= i < n && members[..n][i] == Member(key, Find(members[..n], key).value);
        assert members[i] == Member(key, Find(members, key).value);
      }
    }
  }

  /** A string member; an absent or null member leaves the empty string. */
  function FindString(members: seq<Member>, key: string): Option<string> {
    match Find(members, key)
    case None => Some("")
    case Some(JNull) => Some("")
    case Some(JStr(s)) => Some(s)
    case Some(_) => None
  }

  function FindBool(members: seq<Member>, key: string): Option<Option<bool>> {
    match Find(members, key)
    case None => Some(None)
    case Some(JNull) => Some(None)
    case Some(JBool(b)) => Some(Some(b))
    case Some(_) => None
  }

  /** A string, or the first of an array of strings; anything else counts as absent. */
  function UnparsedOf(o: Option<Json>): string {
    match o
    case Some(JStr(s)) => s
    case Some(JArr(items)) =>
      if items != [] && (forall i :: 0 <= i < |items| ==> items[i].JNull? || items[i].JStr?) && items[0].JStr?
      then items[0].s
      else ""
    case _ => ""
  }

  /** UnmarshalJSON: both the string form and the object form of a type. Every member is decoded, also
      one that its kind does not use. */
  function Decode(j: Json): Option<DataType>
    decreases j, 1
  {
    match j
    case JNull => Some(Plain(""))
    case JStr(name) => Some(Plain(name))
    case JObj(members) =>
      var kind :- FindString(members, "type");
      var fields :- FindFields(members, "fields");
      var containsNull :- FindBool(members, "containsNull");
      var elementType :- FindType(members, "elementType");
      var keyType :- FindType(members, "keyType");
      var valueType :- FindType(members, "valueType");
      var valueContainsNull :- FindBool(members, "valueContainsNull");
      var types :- FindTypes(members, "types");
      var unparsedType := UnparsedOf(Find(members, "unparsedType"));
      var catalogString :- FindString(members, "catalogString");
      if kind == "" then None
      else
        Some(DataType(kind, fields, containsNull, elementType, keyType, valueType, valueContainsNull, types,
                      unparsedType, catalogString))
    case _ => None
  }

  function FindType(members: seq<Member>, key: string): Option<Option<DataType>>
    decreases members, 0
  {
    match Find(members, key)
    case None => Some(None)
    case Some(JNull) => Some(None)
    case Some(j) =>
      FindsMember(members, key);
      var d :- Decode(j);
      Some(Some(d))
  }

  /** The type of a struct field; an absent member leaves the empty type. */
  function FindFieldType(members: seq<Member>): Option<DataType>
    decreases members, 0
  {
    match Find(members, "type")
    case None => Some(Plain(""))
    case Some(j) => FindsMember(members, "type"); Decode(j)
  }

  function FindTypes(members: seq<Member>, key: string): Option<Types>
    decreases members, 0
  {
    match Find(members, key)
    case None => Some(NoTypes)
    case Some(JNull) => Some(NoTypes)
    case Some(JArr(items)) =>
      FindsMember(members, key);
      var types :- DecodeTypes(items);
      Some(Types(types))
    case Some(_) => None
  }

  function FindFields(members: seq<Member>, key: string): Option<Fields>
    decreases members, 0
  {
    match Find(members, key)
    case None => Some(NoFields)
    case Some(JNull) => Some(NoFields)
    case Some(JArr(items)) =>
      FindsMember(members, key);
      var fields :- DecodeFields(items);
      Some(Fields(fields))
    case Some(_) => None
  }

  function DecodeTypes(items: seq<Json>): Option<seq<DataType>>
    decreases items, 0
  {
    if items == [] then Some([])
    else
      var d :- Decode(items[0]);
      var ds :- DecodeTypes(items[1..]);
      Some([d] + ds)
  }

  function DecodeFields(items: seq<Json>): Option<seq<StructField>>
    decreases items, 0
  {
    if items == [] then Some([])
    else
      var f :- DecodeField(items[0]);
      var fs :- DecodeFields(items[1..]);
      Some([f] + fs)
  }

  function DecodeField(j: Json): Option<StructField>
    decreases j, 2
  {
    match j
    case JNull => Some(StructField("", Plain(""), None, ""))
    case JObj(members) =>
      var name :- FindString(members, "name");
      var typ :- FindFieldType(members);
      var nullable :- FindBool(members, "nullable");
      var comment :- FindString(members, "comment");
      Some(StructField(name, typ, nullable, comment))
    case _ => None
  }

  // ----- Validator -----

  predicate Blank(s: string) {
    Trim(s) == ""
  }

  /** Whether the type is complete enough to be sent to Gravitino. */
  predicate Valid(d: DataType)
    decreases d
  {
    if Blank(d.kind) then false
    else if d.kind == "struct" then
      var fields := FieldsOf(d.fields);
      fields != [] && forall i :: 0 <= i < |fields| ==> !Blank(fields[i].name) && Valid(fields[i].fieldType)
    else if d.kind == "list" then d.elementType.Some? && Valid(d.elementType.value)
    else if d.kind == "map" then
      d.keyType.Some? && d.valueType.Some? && Valid(d.keyType.value) && Valid(d.valueType.value)
    else if d.kind == "union" then
      var types := TypesOf(d.types);
      types != [] && forall i :: 0 <= i < |types| ==> Valid(types[i])
    else if d.kind == "unparsed" then !Blank(d.unparsedType)
    else if d.kind == "external" then !Blank(d.catalogString)
    else true
  }

  /** Whether the type or a type nested in it is the variant only Gravitino 1.3.1 accepts. */
  predicate UsesExternal(d: DataType)
    decreases d
  {
    if d.kind == "external" then true
    else if d.kind == "struct" then
      exists i :: 0 <= i < |FieldsOf(d.fields)| && UsesExternal(FieldsOf(d.fields)[i].fieldType)
    else if d.kind == "list" then d.elementType.Some? && UsesExternal(d.elementType.value)
    else if d.kind == "map" then
      (d.keyType.Some? && UsesExternal(d.keyType.value)) || (d.valueType.Some? && UsesExternal(d.valueType.value))
    else if d.kind == "union" then exists i :: 0 <= i < |TypesOf(d.types)| && UsesExternal(TypesOf(d.types)[i])
    else false
  }

  // ----- Parser -----

  predicate IsLetter(c: char) {
    'A' <= c <= 'Z' || 'a' <= c <= 'z'
  }

  predicate IsNameChar(c: char) {
    IsLetter(c) || IsDigit(c) || c == '_' || c == ' '
  }

  function NameLen(s: string): (n: nat)
    ensures n <= |s|
    ensures n < |s| ==> !IsNameChar(s[n])
    ensures forall i :: 0 <= i < n ==> IsNameChar(s[i])
  {
    if s != "" && IsNameChar(s[0]) then 1 + NameLen(s[1..]) else 0
  }

  predicate AllDigits(s: string) {
    s != "" && forall i :: 0 <= i < |s| ==> IsDigit(s[i])
  }

  /** The parenthesised arguments of a primitive type: one number, or two with a comma between. */
  predicate IsArguments(s: string) {
    |s| >= 3 && s[0] == '(' && s[|s| - 1] == ')' &&
    var inner := s[1..|s| - 1];
    AllDigits(inner) ||
    exists i :: 0 <= i < |inner| && inner[i] == ',' && AllDigits(inner[..i]) && AllDigits(inner[i + 1..])
  }

  /** The primitive type pattern: a letter, then letters, digits, underscores and spaces, then
      optional arguments. */
  predicate IsPrimitive(s: string) {
    s != "" && IsLetter(s[0]) &&
    var n := NameLen(s);
    n == |s| || IsArguments(s[n..])
  }

  /** ParseDataType: a primitive type name, a JSON string holding one, or a JSON object describing a
      type. The Terraform representation of a column type. */
  function Parse(value: string): Option<DataType> {
    var trimmed := Trim(value);
    if trimmed == "" then None
    else if trimmed[0] == '{' then
      var doc :- ParseText(trimmed);
      var d :- Decode(doc);
      if Valid(d) then Some(d) else None
    else if trimmed[0] == '\"' then
      match ParseText(trimmed)
      case Some(JStr(name)) => if !IsStructured(name) && IsPrimitive(name) then Some(Plain(name)) else None
      case _ => None
    else if !IsStructured(trimmed) && IsPrimitive(trimmed) then Some(Plain(trimmed))
    else None
  }
}
