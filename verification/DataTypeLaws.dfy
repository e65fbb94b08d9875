/** What the data type printer, decoder, validator and parser are to one another. */
module DataTypeLaws {
  import opened Common
  import opened Json
  import opened JsonText
  import opened DataTypes

  // ----- Canonical form -----

  /** The type without the members that its kind does not use. */
  function Canon(d: DataType): DataType
    decreases d, 1
  {
    var p := Plain(d.kind);
    if d.kind == "struct" then p.(fields := CanonFieldList(d.fields))
    else if d.kind == "list" then p.(containsNull := d.containsNull, elementType := CanonPointer(d.elementType))
    else if d.kind == "map" then
      p.(keyType := CanonPointer(d.keyType), valueType := CanonPointer(d.valueType),
         valueContainsNull := d.valueContainsNull)
    else if d.kind == "union" then p.(types := CanonTypeList(d.types))
    else if d.kind == "unparsed" then p.(unparsedType := d.unparsedType)
    else if d.kind == "external" then p.(catalogString := d.catalogString)
    else p
  }

  function CanonPointer(o: Option<DataType>): Option<DataType>
    decreases o, 0
  {
    if o.Some? then Some(Canon(o.value)) else None
  }

  function CanonTypeList(v: Types): Types
    decreases v, 1
  {
    if v.NoTypes? then NoTypes else Types(CanonTypes(v.list))
  }

  function CanonFieldList(v: Fields): Fields
    decreases v, 1
  {
    if v.NoFields? then NoFields else Fields(CanonFields(v.list))
  }

  function CanonTypes(types: seq<DataType>): (r: seq<DataType>)
    ensures |r| == |types| && forall i :: 0 <= i < |r| ==> r[i] == Canon(types[i])
    decreases types, 0
  {
    if types == [] then [] else [Canon(types[0])] + CanonTypes(types[1..])
  }

  function CanonFields(fields: seq<StructField>): (r: seq<StructField>)
    ensures |r| == |fields|
    ensures forall i :: 0 <= i < |r| ==> r[i] == fields[i].(fieldType := Canon(fields[i].fieldType))
    decreases fields, 0
  {
    if fields == [] then []
    else [fields[0].(fieldType := Canon(fields[0].fieldType))] + CanonFields(fields[1..])
  }

  // ----- Decoding what was encoded -----

  lemma IndexLast(a: seq<Member>, m: Member)
    ensures Index(a + [m]) == Index(a)[m.key := m.value]
  {
    assert (a + [m])[..|a|] == a;
  }

  lemma IndexTwo(a: seq<Member>, m: Member, n: Member)
    ensures Index(a + [m, n]) == Index(a)[m.key := m.value][n.key := n.value]
  {
    IndexLast(a, m);
    IndexLast(a + [m], n);
    assert a + [m, n] == a + [m] + [n];
  }

  function WithBool(m: map<string, Json>, key: string, o: Option<bool>): map<string, Json> {
    if o.Some? then m[key := JBool(o.value)] else m
  }

  lemma IndexBool(a: seq<Member>, key: string, o: Option<bool>)
    ensures Index(a + BoolMember(key, o)) == WithBool(Index(a), key, o)
  {
    if o.Some? {
      IndexLast(a, Member(key, JBool(o.value)));
    } else {
      assert a + BoolMember(key, o) == a;
    }
  }

  lemma IndexPair(m: Member, n: Member)
    ensures Index([m, n]) == map[][m.key := m.value][n.key := n.value]
  {
    IndexTwo([], m, n);
    assert [] + [m, n] == [m, n];
  }

  lemma IndexList(o: Option<bool>, e: Json)
    ensures Index(BoolMember("containsNull", o) + [Member("elementType", e), Member("type", JStr("list"))]) ==
            WithBool(map[], "containsNull", o)["elementType" := e]["type" := JStr("list")]
  {
    IndexBool([], "containsNull", o);
    assert [] + BoolMember("containsNull", o) == BoolMember("containsNull", o);
    IndexTwo(BoolMember("containsNull", o), Member("elementType", e), Member("type", JStr("list")));
  }

  lemma IndexMap(k: Json, o: Option<bool>, v: Json)
    ensures Index([Member("keyType", k), Member("type", JStr("map"))] + BoolMember("valueContainsNull", o) +
                  [Member("valueType", v)]) ==
            WithBool(map[]["keyType" := k]["type" := JStr("map")], "valueContainsNull", o)["valueType" := v]
  {
    var a := [Member("keyType", k), Member("type", JStr("map"))];
    IndexPair(a[0], a[1]);
    IndexBool(a, "valueContainsNull", o);
    IndexLast(a + BoolMember("valueContainsNull", o), Member("valueType", v));
  }

  lemma IndexField(name: string, typ: Json, nullable: Option<bool>, comment: string)
    ensures Index(EncodeField(name, typ, nullable, comment).members) ==
            WithBool((if comment != "" then map["comment" := JStr(comment)] else map[])["name" := JStr(name)],
                     "nullable", nullable)["type" := typ]
  {
    var c := if comment != "" then [Member("comment", JStr(comment))] else [];
    if comment != "" {
      IndexLast([], c[0]);
      assert [] + [c[0]] == c;
    }
    IndexLast(c, Member("name", JStr(name)));
    var b := c + [Member("name", JStr(name))];
    IndexBool(b, "nullable", nullable);
    IndexLast(b + BoolMember("nullable", nullable), Member("type", typ));
  }

  lemma DecodeEncodedField(f: StructField, typ: Json, d: DataType)
    requires Decode(typ) == Some(d)
    ensures DecodeField(EncodeField(f.name, typ, f.nullable, f.comment)) == Some(f.(fieldType := d))
  {
    IndexField(f.name, typ, f.nullable, f.comment);
  }

  /** What an object decodes to, member by member. */
  lemma DecodeMembers(ms: seq<Member>, d: DataType)
    requires d.kind != "" && FindString(ms, "type") == Some(d.kind)
    requires FindFields(ms, "fields") == Some(d.fields) && FindTypes(ms, "types") == Some(d.types)
    requires FindBool(ms, "containsNull") == Some(d.containsNull)
    requires FindType(ms, "elementType") == Some(d.elementType)
    requires FindType(ms, "keyType") == Some(d.keyType) && FindType(ms, "valueType") == Some(d.valueType)
    requires FindBool(ms, "valueContainsNull") == Some(d.valueContainsNull)
    requires UnparsedOf(Find(ms, "unparsedType")) == d.unparsedType
    requires FindString(ms, "catalogString") == Some(d.catalogString)
    ensures Decode(JObj(ms)) == Some(d)
  {
  }

  lemma DecodeListDocument(o: Option<bool>, e: Json, p: Option<DataType>)
    requires if p.Some? then Decode(e) == p && e != JNull else e == JNull
    ensures Decode(JObj(BoolMember("containsNull", o) + [Member("elementType", e), Member("type", JStr("list"))])) ==
            Some(Plain("list").(containsNull := o, elementType := p))
  {
    IndexList(o, e);
    DecodeMembers(BoolMember("containsNull", o) + [Member("elementType", e), Member("type", JStr("list"))],
                  Plain("list").(containsNull := o, elementType := p));
  }

  lemma MapFinds(k: Json, o: Option<bool>, v: Json)
    ensures var ms := [Member("keyType", k), Member("type", JStr("map"))] + BoolMember("valueContainsNull", o) +
                      [Member("valueType", v)];
            && Find(ms, "keyType") == Some(k) && Find(ms, "type") == Some(JStr("map"))
            && Find(ms, "valueContainsNull") == (if o.Some? then Some(JBool(o.value)) else None)
            && Find(ms, "valueType") == Some(v)
  {
    hide Index;
    IndexMap(k, o, v);
  }

  lemma MapLacks(k: Json, o: Option<bool>, v: Json)
    ensures var ms := [Member("keyType", k), Member("type", JStr("map"))] + BoolMember("valueContainsNull", o) +
                      [Member("valueType", v)];
            && Find(ms, "fields") == Find(ms, "types") == Find(ms, "containsNull") == None
            && Find(ms, "elementType") == Find(ms, "unparsedType") == Find(ms, "catalogString") == None
  {
    hide Index;
    IndexMap(k, o, v);
  }

  lemma DecodeMapDocument(k: Json, kp: Option<DataType>, o: Option<bool>, v: Json, vp: Option<DataType>)
    requires if kp.Some? then Decode(k) == kp && k != JNull else k == JNull
    requires if vp.Some? then Decode(v) == vp && v != JNull else v == JNull
    ensures Decode(JObj([Member("keyType", k), Member("type", JStr("map"))] + BoolMember("valueContainsNull", o) +
                        [Member("valueType", v)])) ==
            Some(Plain("map").(keyType := kp, valueContainsNull := o, valueType := vp))
  {
    hide Decode, Find, DecodeFields, DecodeTypes;
    MapFinds(k, o, v);
    MapLacks(k, o, v);
    DecodeMembers([Member("keyType", k), Member("type", JStr("map"))] + BoolMember("valueContainsNull", o) +
                  [Member("valueType", v)],
                  Plain("map").(keyType := kp, valueContainsNull := o, valueType := vp));
  }

  lemma DecodeStructDocument(list: Json, fields: Fields)
    requires if fields.NoFields? then list == JNull else list.JArr? && DecodeFields(list.items) == Some(fields.list)
    ensures Decode(JObj([Member("fields", list), Member("type", JStr("struct"))])) ==
            Some(Plain("struct").(fields := fields))
  {
    IndexPair(Member("fields", list), Member("type", JStr("struct")));
  }

  lemma DecodeUnionDocument(list: Json, types: Types)
    requires if types.NoTypes? then list == JNull else list.JArr? && DecodeTypes(list.items) == Some(types.list)
    ensures Decode(JObj([Member("type", JStr("union")), Member("types", list)])) ==
            Some(Plain("union").(types := types))
  {
    IndexPair(Member("type", JStr("union")), Member("types", list));
  }

  lemma DecodeUnparsedDocument(text: string)
    ensures Decode(JObj([Member("type", JStr("unparsed")), Member("unparsedType", JStr(text))])) ==
            Some(Plain("unparsed").(unparsedType := text))
  {
    IndexPair(Member("type", JStr("unparsed")), Member("unparsedType", JStr(text)));
  }

  lemma DecodeExternalDocument(text: string)
    ensures Decode(JObj([Member("catalogString", JStr(text)), Member("type", JStr("external"))])) ==
            Some(Plain("external").(catalogString := text))
  {
    IndexPair(Member("catalogString", JStr(text)), Member("type", JStr("external")));
  }

  /** Decoding what was encoded gives the canonical form of the type, for every type. */
  lemma {:induction false} DecodeEncode(d: DataType)
    ensures Decode(Encode(d)) == Some(Canon(d))
    decreases d, 1
  {
    if d.kind == "struct" {
      if d.fields.Fields? {
        DecodeEncodeFields(d.fields.list);
      }
      DecodeStructDocument(EncodeFieldList(d.fields), CanonFieldList(d.fields));
    } else if d.kind == "list" {
      DecodeEncodePointer(d.elementType);
      DecodeListDocument(d.containsNull, EncodePointer(d.elementType), CanonPointer(d.elementType));
    } else if d.kind == "map" {
      DecodeEncodePointer(d.keyType);
      DecodeEncodePointer(d.valueType);
      DecodeMapDocument(EncodePointer(d.keyType), CanonPointer(d.keyType), d.valueContainsNull,
                        EncodePointer(d.valueType), CanonPointer(d.valueType));
    } else if d.kind == "union" {
      if d.types.Types? {
        DecodeEncodeTypes(d.types.list);
      }
      DecodeUnionDocument(EncodeTypeList(d.types), CanonTypeList(d.types));
    } else if d.kind == "unparsed" {
      DecodeUnparsedDocument(d.unparsedType);
    } else if d.kind == "external" {
      DecodeExternalDocument(d.catalogString);
    }
  }

  lemma {:induction false} DecodeEncodePointer(o: Option<DataType>)
    ensures var p := CanonPointer(o);
            if p.Some? then Decode(EncodePointer(o)) == p && EncodePointer(o) != JNull else EncodePointer(o) == JNull
    decreases o, 0
  {
    if o.Some? {
      DecodeEncode(o.value);
    }
  }

  lemma {:induction false} DecodeEncodeTypes(types: seq<DataType>)
    ensures DecodeTypes(EncodeTypes(types)) == Some(CanonTypes(types))
    decreases types, 0
  {
    if types != [] {
      DecodeEncode(types[0]);
      DecodeEncodeTypes(types[1..]);
      assert EncodeTypes(types)[1..] == EncodeTypes(types[1..]);
    }
  }

  lemma {:induction false} DecodeEncodeFields(fields: seq<StructField>)
    ensures DecodeFields(EncodeFields(fields)) == Some(CanonFields(fields))
    decreases fields, 0
  {
    if fields != [] {
      var f := fields[0];
      DecodeEncode(f.fieldType);
      DecodeEncodedField(f, Encode(f.fieldType), Canon(f.fieldType));
      DecodeEncodeFields(fields[1..]);
      assert EncodeFields(fields)[1..] == EncodeFields(fields[1..]);
    }
  }

  // ----- Laws of the canonical form -----

  /** The printer only looks at the canonical form. */
  lemma {:induction false} EncodeCanon(d: DataType)
    ensures Encode(Canon(d)) == Encode(d)
    decreases d, 1
  {
    if d.kind == "struct" {
      if d.fields.Fields? {
        EncodeCanonFields(d.fields.list);
      }
    } else if d.kind == "list" {
      EncodeCanonPointer(d.elementType);
    } else if d.kind == "map" {
      EncodeCanonPointer(d.keyType);
      EncodeCanonPointer(d.valueType);
    } else if d.kind == "union" {
      if d.types.Types? {
        EncodeCanonTypes(d.types.list);
      }
    }
  }

  lemma {:induction false} EncodeCanonPointer(o: Option<DataType>)
    ensures EncodePointer(CanonPointer(o)) == EncodePointer(o)
    decreases o, 0
  {
    if o.Some? {
      EncodeCanon(o.value);
    }
  }

  lemma {:induction false} EncodeCanonTypes(types: seq<DataType>)
    ensures EncodeTypes(CanonTypes(types)) == EncodeTypes(types)
    decreases types, 0
  {
    if types != [] {
      EncodeCanon(types[0]);
      EncodeCanonTypes(types[1..]);
      assert CanonTypes(types)[1..] == CanonTypes(types[1..]);
    }
  }

  lemma {:induction false} EncodeCanonFields(fields: seq<StructField>)
    ensures EncodeFields(CanonFields(fields)) == EncodeFields(fields)
    decreases fields, 0
  {
    if fields != [] {
      EncodeCanon(fields[0].fieldType);
      EncodeCanonFields(fields[1..]);
      assert CanonFields(fields)[1..] == CanonFields(fields[1..]);
    }
  }

  /** Two types print the same document exactly when they have the same canonical form. */
  lemma EncodeInjective(a: DataType, b: DataType)
    ensures Encode(a) == Encode(b) <==> Canon(a) == Canon(b)
  {
    DecodeEncode(a);
    DecodeEncode(b);
    EncodeCanon(a);
    EncodeCanon(b);
  }

  lemma {:induction false} ValidCanon(d: DataType)
    ensures Valid(Canon(d)) == Valid(d)
    decreases d
  {
    if d.kind == "struct" {
      var fields := FieldsOf(d.fields);
      forall i | 0 <= i < |fields| {
        ValidCanon(fields[i].fieldType);
      }
    } else if d.kind == "list" {
      if d.elementType.Some? {
        ValidCanon(d.elementType.value);
      }
    } else if d.kind == "map" {
      if d.keyType.Some? {
        ValidCanon(d.keyType.value);
      }
      if d.valueType.Some? {
        ValidCanon(d.valueType.value);
      }
    } else if d.kind == "union" {
      var types := TypesOf(d.types);
      forall i | 0 <= i < |types| {
        ValidCanon(types[i]);
      }
    }
  }

  lemma {:induction false} EncodePrintable(d: DataType)
    ensures Printable(Encode(d))
    decreases d, 1
  {
    FieldListPrintable(d.fields);
    TypeListPrintable(d.types);
    EncodePointerPrintable(d.elementType);
    EncodePointerPrintable(d.keyType);
    EncodePointerPrintable(d.valueType);
  }

  lemma {:induction false} EncodePointerPrintable(o: Option<DataType>)
    ensures Printable(EncodePointer(o))
    decreases o, 0
  {
    if o.Some? {
      EncodePrintable(o.value);
    }
  }

  lemma {:induction false} TypeListPrintable(v: Types)
    ensures Printable(EncodeTypeList(v))
    decreases v, 1
  {
    if v.Types? {
      EncodeTypesPrintable(v.list);
    }
  }

  lemma {:induction false} FieldListPrintable(v: Fields)
    ensures Printable(EncodeFieldList(v))
    decreases v, 1
  {
    if v.Fields? {
      EncodeFieldsPrintable(v.list);
    }
  }

  lemma {:induction false} EncodeTypesPrintable(types: seq<DataType>)
    ensures forall i :: 0 <= i < |types| ==> Printable(EncodeTypes(types)[i])
    decreases types, 0
  {
    if types != [] {
      EncodePrintable(types[0]);
      EncodeTypesPrintable(types[1..]);
    }
  }

  lemma {:induction false} EncodeFieldsPrintable(fields: seq<StructField>)
    ensures forall i :: 0 <= i < |fields| ==> Printable(EncodeFields(fields)[i])
    decreases fields, 0
  {
    if fields != [] {
      EncodePrintable(fields[0].fieldType);
      EncodeFieldsPrintable(fields[1..]);
    }
  }

  // ----- Print-then-parse -----

  lemma ObjectTrimmed(j: Json)
    requires j.JObj?
    ensures Print(j) != "" && Print(j)[0] == '{' && Trim(Print(j)) == Print(j)
  {
    var s := Print(j);
    assert s[|s| - 1] == '}';
    TrimFacts(s);
  }

  /** Parsing the text of a structured type gives its canonical form, or fails because the type is
      incomplete; there is no third outcome. */
  lemma ParsePrinted(d: DataType)
    requires IsStructured(d.kind)
    ensures Parse(String(d)) == if Valid(d) then Some(Canon(d)) else None
  {
    ObjectTrimmed(Encode(d));
    EncodePrintable(d);
    PrintRoundTrip(Encode(d));
    DecodeEncode(d);
    ValidCanon(d);
  }

  /** Canonical text is a fixed point: whatever the parser accepts as a structured type prints a text
      that parses again, to the canonical form, and prints the same. */
  lemma CanonicalTextIsFixed(value: string)
    requires Parse(value).Some? && IsStructured(Parse(value).value.kind)
    ensures var d := Parse(value).value;
            && Parse(String(d)) == Some(Canon(d))
            && String(Canon(d)) == String(d)
  {
    var d := Parse(value).value;
    ParseAcceptsValid(value);
    ParsePrinted(d);
    EncodeCanon(d);
  }

  /** Two structured types have the same text exactly when they have the same canonical form. */
  lemma SameTextSameCanon(a: DataType, b: DataType)
    requires IsStructured(a.kind) && IsStructured(b.kind)
    ensures String(a) == String(b) <==> Canon(a) == Canon(b)
  {
    EncodePrintable(a);
    EncodePrintable(b);
    PrintInjective(Encode(a), Encode(b));
    EncodeInjective(a, b);
  }

  /** The parser only accepts what the validator accepts. */
  lemma ParseAcceptsValid(value: string)
    requires Parse(value).Some?
    ensures Valid(Parse(value).value)
  {
    var d := Parse(value).value;
    if !IsStructured(d.kind) && d == Plain(d.kind) && IsPrimitive(d.kind) {
      PrimitiveNotBlank(d.kind);
    }
  }

  lemma NotBlank(s: string)
    requires s != "" && !IsSpace(s[0])
    ensures !Blank(s)
  {
    var k := TrimLeftFacts(s);
    TrimRightFacts(TrimLeft(s));
    assert TrimLeft(s)[0] == s[0];
  }

  lemma PrimitiveNotBlank(s: string)
    requires IsPrimitive(s)
    ensures !Blank(s)
  {
    NotBlank(s);
  }

  // ----- Exactly which types survive print-then-parse -----

  /** Every string in the document is shorter than n. */
  predicate StringsBelow(j: Json, n: nat) {
    match j
    case JStr(s) => |s| < n
    case JArr(items) => forall i :: 0 <= i < |items| ==> StringsBelow(items[i], n)
    case JObj(members) => forall i :: 0 <= i < |members| ==> StringsBelow(members[i].value, n)
    case _ => true
  }

  lemma {:induction false} StringsBelowMore(j: Json, m: nat, n: nat)
    requires StringsBelow(j, m) && m <= n
    ensures StringsBelow(j, n)
  {
    match j
    case JArr(items) =>
      forall i | 0 <= i < |items| {
        StringsBelowMore(items[i], m, n);
      }
    case JObj(members) =>
      forall i | 0 <= i < |members| {
        StringsBelowMore(members[i].value, m, n);
      }
    case _ =>
  }

  /** A text is longer than every string it spells. */
  lemma {:induction false} ParsedStringsShorter(s: string)
    requires ParseValue(s).Ok?
    ensures StringsBelow(ParseValue(s).value, |s|)
    decreases |s|, 0
  {
    var t := SkipWs(s);
    var j := ParseValue(s).value;
    if t[0] == '[' && j != JArr([]) {
      ParsedItemsShorter(t[1..]);
      StringsBelowMore(j, |t[1..]|, |s|);
    } else if t[0] == '{' && j != JObj([]) {
      ParsedMembersShorter(t[1..]);
      StringsBelowMore(j, |t[1..]|, |s|);
    }
  }

  lemma {:induction false} ParsedItemsShorter(s: string)
    requires ParseItems(s).Ok?
    ensures StringsBelow(JArr(ParseItems(s).value), |s|)
    decreases |s|, 1
  {
    ParsedStringsShorter(s);
    var t := SkipWs(ParseValue(s).rest);
    if t[0] == ',' {
      ParsedItemsShorter(t[1..]);
      StringsBelowMore(JArr(ParseItems(t[1..]).value), |t[1..]|, |s|);
    }
  }

  lemma {:induction false} ParsedMembersShorter(s: string)
    requires ParseMembers(s).Ok?
    ensures StringsBelow(JObj(ParseMembers(s).value), |s|)
    decreases |s|, 1
  {
    var u := ParseKey(s).rest;
    ParsedStringsShorter(u);
    StringsBelowMore(ParseValue(u).value, |u|, |s|);
    var t := SkipWs(ParseValue(u).rest);
    if t[0] == ',' {
      ParsedMembersShorter(t[1..]);
      StringsBelowMore(JObj(ParseMembers(t[1..]).value), |t[1..]|, |s|);
    }
  }

  lemma DecodedKind(doc: Json, n: nat)
    requires n > 0 && StringsBelow(doc, n) && Decode(doc).Some?
    ensures |Decode(doc).value.kind| < n
  {
    if doc.JObj? {
      FindsMember(doc.members, "type");
    }
  }

  /** A name that is not a bare primitive name never parses to itself. */
  lemma ParsedNameShorter(value: string)
    requires Parse(value).Some?
    ensures |Parse(value).value.kind| < |value| ||
            (Parse(value).value == Plain(value) && IsPrimitive(value) && Trimmed(value))
  {
    TrimFacts(value);
    var trimmed := Trim(value);
    if trimmed[0] == '{' {
      ParsedStringsShorter(trimmed);
      DecodedKind(ParseText(trimmed).value, |trimmed|);
    } else if trimmed[0] == '\"' {
      ParsedStringsShorter(trimmed);
    }
  }

  /** Print-then-parse gives back exactly the complete, canonical types whose name, when it is printed
      bare, is a trimmed primitive name. */
  lemma PrintParseIdentity(d: DataType)
    ensures Parse(String(d)) == Some(d) <==>
            Valid(d) && Canon(d) == d && (IsStructured(d.kind) || (IsPrimitive(d.kind) && Trimmed(d.kind)))
  {
    if IsStructured(d.kind) {
      ParsePrinted(d);
    } else {
      var value := d.kind;
      TrimFacts(value);
      if Parse(value) == Some(d) {
        ParsedNameShorter(value);
        ParseAcceptsValid(value);
      } else if IsPrimitive(value) && Trimmed(value) {
        assert Canon(d) == Plain(value);
        assert value[0] != '{' && value[0] != '\"' && Parse(value) == Some(Plain(value));
      }
    }
  }
}
