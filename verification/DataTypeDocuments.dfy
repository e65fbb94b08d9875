/** What the printed documents look like, stated about the JSON tree alone. */
module DataTypeDocuments {
  import opened Common
  import opened Order
  import opened Json
  import opened DataTypes
  import opened DataTypeLaws

  // ----- Completeness -----

  /** A document that describes a complete type: a name that is no structured kind, or an object of a
      structured kind with every member its kind requires, down to the leaves. */
  predicate Complete(j: Json)
    decreases j, 1
  {
    match j
    case JStr(name) => !Blank(name) && !IsStructured(name)
    case JObj(ms) =>
      if Find(ms, "type") == Some(JStr("struct")) then CompleteFields(ms)
      else if Find(ms, "type") == Some(JStr("list")) then CompleteMember(ms, "elementType")
      else if Find(ms, "type") == Some(JStr("map")) then
        CompleteMember(ms, "keyType") && CompleteMember(ms, "valueType")
      else if Find(ms, "type") == Some(JStr("union")) then CompleteTypes(ms)
      else if Find(ms, "type") == Some(JStr("unparsed")) then TextMember(ms, "unparsedType")
      else Find(ms, "type") == Some(JStr("external")) && TextMember(ms, "catalogString")
    case _ => false
  }

  predicate TextMember(ms: seq<Member>, key: string) {
    match Find(ms, key)
    case Some(JStr(s)) => !Blank(s)
    case _ => false
  }

  predicate CompleteMember(ms: seq<Member>, key: string)
    decreases ms, 0
  {
    match Find(ms, key)
    case Some(j) => FindsMember(ms, key); Complete(j)
    case None => false
  }

  predicate CompleteTypes(ms: seq<Member>)
    decreases ms, 0
  {
    match Find(ms, "types")
    case Some(JArr(items)) =>
      FindsMember(ms, "types");
      items != [] && forall i :: 0 <= i < |items| ==> Complete(items[i])
    case _ => false
  }

  predicate CompleteFields(ms: seq<Member>)
    decreases ms, 0
  {
    match Find(ms, "fields")
    case Some(JArr(items)) =>
      FindsMember(ms, "fields");
      items != [] && forall i :: 0 <= i < |items| ==> CompleteField(items[i])
    case _ => false
  }

  predicate CompleteField(j: Json)
    decreases j, 2
  {
    j.JObj? && TextMember(j.members, "name") && CompleteMember(j.members, "type")
  }

  lemma CompleteEncodedField(name: string, typ: Json, nullable: Option<bool>, comment: string)
    ensures CompleteField(EncodeField(name, typ, nullable, comment)) <==> !Blank(name) && Complete(typ)
  {
    IndexField(name, typ, nullable, comment);
  }

  lemma CompleteStruct(list: Json)
    ensures Complete(JObj([Member("fields", list), Member("type", JStr("struct"))])) <==>
            list.JArr? && list.items != [] && forall i :: 0 <= i < |list.items| ==> CompleteField(list.items[i])
  {
    IndexPair(Member("fields", list), Member("type", JStr("struct")));
  }

  lemma CompleteUnion(list: Json)
    ensures Complete(JObj([Member("type", JStr("union")), Member("types", list)])) <==>
            list.JArr? && list.items != [] && forall i :: 0 <= i < |list.items| ==> Complete(list.items[i])
  {
    IndexPair(Member("type", JStr("union")), Member("types", list));
  }

  lemma CompleteList(o: Option<bool>, e: Json)
    ensures Complete(JObj(BoolMember("containsNull", o) +
                          [Member("elementType", e), Member("type", JStr("list"))])) <==>
            Complete(e)
  {
    IndexList(o, e);
  }

  lemma CompleteMap(k: Json, o: Option<bool>, v: Json)
    ensures var ms := [Member("keyType", k), Member("type", JStr("map"))] + BoolMember("valueContainsNull", o) +
                      [Member("valueType", v)];
            Complete(JObj(ms)) <==> Complete(k) && Complete(v)
  {
    IndexMap(k, o, v);
  }

  lemma CompleteText(text: string)
    ensures Complete(JObj([Member("type", JStr("unparsed")), Member("unparsedType", JStr(text))])) <==> !Blank(text)
    ensures Complete(JObj([Member("catalogString", JStr(text)), Member("type", JStr("external"))])) <==> !Blank(text)
  {
    IndexPair(Member("type", JStr("unparsed")), Member("unparsedType", JStr(text)));
    IndexPair(Member("catalogString", JStr(text)), Member("type", JStr("external")));
  }

  lemma KindsNotBlank(kind: string)
    requires IsStructured(kind)
    ensures !Blank(kind)
  {
    hide Trim;
    NotBlank(kind);
  }

  lemma CompleteName(kind: string)
    ensures Complete(JStr(kind)) <==> !Blank(kind) && !IsStructured(kind)
  {
  }

  /** The validator accepts a type exactly when the printed document is complete at every depth. */
  lemma {:induction false} ValidIsComplete(d: DataType)
    ensures Valid(d) <==> Complete(Encode(d))
    decreases d, 1
  {
    hide Complete, Blank, CompleteField;
    CompleteName(d.kind);
    if IsStructured(d.kind) {
      KindsNotBlank(d.kind);
    }
    if d.kind == "struct" {
      var fields := FieldsOf(d.fields);
      var items := EncodeFields(fields);
      CompleteStruct(EncodeFieldList(d.fields));
      forall i | 0 <= i < |fields|
        ensures CompleteField(items[i]) <==> !Blank(fields[i].name) && Valid(fields[i].fieldType)
      {
        var f := fields[i];
        ValidIsComplete(f.fieldType);
        CompleteEncodedField(f.name, Encode(f.fieldType), f.nullable, f.comment);
      }
    } else if d.kind == "list" {
      CompleteList(d.containsNull, EncodePointer(d.elementType));
      PointerIsComplete(d.elementType);
    } else if d.kind == "map" {
      CompleteMap(EncodePointer(d.keyType), d.valueContainsNull, EncodePointer(d.valueType));
      PointerIsComplete(d.keyType);
      PointerIsComplete(d.valueType);
    } else if d.kind == "union" {
      var types := TypesOf(d.types);
      CompleteUnion(EncodeTypeList(d.types));
      forall i | 0 <= i < |types| {
        ValidIsComplete(types[i]);
      }
    } else if d.kind == "unparsed" {
      CompleteText(d.unparsedType);
    } else if d.kind == "external" {
      CompleteText(d.catalogString);
    }
  }

  lemma {:induction false} PointerIsComplete(o: Option<DataType>)
    ensures o.Some? && Valid(o.value) <==> Complete(EncodePointer(o))
    decreases o, 0
  {
    if o.Some? {
      ValidIsComplete(o.value);
    }
  }

  /** Whatever the parser accepts prints a complete document, so no bare structured kind name and no
      object without its required members survives anywhere in an accepted type. */
  lemma AcceptedIsComplete(value: string)
    requires Parse(value).Some?
    ensures Complete(Encode(Parse(value).value))
  {
    ParseAcceptsValid(value);
    ValidIsComplete(Parse(value).value);
  }

  // ----- The external variant -----

  /** An object with the external discriminator occurs somewhere in the document. */
  predicate HasExternal(j: Json) {
    match j
    case JArr(items) => exists i :: 0 <= i < |items| && HasExternal(items[i])
    case JObj(ms) =>
      exists i :: 0 <= i < |ms| && (ms[i] == Member("type", JStr("external")) || HasExternal(ms[i].value))
    case _ => false
  }

  lemma ExternalInField(name: string, typ: Json, nullable: Option<bool>, comment: string)
    requires typ != JStr("external")
    ensures HasExternal(EncodeField(name, typ, nullable, comment)) <==> HasExternal(typ)
  {
    var ms := EncodeField(name, typ, nullable, comment).members;
    assert ms[|ms| - 1] == Member("type", typ);
    assert forall i :: 0 <= i < |ms| - 1 ==> ms[i].value.JStr? || ms[i].value.JBool?;
    assert forall i :: 0 <= i < |ms| - 1 ==> ms[i].key != "type";
  }

  lemma ExternalInPair(a: Member, b: Member)
    ensures HasExternal(JObj([a, b])) <==>
            a == Member("type", JStr("external")) || b == Member("type", JStr("external")) ||
            HasExternal(a.value) || HasExternal(b.value)
  {
    var ms := [a, b];
    assert ms[0] == a && ms[1] == b;
  }

  lemma ExternalInList(o: Option<bool>, e: Json)
    ensures HasExternal(JObj(BoolMember("containsNull", o) +
                             [Member("elementType", e), Member("type", JStr("list"))])) <==>
            HasExternal(e)
  {
    var ms := BoolMember("containsNull", o) + [Member("elementType", e), Member("type", JStr("list"))];
    assert ms[|ms| - 2] == Member("elementType", e) && ms[|ms| - 1] == Member("type", JStr("list"));
    assert |ms| == 3 ==> ms[0].value.JBool?;
  }

  lemma ExternalInMap(k: Json, o: Option<bool>, v: Json)
    ensures var ms := [Member("keyType", k), Member("type", JStr("map"))] + BoolMember("valueContainsNull", o) +
                      [Member("valueType", v)];
            HasExternal(JObj(ms)) <==> HasExternal(k) || HasExternal(v)
  {
    var ms := [Member("keyType", k), Member("type", JStr("map"))] + BoolMember("valueContainsNull", o) +
              [Member("valueType", v)];
    assert ms[0] == Member("keyType", k) && ms[1] == Member("type", JStr("map"));
    assert ms[|ms| - 1] == Member("valueType", v);
    assert |ms| == 4 ==> ms[2].value.JBool?;
  }

  /** UsesExternalType is true exactly when the external variant occurs in the printed document. */
  lemma {:induction false} UsesExternalIsPrinted(d: DataType)
    ensures UsesExternal(d) <==> HasExternal(Encode(d))
    decreases d, 2
  {
    hide HasExternal;
    NoExternalInText();
    if d.kind == "struct" {
      FieldsExternal(d.fields);
      ExternalInPair(Member("fields", EncodeFieldList(d.fields)), Member("type", JStr("struct")));
    } else if d.kind == "list" {
      PointerExternal(d.elementType);
      ExternalInList(d.containsNull, EncodePointer(d.elementType));
    } else if d.kind == "map" {
      PointerExternal(d.keyType);
      PointerExternal(d.valueType);
      ExternalInMap(EncodePointer(d.keyType), d.valueContainsNull, EncodePointer(d.valueType));
    } else if d.kind == "union" {
      TypesExternal(d.types);
      ExternalInPair(Member("type", JStr("union")), Member("types", EncodeTypeList(d.types)));
    } else if d.kind == "unparsed" {
      ExternalInPair(Member("type", JStr("unparsed")), Member("unparsedType", JStr(d.unparsedType)));
    } else if d.kind == "external" {
      ExternalInPair(Member("catalogString", JStr(d.catalogString)), Member("type", JStr("external")));
    }
  }

  lemma NoExternalInText()
    ensures !HasExternal(JNull) && forall s :: !HasExternal(JStr(s))
  {
  }

  lemma ExternalInItems(items: seq<Json>)
    ensures HasExternal(JArr(items)) <==> exists i :: 0 <= i < |items| && HasExternal(items[i])
  {
  }

  lemma {:induction false} FieldsExternal(v: Fields)
    ensures HasExternal(EncodeFieldList(v)) <==>
            exists i :: 0 <= i < |FieldsOf(v)| && UsesExternal(FieldsOf(v)[i].fieldType)
    decreases v, 1
  {
    hide HasExternal, UsesExternal;
    NoExternalInText();
    if v.Fields? {
      var items := EncodeFields(v.list);
      ExternalInItems(items);
      forall i | 0 <= i < |v.list| ensures HasExternal(items[i]) <==> UsesExternal(v.list[i].fieldType) {
        var f := v.list[i];
        UsesExternalIsPrinted(f.fieldType);
        ExternalInField(f.name, Encode(f.fieldType), f.nullable, f.comment);
      }
      assert EncodeFieldList(v) == JArr(items) && FieldsOf(v) == v.list;
    } else {
      assert EncodeFieldList(v) == JNull && FieldsOf(v) == [];
    }
  }

  lemma {:induction false} TypesExternal(v: Types)
    ensures HasExternal(EncodeTypeList(v)) <==> exists i :: 0 <= i < |TypesOf(v)| && UsesExternal(TypesOf(v)[i])
    decreases v, 1
  {
    hide HasExternal, UsesExternal;
    NoExternalInText();
    if v.Types? {
      var items := EncodeTypes(v.list);
      ExternalInItems(items);
      forall i | 0 <= i < |v.list| ensures HasExternal(items[i]) <==> UsesExternal(v.list[i]) {
        UsesExternalIsPrinted(v.list[i]);
      }
      assert EncodeTypeList(v) == JArr(items) && TypesOf(v) == v.list;
    } else {
      assert EncodeTypeList(v) == JNull && TypesOf(v) == [];
    }
  }

  lemma {:induction false} PointerExternal(o: Option<DataType>)
    ensures o.Some? && UsesExternal(o.value) <==> HasExternal(EncodePointer(o))
    decreases o, 0
  {
    if o.Some? {
      UsesExternalIsPrinted(o.value);
    }
  }

  // ----- Key order -----

  /** Every object of the document has its keys in strictly ascending order. */
  predicate KeysAscending(j: Json) {
    match j
    case JArr(items) => forall i :: 0 <= i < |items| ==> KeysAscending(items[i])
    case JObj(ms) =>
      Adjacent(ms) && forall i :: 0 <= i < |ms| ==> KeysAscending(ms[i].value)
    case _ => true
  }

  predicate Adjacent(ms: seq<Member>) {
    forall i :: 0 < i < |ms| ==> Less(ms[i - 1].key, ms[i].key)
  }

  lemma AdjacentConcat(a: seq<Member>, b: seq<Member>)
    requires Adjacent(a) && Adjacent(b)
    requires a != [] && b != [] ==> Less(a[|a| - 1].key, b[0].key)
    ensures Adjacent(a + b)
  {
  }

  lemma AdjacentBool(a: seq<Member>, key: string, o: Option<bool>, m: Member)
    requires Adjacent(a) && Less(key, m.key)
    requires a != [] ==> Less(a[|a| - 1].key, key) && Less(a[|a| - 1].key, m.key)
    ensures Adjacent(a + BoolMember(key, o) + [m])
  {
    AdjacentConcat(a, BoolMember(key, o));
    AdjacentConcat(a + BoolMember(key, o), [m]);
  }

  /** Adjacent keys in order means all keys in order, hence no key twice. */
  lemma {:induction false} AdjacentAscending(ms: seq<Member>, i: nat, k: nat)
    requires Adjacent(ms) && i < k < |ms|
    ensures Less(ms[i].key, ms[k].key)
  {
    if i < k - 1 {
      AdjacentAscending(ms, i, k - 1);
      LessTransitive(ms[i].key, ms[k - 1].key, ms[k].key);
    }
  }

  lemma PairKeysAscending(a: Member, b: Member)
    requires Less(a.key, b.key) && KeysAscending(a.value) && KeysAscending(b.value)
    ensures KeysAscending(JObj([a, b]))
  {
  }

  /** The printer emits the keys of every object in ascending order, as jsonencode does. */
  lemma {:induction false} PrintsAscendingKeys(d: DataType)
    ensures KeysAscending(Encode(d))
    decreases d, 2
  {
    hide KeysAscending;
    TextsAscending();
    UnionKeyOrder();
    if d.kind == "struct" {
      FieldListAscending(d.fields);
      PairKeysAscending(Member("fields", EncodeFieldList(d.fields)), Member("type", JStr("struct")));
    } else if d.kind == "list" {
      PointerKeysAscending(d.elementType);
      ListKeysAscending(d.containsNull, EncodePointer(d.elementType));
    } else if d.kind == "map" {
      PointerKeysAscending(d.keyType);
      PointerKeysAscending(d.valueType);
      MapKeysAscending(EncodePointer(d.keyType), d.valueContainsNull, EncodePointer(d.valueType));
    } else if d.kind == "union" {
      TypeListAscending(d.types);
      PairKeysAscending(Member("type", JStr("union")), Member("types", EncodeTypeList(d.types)));
    } else if d.kind == "unparsed" {
      PairKeysAscending(Member("type", JStr("unparsed")), Member("unparsedType", JStr(d.unparsedType)));
    } else if d.kind == "external" {
      PairKeysAscending(Member("catalogString", JStr(d.catalogString)), Member("type", JStr("external")));
    }
  }

  lemma UnionKeyOrder()
    ensures Less("type", "types")
  {
    CommonPrefix("type", "", "s");
    assert "type" + "" == "type" && "type" + "s" == "types";
  }

  lemma TextsAscending()
    ensures KeysAscending(JNull) && forall s :: KeysAscending(JStr(s))
  {
  }

  lemma ItemsAscending(items: seq<Json>)
    requires forall i :: 0 <= i < |items| ==> KeysAscending(items[i])
    ensures KeysAscending(JArr(items))
  {
  }

  lemma {:induction false} FieldListAscending(v: Fields)
    ensures KeysAscending(EncodeFieldList(v))
    decreases v, 1
  {
    hide KeysAscending;
    TextsAscending();
    if v.Fields? {
      var items := EncodeFields(v.list);
      forall i | 0 <= i < |v.list| ensures KeysAscending(items[i]) {
        var f := v.list[i];
        PrintsAscendingKeys(f.fieldType);
        FieldKeysAscending(f.name, Encode(f.fieldType), f.nullable, f.comment);
      }
      ItemsAscending(items);
    }
  }

  lemma {:induction false} TypeListAscending(v: Types)
    ensures KeysAscending(EncodeTypeList(v))
    decreases v, 1
  {
    hide KeysAscending;
    TextsAscending();
    if v.Types? {
      var items := EncodeTypes(v.list);
      forall i | 0 <= i < |v.list| ensures KeysAscending(items[i]) {
        PrintsAscendingKeys(v.list[i]);
      }
      ItemsAscending(items);
    }
  }

  lemma {:induction false} PointerKeysAscending(o: Option<DataType>)
    ensures KeysAscending(EncodePointer(o))
    decreases o, 0
  {
    if o.Some? {
      PrintsAscendingKeys(o.value);
    }
  }

  lemma ListKeysAscending(o: Option<bool>, e: Json)
    requires KeysAscending(e)
    ensures KeysAscending(JObj(BoolMember("containsNull", o) +
                               [Member("elementType", e), Member("type", JStr("list"))]))
  {
    AdjacentConcat(BoolMember("containsNull", o), [Member("elementType", e), Member("type", JStr("list"))]);
  }

  lemma MapKeyOrder()
    ensures Less("keyType", "type") && Less("type", "valueContainsNull") && Less("type", "valueType")
    ensures Less("valueContainsNull", "valueType")
  {
    CommonPrefix("value", "ContainsNull", "Type");
    assert "value" + "ContainsNull" == "valueContainsNull" && "value" + "Type" == "valueType";
  }

  lemma MapKeysAscending(k: Json, o: Option<bool>, v: Json)
    requires KeysAscending(k) && KeysAscending(v)
    ensures KeysAscending(JObj([Member("keyType", k), Member("type", JStr("map"))] +
                               BoolMember("valueContainsNull", o) +
                               [Member("valueType", v)]))
  {
    hide Less;
    MapKeyOrder();
    AdjacentBool([Member("keyType", k), Member("type", JStr("map"))], "valueContainsNull", o, Member("valueType", v));
  }

  lemma FieldKeysAscending(name: string, typ: Json, nullable: Option<bool>, comment: string)
    requires KeysAscending(typ)
    ensures KeysAscending(EncodeField(name, typ, nullable, comment))
  {
    var c := if comment != "" then [Member("comment", JStr(comment))] else [];
    AdjacentConcat(c, [Member("name", JStr(name))]);
    CommonPrefix("n", "ame", "ullable");
    assert "n" + "ame" == "name" && "n" + "ullable" == "nullable";
    AdjacentBool(c + [Member("name", JStr(name))], "nullable", nullable, Member("type", typ));
  }
}
