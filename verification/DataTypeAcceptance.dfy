/** Which documents are accepted as data types, stated about the JSON tree: any tree, not only printed ones. */
module DataTypeAcceptance {
  import opened Common
  import opened Json
  import opened DataTypes
  import opened DataTypeNames

  // ----- Documents that decode -----

  predicate TextOrNone(ms: seq<Member>, key: string) {
    Find(ms, key).None? || Find(ms, key).value.JNull? || Find(ms, key).value.JStr?
  }

  predicate FlagOrNone(ms: seq<Member>, key: string) {
    Find(ms, key).None? || Find(ms, key).value.JNull? || Find(ms, key).value.JBool?
  }

  /** A document that decodes: null, a string, or an object with a type whose members, used or not, have the
      kinds they should have. */
  predicate Readable(j: Json)
    decreases j, 1
  {
    match j
    case JNull => true
    case JStr(_) => true
    case JObj(ms) =>
      && Find(ms, "type").Some? && Find(ms, "type").value.JStr? && Find(ms, "type").value.s != ""
      && TextOrNone(ms, "catalogString") && FlagOrNone(ms, "containsNull") && FlagOrNone(ms, "valueContainsNull")
      && ReadableMember(ms, "elementType") && ReadableMember(ms, "keyType") && ReadableMember(ms, "valueType")
      && ReadableTypes(ms) && ReadableFields(ms)
    case _ => false
  }

  predicate ReadableMember(ms: seq<Member>, key: string)
    decreases ms, 0
  {
    match Find(ms, key)
    case None => true
    case Some(j) => FindsMember(ms, key); Readable(j)
  }

  predicate ReadableTypes(ms: seq<Member>)
    decreases ms, 0
  {
    match Find(ms, "types")
    case None => true
    case Some(JNull) => true
    case Some(JArr(items)) => FindsMember(ms, "types"); forall i :: 0 <= i < |items| ==> Readable(items[i])
    case Some(_) => false
  }

  predicate ReadableFields(ms: seq<Member>)
    decreases ms, 0
  {
    match Find(ms, "fields")
    case None => true
    case Some(JNull) => true
    case Some(JArr(items)) => FindsMember(ms, "fields"); forall i :: 0 <= i < |items| ==> ReadableField(items[i])
    case Some(_) => false
  }

  predicate ReadableField(j: Json)
    decreases j, 2
  {
    match j
    case JNull => true
    case JObj(ms) =>
      TextOrNone(ms, "name") && TextOrNone(ms, "comment") && FlagOrNone(ms, "nullable") && ReadableMember(ms, "type")
    case _ => false
  }

  lemma TextDecodes(ms: seq<Member>, key: string)
    ensures FindString(ms, key).Some? <==> TextOrNone(ms, key)
    ensures FindString(ms, key).Some? ==>
              FindString(ms, key).value ==
              if Find(ms, key).Some? && Find(ms, key).value.JStr? then Find(ms, key).value.s else ""
  {
    hide Index;
  }

  lemma FlagDecodes(ms: seq<Member>, key: string)
    ensures FindBool(ms, key).Some? <==> FlagOrNone(ms, key)
  {
    hide Index;
  }

  /** A document decodes exactly if it is readable. */
  lemma {:induction false} DecodeExactly(j: Json)
    ensures Decode(j).Some? <==> Readable(j)
    decreases j, 1
  {
    if j.JObj? {
      ObjectDecodes(j.members);
    }
  }

  lemma {:induction false} ObjectDecodes(ms: seq<Member>)
    ensures Decode(JObj(ms)).Some? <==> Readable(JObj(ms))
    decreases ms, 1
  {
    hide Find, FindBool, FlagOrNone, FindType, FindTypes, FindFields, ReadableMember, ReadableTypes, ReadableFields,
      UnparsedOf;
    TextDecodes(ms, "type");
    TextDecodes(ms, "catalogString");
    FlagDecodes(ms, "containsNull");
    FlagDecodes(ms, "valueContainsNull");
    MemberDecodes(ms, "elementType");
    MemberDecodes(ms, "keyType");
    MemberDecodes(ms, "valueType");
    TypesDecode(ms);
    FieldsDecode(ms);
  }

  lemma {:induction false} MemberDecodes(ms: seq<Member>, key: string)
    ensures FindType(ms, key).Some? <==> ReadableMember(ms, key)
    decreases ms, 0
  {
    hide Find;
    if Find(ms, key).Some? {
      FindsMember(ms, key);
      DecodeExactly(Find(ms, key).value);
    }
  }

  lemma {:induction false} TypesDecode(ms: seq<Member>)
    ensures FindTypes(ms, "types").Some? <==> ReadableTypes(ms)
    decreases ms, 0
  {
    hide Find;
    match Find(ms, "types")
    case Some(JArr(items)) =>
      FindsMember(ms, "types");
      EachTypeDecodes(items);
    case _ =>
  }

  lemma {:induction false} EachTypeDecodes(items: seq<Json>)
    ensures DecodeTypes(items).Some? <==> forall i :: 0 <= i < |items| ==> Readable(items[i])
    decreases items, 0
  {
    hide Decode, Readable;
    if items != [] {
      DecodeExactly(items[0]);
      EachTypeDecodes(items[1..]);
      assert forall i :: 0 < i < |items| ==> items[1..][i - 1] == items[i];
    }
  }

  lemma {:induction false} FieldsDecode(ms: seq<Member>)
    ensures FindFields(ms, "fields").Some? <==> ReadableFields(ms)
    decreases ms, 0
  {
    hide Find;
    match Find(ms, "fields")
    case Some(JArr(items)) =>
      FindsMember(ms, "fields");
      EachFieldDecodes(items);
    case _ =>
  }

  lemma {:induction false} EachFieldDecodes(items: seq<Json>)
    ensures DecodeFields(items).Some? <==> forall i :: 0 <= i < |items| ==> ReadableField(items[i])
    decreases items, 0
  {
    hide DecodeField, ReadableField;
    if items != [] {
      FieldDecodes(items[0]);
      EachFieldDecodes(items[1..]);
      assert forall i :: 0 < i < |items| ==> items[1..][i - 1] == items[i];
    }
  }

  lemma {:induction false} FieldDecodes(j: Json)
    ensures DecodeField(j).Some? <==> ReadableField(j)
    decreases j, 2
  {
    hide Find, FindBool, FlagOrNone;
    if j.JObj? {
      var ms := j.members;
      TextDecodes(ms, "name");
      TextDecodes(ms, "comment");
      FlagDecodes(ms, "nullable");
      if Find(ms, "type").Some? {
        FindsMember(ms, "type");
        DecodeExactly(Find(ms, "type").value);
      }
    }
  }

  // ----- Documents that are complete types -----

  /** The text of the member, if it has one. */
  function TextOf(ms: seq<Member>, key: string): string {
    match Find(ms, key)
    case Some(JStr(s)) => s
    case _ => ""
  }

  /** The unparsed type: a string, or an array of strings that begins with one; null counts as an empty one. */
  predicate UnparsedText(ms: seq<Member>) {
    match Find(ms, "unparsedType")
    case Some(JStr(s)) => !Blank(s)
    case Some(JArr(items)) =>
      items != [] && items[0].JStr? && !Blank(items[0].s) &&
      forall i :: 0 <= i < |items| ==> items[i].JNull? || items[i].JStr?
    case _ => false
  }

  /** A readable document that says everything its kind requires. */
  predicate Full(j: Json)
    decreases j, 1
  {
    match j
    case JStr(name) => !Blank(name) && !StructuredKind(name)
    case JObj(ms) =>
      var kind := TextOf(ms, "type");
      if kind == "struct" then FullFields(ms)
      else if kind == "list" then FullMember(ms, "elementType")
      else if kind == "map" then FullMember(ms, "keyType") && FullMember(ms, "valueType")
      else if kind == "union" then FullTypes(ms)
      else if kind == "unparsed" then UnparsedText(ms)
      else if kind == "external" then !Blank(TextOf(ms, "catalogString"))
      else !Blank(kind)
    case _ => false
  }

  predicate FullMember(ms: seq<Member>, key: string)
    decreases ms, 0
  {
    match Find(ms, key)
    case None => false
    case Some(j) => FindsMember(ms, key); Full(j)
  }

  predicate FullTypes(ms: seq<Member>)
    decreases ms, 0
  {
    match Find(ms, "types")
    case Some(JArr(items)) =>
      FindsMember(ms, "types");
      items != [] && forall i :: 0 <= i < |items| ==> Full(items[i])
    case _ => false
  }

  predicate FullFields(ms: seq<Member>)
    decreases ms, 0
  {
    match Find(ms, "fields")
    case Some(JArr(items)) =>
      FindsMember(ms, "fields");
      items != [] && forall i :: 0 <= i < |items| ==> FullField(items[i])
    case _ => false
  }

  predicate FullField(j: Json)
    decreases j, 2
  {
    j.JObj? && !Blank(TextOf(j.members, "name")) && FullMember(j.members, "type")
  }

  lemma NothingFull()
    ensures Blank("") && forall d: DataType :: d.kind == "" ==> !Valid(d)
  {
  }

  /** What decodes is valid exactly if the document is full. */
  lemma {:induction false} ValidExactly(j: Json)
    requires Decode(j).Some?
    ensures Valid(Decode(j).value) <==> Full(j)
    decreases j, 1
  {
    match j
    case JNull =>
      NothingFull();
    case JStr(name) =>
      NameValid(name);
    case JObj(ms) =>
      ObjectValid(ms);
    case _ =>
  }

  lemma NameValid(name: string)
    ensures Valid(Plain(name)) <==> !Blank(name) && !StructuredKind(name)
  {
    NothingFull();
  }

  lemma {:induction false} ObjectValid(ms: seq<Member>)
    requires Decode(JObj(ms)).Some?
    ensures Valid(Decode(JObj(ms)).value) <==> Full(JObj(ms))
    decreases ms, 1
  {
    hide Find, FindBool, FindType, FindTypes, FindFields, FullMember, FullTypes, FullFields, UnparsedOf, UnparsedText,
      Blank;
    NothingFull();
    TextDecodes(ms, "type");
    TextDecodes(ms, "catalogString");
    StructuredNotBlank();
    var kind := TextOf(ms, "type");
    if kind == "struct" {
      FieldsValid(ms);
    } else if kind == "list" {
      MemberValid(ms, "elementType");
    } else if kind == "map" {
      MemberValid(ms, "keyType");
      MemberValid(ms, "valueType");
    } else if kind == "union" {
      TypesValid(ms);
    } else if kind == "unparsed" {
      UnparsedValid(ms);
    }
  }

  lemma StructuredNotBlank()
    ensures !Blank("struct") && !Blank("list") && !Blank("map") && !Blank("union") && !Blank("unparsed") &&
            !Blank("external")
  {
    TrimFacts("struct");
    TrimFacts("list");
    TrimFacts("map");
    TrimFacts("union");
    TrimFacts("unparsed");
    TrimFacts("external");
  }

  lemma UnparsedValid(ms: seq<Member>)
    ensures !Blank(UnparsedOf(Find(ms, "unparsedType"))) <==> UnparsedText(ms)
  {
    hide Find;
    NothingFull();
  }

  lemma {:induction false} MemberValid(ms: seq<Member>, key: string)
    requires FindType(ms, key).Some?
    ensures var d := FindType(ms, key).value; (d.Some? && Valid(d.value)) <==> FullMember(ms, key)
    decreases ms, 0
  {
    hide Find, Valid;
    if Find(ms, key).Some? {
      FindsMember(ms, key);
      if !Find(ms, key).value.JNull? {
        ValidExactly(Find(ms, key).value);
      }
    }
  }

  lemma {:induction false} TypesValid(ms: seq<Member>)
    requires FindTypes(ms, "types").Some?
    ensures var ts := TypesOf(FindTypes(ms, "types").value);
            (ts != [] && forall i :: 0 <= i < |ts| ==> Valid(ts[i])) <==> FullTypes(ms)
    decreases ms, 0
  {
    hide Find, Valid, Full;
    match Find(ms, "types")
    case Some(JArr(items)) =>
      FindsMember(ms, "types");
      EachTypeValid(items);
    case _ =>
  }

  lemma {:induction false} EachTypeValid(items: seq<Json>)
    requires DecodeTypes(items).Some?
    ensures var ts := DecodeTypes(items).value;
            |ts| == |items| && forall i :: 0 <= i < |ts| ==> (Valid(ts[i]) <==> Full(items[i]))
    decreases items, 0
  {
    hide Decode, Valid, Full;
    if items != [] {
      ValidExactly(items[0]);
      EachTypeValid(items[1..]);
      assert forall i :: 0 < i < |items| ==> items[1..][i - 1] == items[i];
    }
  }

  lemma {:induction false} FieldsValid(ms: seq<Member>)
    requires FindFields(ms, "fields").Some?
    ensures var fs := FieldsOf(FindFields(ms, "fields").value);
            (fs != [] && forall i :: 0 <= i < |fs| ==> !Blank(fs[i].name) && Valid(fs[i].fieldType)) <==> FullFields(ms)
    decreases ms, 0
  {
    hide Find, Valid, FullField, Blank;
    match Find(ms, "fields")
    case Some(JArr(items)) =>
      FindsMember(ms, "fields");
      EachFieldValid(items);
    case _ =>
  }

  lemma {:induction false} EachFieldValid(items: seq<Json>)
    requires DecodeFields(items).Some?
    ensures var fs := DecodeFields(items).value;
            |fs| == |items| &&
            forall i :: 0 <= i < |fs| ==> (!Blank(fs[i].name) && Valid(fs[i].fieldType) <==> FullField(items[i]))
    decreases items, 0
  {
    hide DecodeField, Valid, FullField, Blank;
    if items != [] {
      FieldValid(items[0]);
      EachFieldValid(items[1..]);
      assert forall i :: 0 < i < |items| ==> items[1..][i - 1] == items[i];
    }
  }

  lemma {:induction false} FieldValid(j: Json)
    requires DecodeField(j).Some?
    ensures var f := DecodeField(j).value; !Blank(f.name) && Valid(f.fieldType) <==> FullField(j)
    decreases j, 2
  {
    hide Find, FindBool, Valid, Full, Blank;
    NothingFull();
    if j.JObj? {
      var ms := j.members;
      TextDecodes(ms, "name");
      TextDecodes(ms, "comment");
      if Find(ms, "type").Some? {
        FindsMember(ms, "type");
        ValidExactly(Find(ms, "type").value);
      }
    }
  }

  /** A text that begins with a brace is accepted exactly if it is a document that is readable and full. */
  lemma DocumentExactly(value: string)
    requires Trim(value) != "" && Trim(value)[0] == '{'
    ensures Parse(value).Some? <==>
            ParseText(Trim(value)).Some? && Readable(ParseText(Trim(value)).value) && Full(ParseText(Trim(value)).value)
  {
    hide Trim, ParseText, Decode, Valid, Readable, Full;
    ParseExactly(value);
    if ParseText(Trim(value)).Some? {
      var j := ParseText(Trim(value)).value;
      DecodeExactly(j);
      if Decode(j).Some? {
        ValidExactly(j);
      }
    }
  }
}
