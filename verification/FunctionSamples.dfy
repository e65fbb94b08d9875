/** Sample definitions: one type spelled in two ways, and definitions of a single parameter. */
module FunctionSamples {
  import opened Common
  import opened Json
  import opened JsonText
  import opened DataTypes
  import opened DataTypeLaws
  import opened RawJson
  import opened Functions
  import opened SignatureLaws
  import opened Reconcile
  import opened TerraformFunctions

  // ----- One type, two spellings -----

  const CATALOG_FIRST := JObj([Member("catalogString", JStr("x")), Member("type", JStr("external"))])
  const TYPE_FIRST := JObj([Member("type", JStr("external")), Member("catalogString", JStr("x"))])

  /** A text of a JSON object that is a valid type stands for itself in both directions. */
  lemma ObjectText(j: Json, d: DataType)
    requires j.JObj? && Printable(j) && Decode(j) == Some(d) && Valid(d)
    ensures TypeFromTerraform(Print(j)) == Some(Print(j)) && ToTerraform(Print(j)) == Print(j)
    ensures Print(j) != "" && ParseText(Print(j)) == Some(j)
  {
    hide Decode, Valid, ParseText, Printable;
    PrintRoundTrip(j);
    ObjectTrimmed(j);
  }

  lemma SameDocument(m: Member, n: Member)
    requires m.key != n.key
    ensures Meaning(JObj([m, n])) == Meaning(JObj([n, m]))
  {
    MembersMean(m, n);
    MembersMean(n, m);
  }

  lemma MembersMean(m: Member, n: Member)
    ensures MeaningOfMembers([m, n]) == map[][m.key := Meaning(m.value)][n.key := Meaning(n.value)]
  {
    hide Meaning;
    assert [m, n][..1] == [m] && [m][..0] == [];
    assert MeaningOfMembers([m]) == map[][m.key := Meaning(m.value)];
  }

  lemma ExternalDecodes(m: Member, n: Member)
    requires {m, n} == {Member("catalogString", JStr("x")), Member("type", JStr("external"))} && m != n
    ensures Decode(JObj([m, n])) == Some(Plain("external").(catalogString := "x"))
  {
    hide Index, DecodeFields, DecodeTypes;
    IndexPair(m, n);
    DecodeMembers([m, n], Plain("external").(catalogString := "x"));
  }

  lemma ExternalIsValid()
    ensures Valid(Plain("external").(catalogString := "x"))
  {
    NotBlank("external");
    NotBlank("x");
  }

  lemma DifferentTexts()
    ensures Print(CATALOG_FIRST) != Print(TYPE_FIRST)
  {
    hide Print, ParseText, Printable;
    BothPrintable();
    PrintRoundTrip(CATALOG_FIRST);
    PrintRoundTrip(TYPE_FIRST);
    assert CATALOG_FIRST.members[0] != TYPE_FIRST.members[0];
  }

  lemma BothPrintable()
    ensures Printable(CATALOG_FIRST) && Printable(TYPE_FIRST)
  {
  }

  lemma Texts()
    ensures var a, b := Print(CATALOG_FIRST), Print(TYPE_FIRST);
            && a != b && b != "" && RawEqual(b, a)
            && TypeFromTerraform(a) == Some(a) && ToTerraform(a) == a
            && TypeFromTerraform(b) == Some(b) && ToTerraform(b) == b
  {
    hide Decode, Valid, TypeFromTerraform, ToTerraform, Meaning;
    var c, t := Member("catalogString", JStr("x")), Member("type", JStr("external"));
    hide Print, Printable, ParseText;
    BothPrintable();
    DifferentTexts();
    ExternalIsValid();
    ExternalDecodes(c, t);
    ExternalDecodes(t, c);
    ObjectText(CATALOG_FIRST, Plain("external").(catalogString := "x"));
    ObjectText(TYPE_FIRST, Plain("external").(catalogString := "x"));
    SameDocument(t, c);
  }

  lemma PrintedDocument(j: Json)
    requires Printable(j)
    ensures Print(j) != "" && ParseText(Print(j)) == Some(j)
  {
    hide Print, Printable;
    PrintRoundTrip(j);
    assert ParseText("").None?;
  }

  // ----- One parameter -----

  function OneParam(name: string, typ: string): Definition {
    Definition([Param(name, typ, "", "")], "", [], [])
  }

  lemma OneParamSignature(name: string, typ: string)
    ensures Signature(OneParam(name, typ)) == name + ":" + ToTerraform(typ)
  {
    hide ToTerraform;
  }

  /** A type name, and what the provider makes of it. */
  lemma NameTexts(t: string)
    requires t == "x" || t == "x "
    ensures ToTerraform(Quote(t, true)) == t
    ensures TypeFromTerraform(t) == Some(Quote("x", true))
  {
    hide Quote, ParseText, Parse;
    QuoteText(t, true);
    QuoteNotEmpty(t);
    XTrimmed(t);
    XIsName();
  }

  lemma XIsName()
    ensures DataTypes.Parse("x").Some? && EncodeExpression("x") == Some(Quote("x", true))
  {
    hide Quote, ParseText, Decode;
    XTrimmed("x");
    assert NameLen("x") == 1;
    assert IsPrimitive("x") && !IsStructured("x");
  }

  lemma XTrimmed(t: string)
    requires t == "x" || t == "x "
    ensures Trim(t) == "x"
  {
    TrimFacts("x");
    assert "x "[..1] == "x";
    assert TrimLeft(t) == t;
  }

  lemma OneRead(o: TFDefinition, d: Definition)
    requires ReadDefinition(o) == Some(d)
    ensures ReadDefinitions([o]) == Some([d])
  {
    hide ReadDefinition;
    assert [o][1..] == [] && [d] + [] == [d];
  }

  lemma TwoRead(o: TFDefinition, u: TFDefinition, d: Definition, e: Definition)
    requires ReadDefinition(o) == Some(d) && ReadDefinition(u) == Some(e)
    ensures ReadDefinitions([o, u]) == Some([d, e])
  {
    hide ReadDefinition;
    OneRead(u, e);
    assert [o, u][1..] == [u] && [d] + [e] == [d, e];
  }

  /** A Terraform definition of one parameter. */
  function TFOneParam(name: string, typ: string, comment: Option<string>): TFDefinition {
    TFDefinition(Some([TFParam(name, typ, comment, None)]), None, None, None)
  }

  lemma ReadOneParam(name: string, typ: string, comment: Option<string>, raw: string)
    requires TypeFromTerraform(typ) == Some(raw) && Text(comment) == ""
    ensures ReadDefinition(TFOneParam(name, typ, comment)) == Some(OneParam(name, raw))
  {
    hide TypeFromTerraform;
    var list := [TFParam(name, typ, comment, None)];
    assert list[1..] == [];
    assert [Param(name, raw, "", "")] + [] == [Param(name, raw, "", "")];
    assert ReadParams(list) == Some([Param(name, raw, "", "")]);
  }

  lemma ShowOneParam(name: string, raw: string)
    ensures ToObject(OneParam(name, raw), None, FromServer) == TFOneParam(name, ToTerraform(raw), None)
  {
    hide ToTerraform;
    var o := ToObject(OneParam(name, raw), None, FromServer);
    assert Items(o.parameters) == [TFParam(name, ToTerraform(raw), None, None)];
  }
}
