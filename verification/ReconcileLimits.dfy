/** Where the merge drifts: repeated names whose types the server spells differently, and a type name with
    blank space around it. */
module ReconcileLimits {
  import opened Common
  import opened Json
  import opened JsonText
  import opened DataTypes
  import opened RawJson
  import opened Functions
  import opened FunctionUpdates
  import opened FunctionSamples
  import opened SignatureLaws
  import opened Reconcile
  import opened ReconcileApply
  import opened ReconcileShown
  import opened ReconcileSpelling
  import opened TerraformFunctions

  // ----- Two lists of one definition -----

  lemma FreshPicks(ds: seq<Definition>)
    ensures Picks(ds, [], FromServer) == ServerOnly(ds, {})
  {
    hide Signature, ServerOnly;
    assert ConvertedSignatures([], IndexDefinitions(ds), FromServer) == {};
    assert [] + ServerOnly(ds, {}) == ServerOnly(ds, {});
  }

  lemma OneFresh(s: Definition)
    ensures Mapped([s], [], FromServer) == [ToObject(s, None, FromServer)]
  {
    hide Signature, WireEqual, ToObject;
    assert [s][..0] == [];
    assert ServerOnly([s], {}) == [Pick(s, None)];
    FreshPicks([s]);
  }

  lemma OneIndexed(s: Definition)
    ensures IndexDefinitions([s]) == map[Signature(s) := s]
  {
    hide Signature;
    assert [s][..0] == [];
  }

  lemma OneKept(s: Definition, mode: Mode)
    ensures Mapped([s], [s], mode) == [ToObject(s, Some(s), mode)]
  {
    hide Signature, WireEqual, ToObject;
    OneIndexed(s);
    assert [s][..0] == [];
    assert Choose(s, IndexDefinitions([s]), mode) == [Pick(s, Some(s))];
    assert ChosenFromPrevious([s], IndexDefinitions([s]), mode) == [Pick(s, Some(s))];
    assert Signature(s) in ConvertedSignatures([s], IndexDefinitions([s]), mode);
    assert ServerOnly([s], ConvertedSignatures([s], IndexDefinitions([s]), mode)) == [];
    assert Picks([s], [s], mode) == [Pick(s, Some(s))];
  }

  // ----- Repeated return columns -----

  function RepeatedColumns(a: string, b: string): Definition {
    Definition([], "", [Column("c", a, ""), Column("c", b, "")], [])
  }

  lemma ReadColumnsRepeated(a: string, b: string)
    requires TypeFromTerraform(a) == Some(a) && ToTerraform(a) == a
    requires TypeFromTerraform(b) == Some(b) && ToTerraform(b) == b
    ensures var o := ToObject(RepeatedColumns(a, b), None, FromServer);
            Items(o.returnColumns) == [TFColumn("c", a, None), TFColumn("c", b, None)] &&
            ReadDefinition(o) == Some(RepeatedColumns(a, b))
  {
    hide TypeFromTerraform, ToTerraform;
    var o := ToObject(RepeatedColumns(a, b), None, FromServer);
    var last := [TFColumn("c", b, None)];
    assert last[1..] == [] && [Column("c", b, "")] + [] == [Column("c", b, "")];
    assert ReadColumns(last) == Some([Column("c", b, "")]);
    assert Items(o.returnColumns) == [TFColumn("c", a, None), TFColumn("c", b, None)];
    assert Items(o.returnColumns)[1..] == last;
    assert [Column("c", a, "")] + [Column("c", b, "")] == [Column("c", a, ""), Column("c", b, "")];
  }

  /** Two return columns of one name whose types mean the same: the spelling of the second wins, so a second
      refresh of the whole list changes the first column. */
  lemma RepeatedColumnsDrift() returns (s: Definition, next: seq<Definition>)
    ensures s.parameters == [] && |s.returnColumns| == 2 && s.returnColumns[0].name == s.returnColumns[1].name
    ensures ReadDefinitions(Mapped([s], [], FromServer)) == Some(next)
    ensures Mapped([s], next, FromServer) != Mapped([s], [], FromServer)
  {
    hide Print, ToTerraform, TypeFromTerraform, RawEqual, Printable, Mapped, ReadDefinition, ReadDefinitions;
    var a, b := Print(CATALOG_FIRST), Print(TYPE_FIRST);
    Texts();
    s := RepeatedColumns(a, b);
    next := [s];
    ReadColumnsRepeated(a, b);
    OneFresh(s);
    OneRead(ToObject(s, None, FromServer), s);
    OneKept(s, FromServer);
    assert ColumnsByName(s.returnColumns)["c"] == Column("c", b, "");
    assert Items(ToObject(s, Some(s), FromServer).returnColumns)[0] == TFColumn("c", b, None);
  }

  // ----- Repeated parameters -----

  function RepeatedParams(a: string, b: string): Definition {
    Definition([Param("p", a, "", ""), Param("p", b, "", "")], "", [], [])
  }

  lemma ReadParamsRepeated(a: string, b: string)
    requires TypeFromTerraform(a) == Some(a) && ToTerraform(a) == a
    requires TypeFromTerraform(b) == Some(b) && ToTerraform(b) == b
    ensures var o := ToObject(RepeatedParams(a, b), None, FromServer);
            Items(o.parameters) == [TFParam("p", a, None, None), TFParam("p", b, None, None)] &&
            ReadDefinition(o) == Some(RepeatedParams(a, b))
  {
    hide TypeFromTerraform, ToTerraform;
    var o := ToObject(RepeatedParams(a, b), None, FromServer);
    var last := [TFParam("p", b, None, None)];
    assert last[1..] == [] && [Param("p", b, "", "")] + [] == [Param("p", b, "", "")];
    assert ReadParams(last) == Some([Param("p", b, "", "")]);
    assert Items(o.parameters) == [TFParam("p", a, None, None), TFParam("p", b, None, None)];
    assert Items(o.parameters)[1..] == last;
    assert [Param("p", a, "", "")] + [Param("p", b, "", "")] == [Param("p", a, "", ""), Param("p", b, "", "")];
  }

  lemma ShownRepeated(a: string, b: string, mode: Mode)
    requires b != "" && RawEqual(b, a) && ToTerraform(b) == b && ToTerraform(a) == a && a != b
    ensures var d := RepeatedParams(a, b);
            Items(ToObject(d, Some(d), mode).parameters)[0].dataType == b && !NamesKeep(d.parameters, d.parameters)
  {
    hide ToTerraform, RawEqual;
    var d := RepeatedParams(a, b);
    assert ParamsByName(d.parameters)["p"] == Param("p", b, "", "");
    assert d.parameters[0].name == "p" && d.parameters[0].dataType == a;
  }

  /** Two parameters of one name whose types mean the same: even when the server echoes the definition, an
      apply shows a type that was not planned and a signature that was not planned, and a second refresh
      differs from the first. */
  lemma RepeatedParamsDrift() returns (d: Definition)
    ensures var out := Mapped([d], [d], FromPlan);
            |out| == 1 && |Items(out[0].parameters)| == |d.parameters| == 2 &&
            d.parameters[0].name == d.parameters[1].name &&
            Items(out[0].parameters)[0].dataType != ToTerraform(d.parameters[0].dataType) &&
            ShownSignature(out[0]) != Signature(d)
    ensures ReadDefinitions(Mapped([d], [], FromServer)) == Some([d])
    ensures Mapped([d], [d], FromServer) != Mapped([d], [], FromServer)
  {
    hide Print, ToTerraform, TypeFromTerraform, RawEqual, Printable, Mapped, ReadDefinition, ReadDefinitions, TypeText,
      ShownSignature, NamesKeep, Signature;
    var a, b := Print(CATALOG_FIRST), Print(TYPE_FIRST);
    Texts();
    d := RepeatedParams(a, b);
    ShownRepeated(a, b, FromPlan);
    ShownRepeated(a, b, FromServer);
    OneKept(d, FromPlan);
    OneKept(d, FromServer);
    OneFresh(d);
    ReadParamsRepeated(a, b);
    OneRead(ToObject(d, None, FromServer), d);
    AcceptedTypeText(a, a);
    AcceptedTypeText(b, b);
    ShownSignatureExactly(d, Some(d), FromPlan);
  }

  // ----- Blank space around a type name -----

  lemma TwoServerOnly(s: Definition, t: Definition)
    requires Signature(s) != Signature(t)
    ensures ServerOnly([s, t], {}) == [Pick(s, None), Pick(t, None)]
  {
    hide Signature;
    assert [s, t][..1] == [s] && [s][..0] == [];
    assert ServerOnly([s], {}) == [Pick(s, None)];
    assert Signatures([s]) == {Signature(s)};
  }

  lemma TwoFresh(s: Definition, t: Definition)
    requires Signature(s) != Signature(t)
    ensures Mapped([s, t], [], FromServer) == [ToObject(s, None, FromServer), ToObject(t, None, FromServer)]
  {
    hide Signature, ToObject, ServerOnly, Picks;
    TwoServerOnly(s, t);
    FreshPicks([s, t]);
  }

  /** A type name with a blank behind it reads back without it, so the definition is not found again: the
      second refresh moves it behind the others. */
  lemma TrailingBlankDrift() returns (definitions: seq<Definition>, next: seq<Definition>)
    ensures forall d :: d in definitions ==> DistinctNames(d) && TypesReadable(d)
    ensures ReadDefinitions(Mapped(definitions, [], FromServer)) == Some(next)
    ensures Mapped(definitions, next, FromServer) != Mapped(definitions, [], FromServer)
  {
    hide Mapped, ReadDefinition, ReadDefinitions, TypeText, Signature, ToTerraform, TypeFromTerraform, Quote, ToObject;
    var s, t, n := OneParam("a", Quote("x ", true)), OneParam("b", Quote("x", true)), OneParam("a", Quote("x", true));
    definitions, next := [s, t], [n, t];
    NameTexts("x ");
    NameTexts("x");
    XReadable();
    OneParamSignature("a", Quote("x ", true));
    OneParamSignature("b", Quote("x", true));
    OneParamSignature("a", Quote("x", true));
    assert Signature(s) == "a:x " && Signature(t) == "b:x" && Signature(n) == "a:x";
    TwoFresh(s, t);
    ShowOneParam("a", Quote("x ", true));
    ShowOneParam("b", Quote("x", true));
    ReadOneParam("a", "x ", None, Quote("x", true));
    ReadOneParam("b", "x", None, Quote("x", true));
    TwoRead(ToObject(s, None, FromServer), ToObject(t, None, FromServer), n, t);
    MovedBehind(s, t, n);
  }

  lemma XReadable()
    ensures TypeText("x") && TypeText("x ")
  {
    assert NameLen("x") == 1;
    assert "x "[1..][0] == ' ' && NameLen("x "[1..]) == 1 && NameLen("x ") == 2;
  }

  /** A definition whose entry reads back to an unknown signature comes behind one that is found again. */
  lemma MovedBehind(s: Definition, t: Definition, n: Definition)
    requires Signature(s) == "a:x " && Signature(t) == "b:x" && Signature(n) == "a:x"
    requires s.parameters != [] && t.parameters != [] && s.parameters[0].name != t.parameters[0].name
    ensures Mapped([s, t], [n, t], FromServer) != [ToObject(s, None, FromServer), ToObject(t, None, FromServer)]
  {
    hide Signature, WireEqual, ShowParam;
    var server := IndexDefinitions([s, t]);
    TwoIndexed(s, t);
    assert [n, t][..1] == [n] && [n][..0] == [];
    var p := Pick(Effective(Some(t), t), Some(t));
    assert Choose(n, server, FromServer) == [] && Choose(t, server, FromServer) == [p];
    assert ChosenFromPrevious([n], server, FromServer) == [];
    assert ChosenFromPrevious([n, t], server, FromServer) == [p];
    assert Picks([s, t], [n, t], FromServer)[0] == p;
    assert p.definition == t;
    ShownFirst(s, None);
    ShownFirst(t, Some(t));
  }

  lemma TwoIndexed(s: Definition, t: Definition)
    requires Signature(s) != Signature(t)
    ensures IndexDefinitions([s, t]) == map[Signature(s) := s, Signature(t) := t]
  {
    hide Signature;
    OneIndexed(s);
    assert [s, t][..1] == [s];
  }

  lemma ShownFirst(d: Definition, previous: Option<Definition>)
    requires d.parameters != []
    ensures var o := ToObject(d, previous, FromServer);
            Items(o.parameters) != [] && Items(o.parameters)[0].name == d.parameters[0].name
  {
    hide PreferRaw, ToTerraform, ShowOptional;
  }

  // ----- Empty comments -----

  /** A parameter with an empty comment: the plan is accepted, and no answer makes an apply return it. Without
      the comment the plan reads the same and is returned when the server echoes it. */
  lemma EmptyCommentLost() returns (tf: TFDefinition, planned: Definition)
    ensures ReadDefinitions([tf]) == Some([planned])
    ensures tf == TFOneParam("a", "x", Some(""))
    ensures forall definitions :: Mapped(definitions, [planned], FromPlan) != [tf]
    ensures ReadDefinitions([TFOneParam("a", "x", None)]) == Some([planned])
    ensures Mapped([planned], [planned], FromPlan) == [TFOneParam("a", "x", None)]
  {
    hide Mapped, ReadDefinition, ReadDefinitions, TypeFromTerraform, ToTerraform, Quote, ToObject, NothingEmpty;
    tf, planned := TFOneParam("a", "x", Some("")), OneParam("a", Quote("x", true));
    NameTexts("x");
    ReadOneParam("a", "x", Some(""), Quote("x", true));
    ReadOneParam("a", "x", None, Quote("x", true));
    OneRead(tf, planned);
    OneRead(TFOneParam("a", "x", None), planned);
    CommentIsEmpty(tf);
    forall definitions ensures Mapped(definitions, [planned], FromPlan) != [tf] {
      EmptyNeverReturned(definitions, [planned], 0);
    }
    OneKept(planned, FromPlan);
    EchoShown("a", Quote("x", true));
  }

  lemma CommentIsEmpty(tf: TFDefinition)
    requires tf == TFOneParam("a", "x", Some(""))
    ensures !NothingEmpty(tf)
  {
    assert Items(tf.parameters)[0].comment == Some("");
  }

  lemma EchoShown(name: string, raw: string)
    ensures ToObject(OneParam(name, raw), Some(OneParam(name, raw)), FromPlan) ==
            TFOneParam(name, ToTerraform(raw), None)
  {
    hide ToTerraform, RawEqual;
    var p := OneParam(name, raw);
    assert p.parameters[..0] == [];
    assert ParamsByName(p.parameters) == map[name := p.parameters[0]];
    assert ShowParams(p.parameters, ParamsByName(p.parameters)) == [TFParam(name, ToTerraform(raw), None, None)];
  }
}
