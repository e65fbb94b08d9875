/** Refreshing twice against the same answer changes nothing the second time. */
module ReconcileStable {
  import opened Common
  import opened Json
  import opened JsonLocality
  import opened RawJson
  import opened Functions
  import opened Reconcile
  import opened ReconcileImpls
  import opened ReconcileRepeats
  import opened ReconcileSpelling
  import opened TerraformFunctions

  // ----- One value -----

  /** Reading back a shown optional value and refreshing again shows the same. */
  lemma OptionalStable(previous: string, raw: string, next: string)
    requires OptionalEncoded(previous)
    requires ReadOptional(ShowOptional(PreferRaw(previous, raw))) == Some(next)
    ensures ShowOptional(PreferRaw(next, raw)) == ShowOptional(PreferRaw(previous, raw))
  {
    var chosen := PreferRaw(previous, raw);
    if chosen != "" && ToTerraform(chosen) == "" {
      EmptyShown(previous, raw);
    } else if chosen != "" {
      PreferStable(previous, raw, next);
    }
  }

  /** Only an empty string, null or nothing at all is shown as the empty string. */
  lemma EmptyShown(previous: string, raw: string)
    requires PreferRaw(previous, raw) != "" && ToTerraform(PreferRaw(previous, raw)) == ""
    ensures ToTerraform(raw) == ""
  {
    var chosen := PreferRaw(previous, raw);
    if chosen != raw {
      var x, y := ChosenMeaning(previous, raw);
      if !x.JStr? && !x.JNull? {
        TextNotBlank(chosen);
      }
    }
  }

  lemma TextNotBlank(s: string)
    requires ParseText(s).Some?
    ensures Trim(s) != ""
  {
    if Trim(s) == "" {
      TrimmedAway(s);
      BlankIsNoValue(s);
    }
  }

  lemma TrimmedAway(s: string)
    requires Trim(s) == ""
    ensures forall i :: 0 <= i < |s| ==> IsSpace(s[i])
  {
    var k := TrimLeftFacts(s);
    TrimRightFacts(TrimLeft(s));
    assert k == |s|;
  }

  lemma {:induction false} SkipWsSuffix(s: string)
    ensures SkipWs(s) == "" || (SkipWs(s)[0] in s && !IsWs(SkipWs(s)[0]))
  {
    if s != "" && IsWs(s[0]) {
      SkipWsSuffix(s[1..]);
    }
  }

  lemma SpaceIsNoValue(t: string)
    requires t != "" && IsSpace(t[0]) && !IsWs(t[0])
    ensures ParseValue(t).Fail?
  {
    assert !NumChar(t[0]) && NumLen(t) == 0 && t[..0] == "";
    assert !("true" <= t) && !("false" <= t) && !("null" <= t);
  }

  lemma BlankIsNoValue(s: string)
    requires forall i :: 0 <= i < |s| ==> IsSpace(s[i])
    ensures ParseValue(s).Fail?
  {
    SkipWsSuffix(s);
    SkipWsTwice(s);
    if SkipWs(s) != "" {
      SpaceIsNoValue(SkipWs(s));
    }
  }

  // ----- The last value of a name -----

  /** The value a definition is shown from: the server's, or the previous one if that is preferred anyway. */
  predicate Stands(p: string, s: string, e: string) {
    e == s || (e == p && PreferRaw(p, s) == p)
  }

  lemma StandingPreferred(p: string, s: string, e: string)
    requires Stands(p, s, e)
    ensures PreferRaw(p, e) == PreferRaw(p, s)
  {
    hide RawEqual;
  }

  /** Reading back a shown type and refreshing again shows the same, also when the previous value stands for
      the server's in the one refresh or in the other. */
  lemma TypeStable(p: string, s: string, e: string, next: string, e': string)
    requires p == "" || Encoded(p)
    requires Stands(p, s, e) && Stands(next, s, e')
    requires TypeFromTerraform(ToTerraform(PreferRaw(p, e))) == Some(next)
    ensures ToTerraform(PreferRaw(next, e')) == ToTerraform(PreferRaw(p, e))
  {
    StandingPreferred(p, s, e);
    StandingPreferred(next, s, e');
    ReadEncodes(ToTerraform(PreferRaw(p, s)));
    PreferStable(p, s, next);
  }

  lemma DefaultStable(p: string, s: string, e: string, next: string, e': string)
    requires OptionalEncoded(p)
    requires Stands(p, s, e) && Stands(next, s, e')
    requires ReadOptional(ShowOptional(PreferRaw(p, e))) == Some(next)
    ensures ShowOptional(PreferRaw(next, e')) == ShowOptional(PreferRaw(p, e))
  {
    StandingPreferred(p, s, e);
    StandingPreferred(next, s, e');
    OptionalStable(p, s, next);
  }

  // ----- Parameters and columns -----

  /** The parameters a definition is shown from: the server's, or the previous ones, equal on the wire. */
  ghost predicate ParamsStand(q: seq<Param>, s: seq<Param>, e: seq<Param>) {
    e == s ||
    (e == q && |q| == |s| && forall k :: 0 <= k < |s| ==>
       q[k].name == s[k].name && q[k].comment == s[k].comment &&
       PreferRaw(q[k].dataType, s[k].dataType) == q[k].dataType &&
       PreferRaw(q[k].defaultValue, s[k].defaultValue) == q[k].defaultValue)
  }

  ghost predicate ColumnsStand(q: seq<Column>, s: seq<Column>, e: seq<Column>) {
    e == s ||
    (e == q && |q| == |s| && forall k :: 0 <= k < |s| ==>
       q[k].name == s[k].name && q[k].comment == s[k].comment &&
       PreferRaw(q[k].dataType, s[k].dataType) == q[k].dataType)
  }

  ghost predicate ParamsEncoded(ps: seq<Param>) {
    forall k :: 0 <= k < |ps| ==> Encoded(ps[k].dataType) && OptionalEncoded(ps[k].defaultValue)
  }

  ghost predicate ColumnsEncoded(cs: seq<Column>) {
    forall k :: 0 <= k < |cs| ==> Encoded(cs[k].dataType)
  }

  /** The previous parameter of a name; an empty one if there is none. */
  function PriorParam(q: seq<Param>, name: string): Param {
    var m := ParamsByName(q);
    if name in m then m[name] else Param(name, "", "", "")
  }

  function PriorColumn(q: seq<Column>, name: string): Column {
    var m := ColumnsByName(q);
    if name in m then m[name] else Column(name, "", "")
  }

  lemma ShowsPrior(e: Param, q: seq<Param>)
    ensures var p := PriorParam(q, e.name);
            ShowParam(e, ParamsByName(q)) ==
            TFParam(e.name, ToTerraform(PreferRaw(p.dataType, e.dataType)), TextOrNull(e.comment),
                    ShowOptional(PreferRaw(p.defaultValue, e.defaultValue)))
  {
    hide RawEqual, ToTerraform, ShowOptional;
  }

  lemma ShowsPriorColumn(e: Column, q: seq<Column>)
    ensures var p := PriorColumn(q, e.name);
            ShowColumn(e, ColumnsByName(q)) ==
            TFColumn(e.name, ToTerraform(PreferRaw(p.dataType, e.dataType)), TextOrNull(e.comment))
  {
    hide RawEqual, ToTerraform;
  }

  lemma PriorEncoded(q: seq<Param>, name: string)
    requires ParamsEncoded(q)
    ensures var p := PriorParam(q, name); (p.dataType == "" || Encoded(p.dataType)) && OptionalEncoded(p.defaultValue)
  {
    hide Encoded;
    ParamsOf(q);
  }

  lemma PriorColumnEncoded(q: seq<Column>, name: string)
    requires ColumnsEncoded(q)
    ensures var p := PriorColumn(q, name); p.dataType == "" || Encoded(p.dataType)
  {
    hide Encoded;
    ColumnsOf(q);
  }

  /** The last parameter of a name shows in the second refresh what it showed in the first. */
  lemma {:induction false} LastParamStable(q: seq<Param>, s: seq<Param>, e: seq<Param>, n: seq<Param>, e': seq<Param>,
                                           k: nat)
    requires ParamsEncoded(q) && ParamsStand(q, s, e) && ParamsStand(n, s, e')
    requires ReadParams(ShowParams(e, ParamsByName(q))) == Some(n) && LastParam(n, k)
    ensures |e'| == |n| && ParamShown(n[k], e'[k], ShowParams(e, ParamsByName(q))[k])
  {
    hide RawEqual, PreferRaw, ToTerraform, ShowOptional, TypeFromTerraform, ReadOptional, Encoded, OptionalEncoded,
      ReadParams;
    var o := ShowParams(e, ParamsByName(q));
    ShowsPrior(e[k], q);
    var p := PriorParam(q, e[k].name);
    PriorEncoded(q, e[k].name);
    assert forall j :: 0 <= j < |n| ==> n[j].name == e[j].name;
    PriorStands(q, s, e, k);
    NextStands(n, s, e', k);
    TypeStable(p.dataType, s[k].dataType, e[k].dataType, n[k].dataType, e'[k].dataType);
    DefaultStable(p.defaultValue, s[k].defaultValue, e[k].defaultValue, n[k].defaultValue, e'[k].defaultValue);
  }

  lemma {:induction false} PriorStands(q: seq<Param>, s: seq<Param>, e: seq<Param>, k: nat)
    requires ParamsStand(q, s, e) && LastParam(e, k)
    ensures |s| == |e|
    ensures var p := PriorParam(q, e[k].name);
            Stands(p.dataType, s[k].dataType, e[k].dataType) &&
            Stands(p.defaultValue, s[k].defaultValue, e[k].defaultValue)
  {
    hide PreferRaw;
    if e != s {
      ParamFound(q, k);
    }
  }

  lemma {:induction false} NextStands(n: seq<Param>, s: seq<Param>, e: seq<Param>, k: nat)
    requires ParamsStand(n, s, e) && k < |s|
    ensures |s| == |e|
    ensures k < |n| ==>
              Stands(n[k].dataType, s[k].dataType, e[k].dataType) &&
              Stands(n[k].defaultValue, s[k].defaultValue, e[k].defaultValue)
  {
    hide PreferRaw;
  }

  lemma {:induction false} LastColumnStable(q: seq<Column>, s: seq<Column>, e: seq<Column>, n: seq<Column>,
                                            e': seq<Column>,
                                            k: nat)
    requires ColumnsEncoded(q) && ColumnsStand(q, s, e) && ColumnsStand(n, s, e')
    requires ReadColumns(ShowColumns(e, ColumnsByName(q))) == Some(n) && LastColumn(n, k)
    ensures |e'| == |n| && ColumnShown(n[k], e'[k], ShowColumns(e, ColumnsByName(q))[k])
  {
    hide RawEqual, PreferRaw, ToTerraform, TypeFromTerraform, Encoded, ReadColumns;
    var o := ShowColumns(e, ColumnsByName(q));
    ShowsPriorColumn(e[k], q);
    var p := PriorColumn(q, e[k].name);
    PriorColumnEncoded(q, e[k].name);
    assert forall j :: 0 <= j < |n| ==> n[j].name == e[j].name;
    PriorColumnStands(q, s, e, k);
    NextColumnStands(n, s, e', k);
    TypeStable(p.dataType, s[k].dataType, e[k].dataType, n[k].dataType, e'[k].dataType);
  }

  lemma {:induction false} PriorColumnStands(q: seq<Column>, s: seq<Column>, e: seq<Column>, k: nat)
    requires ColumnsStand(q, s, e) && LastColumn(e, k)
    ensures |s| == |e| && Stands(PriorColumn(q, e[k].name).dataType, s[k].dataType, e[k].dataType)
  {
    hide PreferRaw;
    if e != s {
      ColumnFound(q, k);
    }
  }

  lemma {:induction false} NextColumnStands(n: seq<Column>, s: seq<Column>, e: seq<Column>, k: nat)
    requires ColumnsStand(n, s, e) && k < |s|
    ensures |s| == |e| && (k < |n| ==> Stands(n[k].dataType, s[k].dataType, e[k].dataType))
  {
    hide PreferRaw;
  }

  /** Refreshed parameters stay as they are exactly when those that are not the last of their name do. */
  lemma {:induction false} ParamsStableExactly(q: seq<Param>, s: seq<Param>, e: seq<Param>, n: seq<Param>,
                                               e': seq<Param>)
    requires ParamsEncoded(q) && ParamsStand(q, s, e) && ParamsStand(n, s, e')
    requires ReadParams(ShowParams(e, ParamsByName(q))) == Some(n)
    ensures var o := ShowParams(e, ParamsByName(q));
            |n| == |e'| == |o| && (ShowParams(e', ParamsByName(n)) == o <==> ParamsKept(n, e', o))
  {
    hide PreferRaw, ShowParam, ReadParams, ParamShown, ParamsKept, LastParam, ParamsEncoded;
    var o := ShowParams(e, ParamsByName(q));
    SameNames(q, s, e, n, e');
    ParamsShownExactly(n, e', o);
    forall k | 0 <= k < |n| && LastParam(n, k) ensures ParamShown(n[k], e'[k], o[k]) {
      LastParamStable(q, s, e, n, e', k);
    }
  }

  lemma {:induction false} SameNames(q: seq<Param>, s: seq<Param>, e: seq<Param>, n: seq<Param>, e': seq<Param>)
    requires ParamsStand(q, s, e) && ParamsStand(n, s, e')
    requires ReadParams(ShowParams(e, ParamsByName(q))) == Some(n)
    ensures var o := ShowParams(e, ParamsByName(q));
            |n| == |e'| == |o| &&
            forall k :: 0 <= k < |n| ==>
                e'[k].name == n[k].name == o[k].name && o[k].comment == TextOrNull(e'[k].comment)
  {
    hide PreferRaw, ToTerraform, ShowOptional, TypeFromTerraform, ReadOptional, ReadParams;
  }

  lemma {:induction false} ColumnsStableExactly(q: seq<Column>, s: seq<Column>, e: seq<Column>, n: seq<Column>,
                                                e': seq<Column>)
    requires ColumnsEncoded(q) && ColumnsStand(q, s, e) && ColumnsStand(n, s, e')
    requires ReadColumns(ShowColumns(e, ColumnsByName(q))) == Some(n)
    ensures var o := ShowColumns(e, ColumnsByName(q));
            |n| == |e'| == |o| && (ShowColumns(e', ColumnsByName(n)) == o <==> ColumnsKept(n, e', o))
  {
    hide PreferRaw, ShowColumn, ReadColumns, ColumnShown, ColumnsKept, LastColumn, ColumnsEncoded;
    var o := ShowColumns(e, ColumnsByName(q));
    SameColumnNames(q, s, e, n, e');
    ColumnsShownExactly(n, e', o);
    forall k | 0 <= k < |n| && LastColumn(n, k) ensures ColumnShown(n[k], e'[k], o[k]) {
      LastColumnStable(q, s, e, n, e', k);
    }
  }

  lemma {:induction false} SameColumnNames(q: seq<Column>, s: seq<Column>, e: seq<Column>, n: seq<Column>,
                                           e': seq<Column>)
    requires ColumnsStand(q, s, e) && ColumnsStand(n, s, e')
    requires ReadColumns(ShowColumns(e, ColumnsByName(q))) == Some(n)
    ensures var o := ShowColumns(e, ColumnsByName(q));
            |n| == |e'| == |o| &&
            forall k :: 0 <= k < |n| ==>
                e'[k].name == n[k].name == o[k].name && o[k].comment == TextOrNull(e'[k].comment)
  {
    hide PreferRaw, ToTerraform, TypeFromTerraform, ReadColumns;
  }

  // ----- One definition -----

  function Empty(): Definition {
    Definition([], "", [], [])
  }

  lemma ReturnStable(p: string, s: string, e: string, next: string, e': string)
    requires OptionalEncoded(p) && (e == s || (e == p && PreferRaw(p, s) == p && (p == "" <==> s == "")))
    requires e' == s || (e' == next && PreferRaw(next, s) == next && (next == "" <==> s == ""))
    requires ReadOptionalType(ShowOptional(if e != "" then PreferRaw(p, e) else "")) == Some(next)
    ensures ShowOptional(if e' != "" then PreferRaw(next, e') else "") ==
            ShowOptional(if e != "" then PreferRaw(p, e) else "")
  {
    if s != "" {
      ReadOptionalEncodes(ShowOptional(PreferRaw(p, e)));
      DefaultStable(p, s, e, next, e');
    }
  }

  /** What stands for a server definition after a definition of Terraform form. */
  lemma EffectiveStands(q: Definition, s: Definition)
    requires ReadForm(q)
    ensures var e := Effective(Some(q), s);
            && ParamsStand(q.parameters, s.parameters, e.parameters)
            && ColumnsStand(q.returnColumns, s.returnColumns, e.returnColumns)
            && (e.returnType == s.returnType ||
                (e.returnType == q.returnType && PreferRaw(q.returnType, s.returnType) == q.returnType &&
                 (q.returnType == "" <==> s.returnType == "")))
            && e.impls == s.impls
  {
    hide PreferRaw, WireRequired, WireOptional, Encoded, RawEqual;
    if WireEqual(q, s) {
      WireMembers(q, s);
      forall k | 0 <= k < |s.parameters|
        ensures PreferRaw(q.parameters[k].dataType, s.parameters[k].dataType) == q.parameters[k].dataType
        ensures PreferRaw(q.parameters[k].defaultValue, s.parameters[k].defaultValue) == q.parameters[k].defaultValue
      {
        WirePrefer(q.parameters[k].dataType, s.parameters[k].dataType);
        WirePrefer(q.parameters[k].defaultValue, s.parameters[k].defaultValue);
      }
      forall k | 0 <= k < |s.returnColumns|
        ensures PreferRaw(q.returnColumns[k].dataType, s.returnColumns[k].dataType) == q.returnColumns[k].dataType
      {
        WirePrefer(q.returnColumns[k].dataType, s.returnColumns[k].dataType);
      }
      WirePrefer(q.returnType, s.returnType);
      WireMeans(q.returnType, s.returnType);
    }
  }

  lemma NoneStands(s: Definition)
    ensures var e := Effective(None, s);
            && e == s && ParamsStand([], s.parameters, e.parameters) &&
               ColumnsStand([], s.returnColumns, e.returnColumns)
  {
  }

  lemma FormEncodes(q: Definition)
    requires ReadForm(q)
    ensures ParamsEncoded(q.parameters) && ColumnsEncoded(q.returnColumns) && OptionalEncoded(q.returnType)
  {
    hide Encoded, OptionalEncoded;
  }

  /** Showing a server definition, reading it back and showing the same server definition again gives what
      was shown first, if and only if the parameters and return columns that are not the last of their name
      keep their text. */
  lemma {:induction false} ObjectStableExactly(s: Definition, previous: Option<Definition>, next: Definition)
    requires UniqueRuntimes(s.impls)
    requires previous.Some? ==> ReadForm(previous.value)
    requires ReadDefinition(ToObject(Effective(previous, s), previous, FromServer)) == Some(next)
    ensures var e := Effective(Some(next), s);
            var o := ToObject(Effective(previous, s), previous, FromServer);
            ToObject(e, Some(next), FromServer) == o <==> RepeatsKept(next, e, o)
  {
    hide ReadParams, ReadColumns, ReadOptionalType, PreferRaw, ShowParams, ShowColumns, ShowOptional, ParamsStand,
      ColumnsStand, ParamsKept, ColumnsKept, WireEqual, OrderedImpls, ReadForm, CompleteImpl, ParamsEncoded,
      ColumnsEncoded, OptionalEncoded;
    var p := if previous.Some? then previous.value else Empty();
    var e, e' := Effective(previous, s), Effective(Some(next), s);
    var o := ToObject(e, previous, FromServer);
    ReadHasForm(o, next);
    ReadParts(o, next);
    EffectiveStands(next, s);
    if previous.Some? {
      EffectiveStands(p, s);
      FormEncodes(p);
    } else {
      NoneStands(s);
      EmptyEncodes();
    }
    FormUnique(p, previous);
    ParamsStableExactly(p.parameters, s.parameters, e.parameters, next.parameters, e'.parameters);
    ColumnsStableExactly(p.returnColumns, s.returnColumns, e.returnColumns, next.returnColumns, e'.returnColumns);
    ReturnStable(p.returnType, s.returnType, e.returnType, next.returnType, e'.returnType);
    RefreshImplsStable(s.impls, p.impls);
  }

  lemma EmptyEncodes()
    ensures ParamsEncoded([]) && ColumnsEncoded([]) && OptionalEncoded("")
  {
  }

  lemma FormUnique(p: Definition, previous: Option<Definition>)
    requires if previous.Some? then p == previous.value && ReadForm(p) else p == Empty()
    ensures UniqueRuntimes(p.impls)
  {
    hide Encoded;
  }
}
