/** The signatures a merge shows: which definitions stand in its result, and in which order. */
module ReconcileShown {
  import opened Common
  import opened RawJson
  import opened Functions
  import opened FunctionUpdates
  import opened SignatureLaws
  import opened Reconcile
  import opened ReconcileLaws
  import opened ReconcilePicks
  import opened ReconcileRepeats
  import opened ReconcileSpelling
  import opened TerraformFunctions

  // ----- The signature in the shown text -----

  function SpellShown(ps: seq<TFParam>): (r: seq<Spelled>)
    ensures |r| == |ps| && forall i :: 0 <= i < |r| ==> r[i] == Spelled(ps[i].name, ps[i].dataType)
  {
    seq(|ps|, i requires 0 <= i < |ps| => Spelled(ps[i].name, ps[i].dataType))
  }

  /** The signature of a shown definition: the names and the type texts of its parameters. */
  function ShownSignature(o: TFDefinition): string {
    Join(SpellShown(Items(o.parameters)))
  }

  function ShownKeys(out: seq<TFDefinition>): (r: seq<string>)
    ensures |r| == |out| && forall i :: 0 <= i < |r| ==> r[i] == ShownSignature(out[i])
  {
    seq(|out|, i requires 0 <= i < |out| => ShownSignature(out[i]))
  }

  /** Every parameter type is one the provider accepts. */
  predicate TypesReadable(d: Definition) {
    forall k :: 0 <= k < |d.parameters| ==> TypeText(ToTerraform(d.parameters[k].dataType))
  }

  /** Between lists of the same names the signature determines the types, whatever the names hold. */
  lemma {:induction false} SameNamesDecode(a: seq<Spelled>, b: seq<Spelled>)
    requires |a| == |b| && forall k :: 0 <= k < |a| ==> a[k].name == b[k].name
    requires forall k :: 0 <= k < |a| ==> TypeText(a[k].typ) && TypeText(b[k].typ)
    requires Join(a) == Join(b)
    ensures a == b
  {
    hide TypeText;
    if a != [] {
      FirstType(a[0].name, a[0].typ, JoinTail(a), b[0].typ, JoinTail(b));
      if |a| > 1 {
        assert JoinTail(a)[1..] == Join(a[1..]) && JoinTail(b)[1..] == Join(b[1..]);
        SameNamesDecode(a[1..], b[1..]);
      }
      assert a == [a[0]] + a[1..] && b == [b[0]] + b[1..];
    }
  }

  lemma FirstType(name: string, t: string, x: string, u: string, y: string)
    requires TypeText(t) && TypeText(u) && Follows(x) && Follows(y)
    requires name + [':'] + (t + x) == name + [':'] + (u + y)
    ensures t == u && x == y
  {
    hide TypeText, TypeLen;
    assert (name + [':'] + (t + x))[|name| + 1..] == t + x;
    assert (name + [':'] + (u + y))[|name| + 1..] == u + y;
    TypeReadsBack(t, x);
    TypeReadsBack(u, y);
    assert (t + x)[..|t|] == t && (u + y)[..|u|] == u;
    assert (t + x)[|t|..] == x && (u + y)[|u|..] == y;
  }

  /** A parameter that is looked up by name and means the same is also spelled the same. */
  predicate NamesKeep(q: seq<Param>, e: seq<Param>) {
    var m := ParamsByName(q);
    forall k | 0 <= k < |e| ::
      e[k].name in m && RawEqual(m[e[k].name].dataType, e[k].dataType) ==>
        ToTerraform(m[e[k].name].dataType) == ToTerraform(e[k].dataType)
  }

  lemma ShownType(e: Param, m: map<string, Param>)
    ensures var t := ShowParam(e, m).dataType;
            && (t == ToTerraform(e.dataType) || (e.name in m && t == ToTerraform(m[e.name].dataType)))
            && (t == ToTerraform(e.dataType) <==>
                  (e.name in m && RawEqual(m[e.name].dataType, e.dataType) ==>
                     ToTerraform(m[e.name].dataType) == ToTerraform(e.dataType)))
  {
    hide RawEqual, ToTerraform, ShowOptional;
    if e.name in m {
      PreferByMeaning(m[e.name].dataType, e.dataType);
    }
  }

  /** The shown parameters spell the definition they are shown from exactly when names keep their types. */
  lemma {:induction false} ShownSpelling(e: Definition, previous: Option<Definition>, mode: Mode)
    ensures var q := if previous.Some? then previous.value.parameters else [];
            SpellShown(Items(ToObject(e, previous, mode).parameters)) == Spell(e.parameters) <==>
                NamesKeep(q, e.parameters)
  {
    hide ShowParam, ToTerraform, RawEqual, ShowOptional, ShowColumns, ShowImpls, OrderedImpls;
    var q := if previous.Some? then previous.value.parameters else [];
    var m := ParamsByName(q);
    var o := Items(ToObject(e, previous, mode).parameters);
    forall k | 0 <= k < |o|
      ensures SpellShown(o)[k] == Spell(e.parameters)[k] <==>
              (e.parameters[k].name in m && RawEqual(m[e.parameters[k].name].dataType, e.parameters[k].dataType) ==>
                 ToTerraform(m[e.parameters[k].name].dataType) == ToTerraform(e.parameters[k].dataType))
    {
      ShownType(e.parameters[k], m);
      ShownName(e.parameters[k], m);
    }
    SameItems(SpellShown(o), Spell(e.parameters));
  }

  lemma ShownName(e: Param, m: map<string, Param>)
    ensures ShowParam(e, m).name == e.name && ShowParam(e, m).comment == TextOrNull(e.comment)
  {
  }

  /** ... and for accepted types exactly then they show its signature. */
  lemma {:induction false} ShownSignatureExactly(e: Definition, previous: Option<Definition>, mode: Mode)
    ensures var q := if previous.Some? then previous.value.parameters else [];
            var o := ToObject(e, previous, mode);
            && (NamesKeep(q, e.parameters) ==> ShownSignature(o) == Signature(e))
            && (TypesReadable(e) && (previous.Some? ==> TypesReadable(previous.value)) &&
                ShownSignature(o) == Signature(e) ==>
                  NamesKeep(q, e.parameters))
  {
    hide NamesKeep, ToObject, Join, TypesReadable;
    var q := if previous.Some? then previous.value.parameters else [];
    var o := ToObject(e, previous, mode);
    ShownSpelling(e, previous, mode);
    SignatureJoins(e.parameters);
    if TypesReadable(e) && (previous.Some? ==> TypesReadable(previous.value)) && ShownSignature(o) == Signature(e) {
      ShownReadable(e, previous, mode);
      SameNamesDecode(SpellShown(Items(o.parameters)), Spell(e.parameters));
    }
  }

  lemma {:induction false} ShownReadable(e: Definition, previous: Option<Definition>, mode: Mode)
    requires TypesReadable(e) && (previous.Some? ==> TypesReadable(previous.value))
    ensures var a, b := SpellShown(Items(ToObject(e, previous, mode).parameters)), Spell(e.parameters);
            |a| == |b| && forall k :: 0 <= k < |a| ==>
                a[k].name == b[k].name && TypeText(a[k].typ) && TypeText(b[k].typ)
  {
    hide ShowParam, ToTerraform, RawEqual, ShowOptional, ShowColumns, ShowImpls, OrderedImpls, TypeText;
    var q := if previous.Some? then previous.value.parameters else [];
    var m := ParamsByName(q);
    ParamsOf(q);
    var o := Items(ToObject(e, previous, mode).parameters);
    forall k | 0 <= k < |o| ensures TypeText(o[k].dataType) && o[k].name == e.parameters[k].name {
      ShownType(e.parameters[k], m);
      ShownName(e.parameters[k], m);
    }
  }

  // ----- Apply -----

  /** Apply mode follows the plan: the result has one entry per planned definition, in the planned order, and
      an entry shows the planned signature if, and for accepted types only if, no parameter takes the
      spelling of another one of its name. */
  lemma ApplyFollowsPlan(definitions: seq<Definition>, planned: seq<Definition>, i: nat)
    requires i < |planned|
    ensures var out := Mapped(definitions, planned, FromPlan);
            var e := Planned(planned[i], IndexDefinitions(definitions));
            && |out| == |planned|
            && (NamesKeep(planned[i].parameters, e.parameters) ==> ShownSignature(out[i]) == Signature(planned[i]))
            && (TypesReadable(planned[i]) && TypesReadable(e) && ShownSignature(out[i]) == Signature(planned[i]) ==>
                  NamesKeep(planned[i].parameters, e.parameters))
  {
    hide NamesKeep, ToObject, Signature, TypesReadable, WireEqual, ShownSignature;
    ApplyShows(definitions, planned);
    IndexedKeys(definitions);
    var e := Planned(planned[i], IndexDefinitions(definitions));
    assert Signature(e) == Signature(planned[i]);
    ShownSignatureExactly(e, Some(planned[i]), FromPlan);
  }

  /** Parameters of distinct, colon-free names and accepted types keep their names and texts, for every
      server that answers with such names and types. */
  lemma ApplyShowsPlan(definitions: seq<Definition>, planned: seq<Definition>, i: nat)
    requires i < |planned| && Decodable(planned[i]) && DistinctParams(planned[i].parameters)
    requires forall d :: d in definitions ==> Decodable(d)
    ensures var out := Mapped(definitions, planned, FromPlan);
            |out| == |planned| && SpellShown(Items(out[i].parameters)) == Spell(planned[i].parameters)
  {
    hide NamesKeep, ToObject, Signature, Decodable, WireEqual, DistinctParams;
    ApplyShows(definitions, planned);
    IndexedKeys(definitions);
    var e := Planned(planned[i], IndexDefinitions(definitions));
    SameSpelling(planned[i], e);
    DistinctKeeps(planned[i], e);
    ShownSpelling(e, Some(planned[i]), FromPlan);
  }

  /** Colon-free names and accepted types: what a signature can be read back from. */
  predicate Decodable(d: Definition) {
    TypesReadable(d) && forall k :: 0 <= k < |d.parameters| ==> ':' !in d.parameters[k].name
  }

  lemma SameSpelling(p: Definition, q: Definition)
    requires Decodable(p) && Decodable(q) && Signature(p) == Signature(q)
    ensures Spell(p.parameters) == Spell(q.parameters)
  {
    hide TypeText, ToTerraform;
    SignatureDecodes(p.parameters, q.parameters);
  }

  /** Distinct names keep their types, between definitions of the same names and types. */
  lemma {:induction false} DistinctKeeps(q: Definition, e: Definition)
    requires DistinctParams(q.parameters) && Spell(q.parameters) == Spell(e.parameters)
    ensures NamesKeep(q.parameters, e.parameters)
  {
    hide RawEqual, ToTerraform, ParamsByName;
    var m := ParamsByName(q.parameters);
    forall k | 0 <= k < |e.parameters|
      ensures e.parameters[k].name in m &&
              ToTerraform(m[e.parameters[k].name].dataType) == ToTerraform(e.parameters[k].dataType)
    {
      assert Spell(q.parameters)[k] == Spell(e.parameters)[k];
      assert LastParam(q.parameters, k);
      ParamFound(q.parameters, k);
    }
  }

  // ----- Refresh -----

  /** No parameter of a definition the server still has takes the spelling of another one of its name. */
  predicate AllNamesKeep(definitions: seq<Definition>, previous: seq<Definition>) {
    var server := IndexDefinitions(definitions);
    forall d | d in previous && Signature(d) in server ::
      NamesKeep(d.parameters, Effective(Some(d), server[Signature(d)]).parameters)
  }

  lemma {:induction false} NothingKept(e: seq<Param>)
    ensures NamesKeep([], e)
  {
  }

  /** A refresh shows the signatures it picked exactly when names keep their types. */
  lemma {:induction false} RefreshShowsPicks(definitions: seq<Definition>, previous: seq<Definition>)
    ensures var shown := ShownKeys(Mapped(definitions, previous, FromServer));
            var keys := PickKeys(Picks(definitions, previous, FromServer));
            && (AllNamesKeep(definitions, previous) ==> shown == keys)
            && ((forall d :: d in definitions + previous ==> TypesReadable(d)) && shown == keys ==>
                  AllNamesKeep(definitions, previous))
  {
    hide NamesKeep, ToObject, Signature, TypesReadable, WireEqual, ShownSignature, Picks;
    var picks := Picks(definitions, previous, FromServer);
    var shown, keys := ShownKeys(Mapped(definitions, previous, FromServer)), PickKeys(picks);
    var server := IndexDefinitions(definitions);
    AllPicks(definitions, previous);
    IndexedKeys(definitions);
    if AllNamesKeep(definitions, previous) {
      forall i | 0 <= i < |picks| ensures shown[i] == keys[i] {
        assert picks[i] in picks;
        PickShowsKey(picks[i], server[Signature(picks[i].definition)], definitions, previous);
      }
    }
    if (forall d :: d in definitions + previous ==> TypesReadable(d)) && shown == keys {
      forall d | d in previous && Signature(d) in server
        ensures NamesKeep(d.parameters, Effective(Some(d), server[Signature(d)]).parameters)
      {
        KeptIsPicked(definitions, previous, d);
        var p := Pick(Effective(Some(d), server[Signature(d)]), Some(d));
        var i :| 0 <= i < |picks| && picks[i] == p;
        assert shown[i] == keys[i];
        ShownSignatureExactly(p.definition, p.previous, FromServer);
      }
    }
  }

  lemma PickShowsKey(p: Pick, s: Definition, definitions: seq<Definition>, previous: seq<Definition>)
    requires AllNamesKeep(definitions, previous) && PickOf(p, s, previous)
    requires Signature(s) in IndexDefinitions(definitions) && IndexDefinitions(definitions)[Signature(s)] == s
    ensures ShownSignature(Show(p, FromServer)) == Signature(p.definition)
  {
    hide NamesKeep, ToObject, Signature, WireEqual, ShownSignature;
    if p.previous.None? {
      NothingKept(p.definition.parameters);
    }
    ShownSignatureExactly(p.definition, p.previous, FromServer);
  }

  /** Refresh mode honours the server: what it shows has each server signature exactly once and no other, the
      previous ones first in previous order, then the new ones in server order, if no parameter takes the
      spelling of another one of its name, and for accepted types only if so. */
  lemma {:induction false} RefreshOrder(definitions: seq<Definition>, previous: seq<Definition>)
    requires Distinct(Keys(previous))
    ensures var shown := ShownKeys(Mapped(definitions, previous, FromServer));
            var ordered := (forall k :: k in shown <==> k in Keys(definitions)) &&
                           InRankOrder(shown, Keys(previous), Keys(definitions));
            && (AllNamesKeep(definitions, previous) ==> ordered)
            && ((forall d :: d in definitions + previous ==> TypesReadable(d)) && ordered ==>
                  AllNamesKeep(definitions, previous))
  {
    hide AllNamesKeep, Mapped, Picks, InRankOrder, ShownSignature, TypesReadable;
    PicksInOrder(definitions, previous);
    RefreshShowsPicks(definitions, previous);
    var shown := ShownKeys(Mapped(definitions, previous, FromServer));
    var keys := PickKeys(Picks(definitions, previous, FromServer));
    if (forall k :: k in shown <==> k in Keys(definitions)) && InRankOrder(shown, Keys(previous), Keys(definitions)) {
      RankOrderUnique(shown, keys, Keys(previous), Keys(definitions));
    }
  }

  /** Previous definitions of distinct, colon-free names keep all their types. */
  lemma DistinctNamesKeep(definitions: seq<Definition>, previous: seq<Definition>)
    requires forall d :: d in definitions ==> Decodable(d)
    requires forall d :: d in previous ==> Decodable(d) && DistinctParams(d.parameters)
    ensures AllNamesKeep(definitions, previous)
  {
    hide NamesKeep, Signature, Decodable, WireEqual, DistinctParams;
    var server := IndexDefinitions(definitions);
    IndexedKeys(definitions);
    forall d | d in previous && Signature(d) in server
      ensures NamesKeep(d.parameters, Effective(Some(d), server[Signature(d)]).parameters)
    {
      var e := Effective(Some(d), server[Signature(d)]);
      SameSpelling(d, e);
      DistinctKeeps(d, e);
    }
  }
}
