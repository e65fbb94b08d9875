/** What a refresh shows of a definition that is not found again by what it reads back to. */
module ReconcileForgotten {
  import opened Common
  import opened RawJson
  import opened Functions
  import opened Reconcile
  import opened ReconcileImpls
  import opened ReconcileRepeats
  import opened ReconcileSpelling
  import opened TerraformFunctions

  // ----- Values -----

  /** The parameter e, spelled after the previous one of its name, has the texts of o. */
  predicate ParamSpelled(previous: map<string, Param>, e: Param, o: TFParam) {
    if e.name in previous then
      TypeKept(previous[e.name].dataType, e.dataType, o.dataType) &&
      DefaultKept(previous[e.name].defaultValue, e.defaultValue, o.defaultValue)
    else o.dataType == ToTerraform(e.dataType) && o.defaultValue == ShowOptional(e.defaultValue)
  }

  predicate ColumnSpelled(previous: map<string, Column>, e: Column, o: TFColumn) {
    if e.name in previous then TypeKept(previous[e.name].dataType, e.dataType, o.dataType)
    else o.dataType == ToTerraform(e.dataType)
  }

  predicate ReturnSpelled(previous: string, e: string, o: Option<string>) {
    if e == "" then o == None else DefaultKept(previous, e, o)
  }

  lemma ParamSpelledExactly(previous: map<string, Param>, e: Param, o: TFParam)
    requires o.name == e.name && o.comment == TextOrNull(e.comment)
    ensures ShowParam(e, previous) == o <==> ParamSpelled(previous, e, o)
  {
    hide ToTerraform, ShowOptional, RawEqual, TextOrNull;
    if e.name in previous {
      PreferByMeaning(previous[e.name].dataType, e.dataType);
      PreferByMeaning(previous[e.name].defaultValue, e.defaultValue);
      ShownTwice(previous[e.name].defaultValue, e.defaultValue);
    }
  }

  lemma ShownTwice(latest: string, raw: string)
    ensures ShowOptional(if RawEqual(latest, raw) then latest else raw) ==
            if RawEqual(latest, raw) then ShowOptional(latest) else ShowOptional(raw)
  {
  }

  lemma ColumnSpelledExactly(previous: map<string, Column>, e: Column, o: TFColumn)
    requires o.name == e.name && o.comment == TextOrNull(e.comment)
    ensures ShowColumn(e, previous) == o <==> ColumnSpelled(previous, e, o)
  {
    hide ToTerraform, RawEqual, TextOrNull;
    if e.name in previous {
      PreferByMeaning(previous[e.name].dataType, e.dataType);
    }
  }

  lemma ReturnSpelledExactly(previous: string, e: string, o: Option<string>)
    ensures ShowOptional(if e != "" then PreferRaw(previous, e) else "") == o <==> ReturnSpelled(previous, e, o)
  {
    hide ToTerraform, RawEqual;
    PreferByMeaning(previous, e);
    ShownTwice(previous, e);
  }

  // ----- Implementations -----

  /** Implementations of unique runtimes are told by their runtimes. */
  lemma {:induction false} OrderByRuntimes(a: seq<Impl>, b: seq<Impl>)
    requires UniqueRuntimes(a) && (forall x :: x in b ==> x in a) && RuntimeSeq(a) == RuntimeSeq(b)
    ensures a == b
  {
    assert |a| == |b|;
    forall i | 0 <= i < |a| ensures a[i] == b[i] {
      assert b[i] in a;
      var k :| 0 <= k < |a| && a[k] == b[i];
      assert RuntimeSeq(a)[i] == RuntimeSeq(b)[i] == a[k].runtime;
    }
  }

  /** Two refreshes show the implementations alike exactly if they put the runtimes in the same order. */
  lemma SameOrderExactly(impls: seq<Impl>, p: seq<Impl>, q: seq<Impl>)
    requires UniqueRuntimes(impls) && UniqueRuntimes(p) && UniqueRuntimes(q)
    ensures var a, b := OrderedImpls(impls, p, FromServer), OrderedImpls(impls, q, FromServer);
            ShowImpls(a) == ShowImpls(b) <==> RuntimeSeq(a) == RuntimeSeq(b)
  {
    hide OrderedImpls, UniqueRuntimes, ShowImpl;
    var a, b := OrderedImpls(impls, p, FromServer), OrderedImpls(impls, q, FromServer);
    RefreshKeepsImpls(impls, p);
    RefreshKeepsImpls(impls, q);
    if RuntimeSeq(a) == RuntimeSeq(b) {
      OrderByRuntimes(a, b);
    }
    if ShowImpls(a) == ShowImpls(b) {
      ShownRuntimes(a, b);
    }
  }

  lemma ShownRuntimes(a: seq<Impl>, b: seq<Impl>)
    requires ShowImpls(a) == ShowImpls(b)
    ensures RuntimeSeq(a) == RuntimeSeq(b)
  {
    assert |a| == |ShowImpls(a)| == |b|;
    forall i | 0 <= i < |a| ensures a[i].runtime == b[i].runtime {
      assert ShowImpls(a)[i].runtime == a[i].runtime && ShowImpls(b)[i].runtime == b[i].runtime;
    }
  }

  lemma {:induction false} ExtrasBehind(impls: seq<Impl>, n: nat, converted: set<string>)
    requires UniqueRuntimes(impls) && n <= |impls| && converted == Runtimes(impls[..n])
    ensures Extras(impls, converted) == impls[n..]
  {
    hide Extras;
    if n == |impls| {
      assert impls[..n] == impls;
      NoExtras(impls, converted);
    } else {
      var m := |impls| - 1;
      assert impls[..m][..n] == impls[..n];
      ExtrasBehind(impls[..m], n, converted);
      LastRuntime(impls, n);
      LastRuntime(impls, m);
      ExtrasStep(impls, m, converted, []);
      assert impls[..m + 1] == impls;
      assert impls[n..] == impls[..m][n..] + [impls[m]];
      assert [] + Extras(impls, converted) == Extras(impls, converted);
      assert [] + Extras(impls[..m], converted) == Extras(impls[..m], converted);
    }
  }

  lemma LastRuntime(impls: seq<Impl>, n: nat)
    requires UniqueRuntimes(impls) && n < |impls|
    ensures impls[|impls| - 1].runtime !in Runtimes(impls[..n])
  {
  }

  /** The previous implementations leave the server's order as it is exactly if those the server still has are
      the server's first ones, in its order. */
  lemma OrderLeftExactly(impls: seq<Impl>, p: seq<Impl>)
    requires UniqueRuntimes(impls) && UniqueRuntimes(p)
    ensures OrderedImpls(impls, p, FromServer) == impls <==>
            FromPrevious(p, ImplsByRuntime(impls), FromServer) <= impls
  {
    hide UniqueRuntimes, ImplsByRuntime, FromPrevious, Extras, Converted, Runtimes;
    if p == [] {
      NothingOrdered(ImplsByRuntime(impls), FromServer);
    } else {
      var server := ImplsByRuntime(impls);
      var kept := FromPrevious(p, server, FromServer);
      ByRuntimeKeys(impls);
      KeptFromPrevious(p, server);
      if kept <= impls {
        KeptRuntimes(impls, p, kept);
        ExtrasBehind(impls, |kept|, Converted(p, server));
        assert kept + impls[|kept|..] == impls;
      }
    }
  }

  lemma KeptRuntimes(impls: seq<Impl>, p: seq<Impl>, kept: seq<Impl>)
    requires var server := ImplsByRuntime(impls);
             && kept <= impls && Converted(p, server) <= server.Keys
             && (forall k :: k in server ==> server[k].runtime == k)
             && (forall x :: x in kept <==> x.runtime in Converted(p, server) && x == server[x.runtime])
    ensures Converted(p, ImplsByRuntime(impls)) == Runtimes(impls[..|kept|])
  {
    var server := ImplsByRuntime(impls);
    assert impls[..|kept|] == kept;
    forall r | r in Converted(p, server) ensures r in Runtimes(kept) {
      assert server[r] in kept;
    }
    forall r | r in Runtimes(kept) ensures r in Converted(p, server) {
      var i :| 0 <= i < |kept| && kept[i].runtime == r;
      assert kept[i] in kept;
    }
  }

  // ----- Definitions -----

  function Members(previous: Option<Definition>): Definition {
    if previous.Some? then previous.value else Definition([], "", [], [])
  }

  /** The server definition, spelled after the previous one, has the texts of o, and its implementations have
      the order of o. */
  predicate SpelledAs(previous: Option<Definition>, s: Definition, o: TFDefinition) {
    var p, e := Members(previous), Effective(previous, s);
    && |Items(o.parameters)| == |e.parameters| && |Items(o.returnColumns)| == |e.returnColumns|
    && (forall k | 0 <= k < |e.parameters| ::
          ParamSpelled(ParamsByName(p.parameters), e.parameters[k], Items(o.parameters)[k]))
    && (forall k | 0 <= k < |e.returnColumns| ::
          ColumnSpelled(ColumnsByName(p.returnColumns), e.returnColumns[k], Items(o.returnColumns)[k]))
    && ReturnSpelled(p.returnType, e.returnType, o.returnType)
    && RuntimesShown(Items(o.impls)) == RuntimeSeq(OrderedImpls(s.impls, p.impls, FromServer))
  }

  /** The previous definition gives no value of the server's a text of its own, and the implementations no
      order of its own. */
  predicate LeavesAsIs(previous: Option<Definition>, s: Definition) {
    previous.Some? ==>
      var p, e := previous.value, Effective(previous, s);
      && |e.parameters| == |s.parameters| && |e.returnColumns| == |s.returnColumns|
      && (forall k | 0 <= k < |s.parameters| ::
            ParamSpelled(ParamsByName(p.parameters), e.parameters[k], ShowParam(s.parameters[k], map[])))
      && (forall k | 0 <= k < |s.returnColumns| ::
            ColumnSpelled(ColumnsByName(p.returnColumns), e.returnColumns[k], ShowColumn(s.returnColumns[k], map[])))
      && ReturnSpelled(p.returnType, e.returnType, ShowOptional(s.returnType))
      && FromPrevious(p.impls, ImplsByRuntime(s.impls), FromServer) <= s.impls
  }

  lemma {:induction false} ParamsSpelledExactly(previous: map<string, Param>, e: seq<Param>, o: seq<TFParam>)
    requires |o| == |e|
    requires forall k :: 0 <= k < |e| ==> o[k].name == e[k].name && o[k].comment == TextOrNull(e[k].comment)
    ensures ShowParams(e, previous) == o <==> forall k :: 0 <= k < |e| ==> ParamSpelled(previous, e[k], o[k])
  {
    hide ParamSpelled, ShowParam, TextOrNull;
    forall k | 0 <= k < |e| ensures ShowParams(e, previous)[k] == o[k] <==> ParamSpelled(previous, e[k], o[k]) {
      ParamSpelledExactly(previous, e[k], o[k]);
    }
    SameItems(ShowParams(e, previous), o);
  }

  lemma {:induction false} ColumnsSpelledExactly(previous: map<string, Column>, e: seq<Column>, o: seq<TFColumn>)
    requires |o| == |e|
    requires forall k :: 0 <= k < |e| ==> o[k].name == e[k].name && o[k].comment == TextOrNull(e[k].comment)
    ensures ShowColumns(e, previous) == o <==> forall k :: 0 <= k < |e| ==> ColumnSpelled(previous, e[k], o[k])
  {
    hide ColumnSpelled, ShowColumn, TextOrNull;
    forall k | 0 <= k < |e| ensures ShowColumns(e, previous)[k] == o[k] <==> ColumnSpelled(previous, e[k], o[k]) {
      ColumnSpelledExactly(previous, e[k], o[k]);
    }
    SameItems(ShowColumns(e, previous), o);
  }

  lemma NamesShown(p: Param, previous: map<string, Param>)
    ensures var o := ShowParam(p, previous); o.name == p.name && o.comment == TextOrNull(p.comment)
  {
    hide PreferRaw, ToTerraform, ShowOptional;
  }

  lemma ColumnNamesShown(c: Column, previous: map<string, Column>)
    ensures var o := ShowColumn(c, previous); o.name == c.name && o.comment == TextOrNull(c.comment)
  {
    hide PreferRaw, ToTerraform;
  }

  /** What is shown after q is what is shown after r exactly if the texts and the order agree. */
  lemma {:induction false} SpelledExactly(s: Definition, q: Option<Definition>, r: Option<Definition>)
    requires UniqueRuntimes(s.impls) && (q.Some? ==> ReadForm(q.value)) && (r.Some? ==> ReadForm(r.value))
    ensures var o := ToObject(Effective(q, s), q, FromServer);
            ToObject(Effective(r, s), r, FromServer) == o <==> SpelledAs(r, s, o)
  {
    hide WireEqual, ParamSpelled, ColumnSpelled, ReturnSpelled, OrderedImpls, ShowParam, ShowColumn, PreferRaw,
      ShowOptional, Alike, ReadForm, TextOrNull, ShowImpl, RuntimesShown;
    var e, f := Effective(r, s), Effective(q, s);
    var p, b := Members(r), Members(q);
    var o := ToObject(f, q, FromServer);
    EffectiveMeans(q, s);
    EffectiveMeans(r, s);
    forall k | 0 <= k < |s.parameters|
      ensures Items(o.parameters)[k].name == e.parameters[k].name
      ensures Items(o.parameters)[k].comment == TextOrNull(e.parameters[k].comment)
    {
      NamesShown(f.parameters[k], ParamsByName(b.parameters));
    }
    forall k | 0 <= k < |s.returnColumns|
      ensures Items(o.returnColumns)[k].name == e.returnColumns[k].name
      ensures Items(o.returnColumns)[k].comment == TextOrNull(e.returnColumns[k].comment)
    {
      ColumnNamesShown(f.returnColumns[k], ColumnsByName(b.returnColumns));
    }
    ParamsSpelledExactly(ParamsByName(p.parameters), e.parameters, Items(o.parameters));
    ColumnsSpelledExactly(ColumnsByName(p.returnColumns), e.returnColumns, Items(o.returnColumns));
    ReturnSpelledExactly(p.returnType, e.returnType, o.returnType);
    FormRuntimes(q);
    FormRuntimes(r);
    SameOrderExactly(s.impls, p.impls, b.impls);
    RuntimesOf(OrderedImpls(s.impls, b.impls, FromServer));
  }

  lemma RuntimesOf(impls: seq<Impl>)
    ensures RuntimesShown(ShowImpls(impls)) == RuntimeSeq(impls)
  {
  }

  lemma FormRuntimes(q: Option<Definition>)
    requires q.Some? ==> ReadForm(q.value)
    ensures UniqueRuntimes(Members(q).impls)
  {
    hide Encoded, OptionalEncoded;
  }

  /** A definition that is not found again shows the same without its previous definition exactly if that
      leaves the server's texts and order as they are. */
  lemma {:induction false} ForgottenExactly(s: Definition, q: Option<Definition>)
    requires UniqueRuntimes(s.impls) && (q.Some? ==> ReadForm(q.value))
    ensures ToObject(s, None, FromServer) == ToObject(Effective(q, s), q, FromServer) <==> LeavesAsIs(q, s)
  {
    if q.Some? {
      LeftExactly(s, q.value);
    }
  }

  lemma {:induction false} LeftExactly(s: Definition, p: Definition)
    requires UniqueRuntimes(s.impls) && ReadForm(p)
    ensures ToObject(s, None, FromServer) == ToObject(Effective(Some(p), s), Some(p), FromServer) <==>
              LeavesAsIs(Some(p), s)
  {
    hide WireEqual, ParamSpelled, ColumnSpelled, ReturnSpelled, OrderedImpls, ShowParam, ShowColumn, PreferRaw,
      ShowOptional, Alike, ReadForm, TextOrNull, ShowImpl, RuntimesShown, FromPrevious, ImplsByRuntime;
    var e := Effective(Some(p), s);
    var o := ToObject(s, None, FromServer);
    NoPrevious(s);
    EffectiveMeans(Some(p), s);
    forall k | 0 <= k < |s.parameters|
      ensures Items(o.parameters)[k] == ShowParam(s.parameters[k], map[])
      ensures Items(o.parameters)[k].name == e.parameters[k].name
      ensures Items(o.parameters)[k].comment == TextOrNull(e.parameters[k].comment)
    {
      NamesShown(s.parameters[k], map[]);
    }
    forall k | 0 <= k < |s.returnColumns|
      ensures Items(o.returnColumns)[k] == ShowColumn(s.returnColumns[k], map[])
      ensures Items(o.returnColumns)[k].name == e.returnColumns[k].name
      ensures Items(o.returnColumns)[k].comment == TextOrNull(e.returnColumns[k].comment)
    {
      ColumnNamesShown(s.returnColumns[k], map[]);
    }
    ParamsSpelledExactly(ParamsByName(p.parameters), e.parameters, Items(o.parameters));
    ColumnsSpelledExactly(ColumnsByName(p.returnColumns), e.returnColumns, Items(o.returnColumns));
    ReturnSpelledExactly(p.returnType, e.returnType, o.returnType);
    FormRuntimes(Some(p));
    UniqueNone();
    SameOrderExactly(s.impls, p.impls, []);
    OrderLeft(s.impls, p.impls);
  }

  lemma NoPrevious(s: Definition)
    ensures var o := ToObject(s, None, FromServer);
            && Items(o.parameters) == ShowParams(s.parameters, map[])
            && Items(o.returnColumns) == ShowColumns(s.returnColumns, map[])
            && o.returnType == ShowOptional(s.returnType) && Items(o.impls) == ShowImpls(s.impls)
            && OrderedImpls(s.impls, [], FromServer) == s.impls
  {
    hide ShowParam, ShowColumn, ToTerraform, RawEqual, ShowImpl;
  }

  lemma UniqueNone()
    ensures UniqueRuntimes([])
  {
  }

  lemma OrderLeft(impls: seq<Impl>, p: seq<Impl>)
    requires UniqueRuntimes(impls) && UniqueRuntimes(p)
    ensures RuntimeSeq(OrderedImpls(impls, p, FromServer)) == RuntimeSeq(impls) <==>
            FromPrevious(p, ImplsByRuntime(impls), FromServer) <= impls
  {
    hide OrderedImpls, FromPrevious, ImplsByRuntime, UniqueRuntimes;
    OrderLeftExactly(impls, p);
    RefreshKeepsImpls(impls, p);
    if RuntimeSeq(OrderedImpls(impls, p, FromServer)) == RuntimeSeq(impls) {
      OrderByRuntimes(impls, OrderedImpls(impls, p, FromServer));
    }
  }
}
