/** Which requests a function update holds: in terms of the definitions alone. */
module FunctionRequests {
  import opened Common
  import opened Order
  import opened Json
  import opened JsonCompact
  import opened Functions
  import opened FunctionUpdates
  import opened FunctionUpdateLaws

  // ----- The frame of a definition -----

  /** A raw value that can be encoded. */
  predicate Encodable(raw: string) {
    raw == "" || ParseText(raw).Some?
  }

  predicate AllEncodable(d: Definition) {
    && (forall k :: 0 <= k < |d.parameters| ==>
          Encodable(d.parameters[k].dataType) && Encodable(d.parameters[k].defaultValue))
    && Encodable(d.returnType)
    && (forall k :: 0 <= k < |d.returnColumns| ==> Encodable(d.returnColumns[k].dataType))
  }

  /** A value that is left out when it is empty: both are, or both have one compact text. */
  predicate SameValue(a: string, b: string) {
    if a == "" || b == "" then a == b else CompactOut(a) == CompactOut(b)
  }

  /** A value that is sent as null when it is empty. */
  predicate SameType(a: string, b: string) {
    CompactOut(if a == "" then "null" else a) == CompactOut(if b == "" then "null" else b)
  }

  /** Everything but the implementations is sent alike, or is the same if it cannot be sent. */
  predicate SameFrame(a: Definition, b: Definition) {
    if AllEncodable(a) && AllEncodable(b) then
      && |a.parameters| == |b.parameters| && |a.returnColumns| == |b.returnColumns|
      && (forall k :: 0 <= k < |a.parameters| ==>
            a.parameters[k].name == b.parameters[k].name && a.parameters[k].comment == b.parameters[k].comment &&
            SameType(a.parameters[k].dataType, b.parameters[k].dataType) &&
            SameValue(a.parameters[k].defaultValue, b.parameters[k].defaultValue))
      && SameValue(a.returnType, b.returnType)
      && (forall k :: 0 <= k < |a.returnColumns| ==>
            a.returnColumns[k].name == b.returnColumns[k].name &&
            a.returnColumns[k].comment == b.returnColumns[k].comment &&
            SameType(a.returnColumns[k].dataType, b.returnColumns[k].dataType))
    else
      && !AllEncodable(a) && !AllEncodable(b)
      && a.parameters == b.parameters && a.returnType == b.returnType && a.returnColumns == b.returnColumns
  }

  lemma NullCompact()
    ensures CompactOut("null") == "null"
  {
    assert "null"[1..] == "ull" && "ull"[1..] == "ll" && "ll"[1..] == "l" && "l"[1..] == "";
    assert CompactOut("l") == "l" && CompactOut("ll") == "ll" && CompactOut("ull") == "ull";
  }

  lemma CompactNotEmpty(s: string)
    requires ParseText(s).Some?
    ensures CompactOut(s) != ""
  {
    SkipCompact(s);
  }

  lemma WiredTypes(a: string, b: string)
    ensures WireRequired(a).Some? <==> Encodable(a)
    ensures Encodable(a) && Encodable(b) ==> (WireRequired(a) == WireRequired(b) <==> SameType(a, b))
  {
    hide CompactOut, ParseText;
    NullCompact();
  }

  lemma WiredValues(a: string, b: string)
    ensures WireOptional(a).Some? <==> Encodable(a)
    ensures Encodable(a) && Encodable(b) ==> (WireOptional(a) == WireOptional(b) <==> SameValue(a, b))
  {
    hide CompactOut, ParseText;
    if a != "" && ParseText(a).Some? {
      CompactNotEmpty(a);
    }
    if b != "" && ParseText(b).Some? {
      CompactNotEmpty(b);
    }
  }

  lemma {:induction false} WiredParams(ps: seq<Param>, qs: seq<Param>)
    ensures WireParams(ps).Some? <==>
            forall k :: 0 <= k < |ps| ==> Encodable(ps[k].dataType) && Encodable(ps[k].defaultValue)
    ensures WireParams(ps).Some? && WireParams(qs).Some? ==>
              (WireParams(ps) == WireParams(qs) <==>
                 |ps| == |qs| && forall k :: 0 <= k < |ps| ==>
                   ps[k].name == qs[k].name && ps[k].comment == qs[k].comment &&
                   SameType(ps[k].dataType, qs[k].dataType) && SameValue(ps[k].defaultValue, qs[k].defaultValue))
  {
    hide Encodable, WireRequired, WireOptional, SameType, SameValue;
    WiredEach(ps);
    WiredEach(qs);
    if WireParams(ps).Some? && WireParams(qs).Some? {
      var a, b := WireParams(ps).value, WireParams(qs).value;
      SameItems(a, b);
      forall k | 0 <= k < |ps| && |ps| == |qs|
        ensures a[k] == b[k] <==> ps[k].name == qs[k].name && ps[k].comment == qs[k].comment &&
                                  SameType(ps[k].dataType, qs[k].dataType) &&
                                  SameValue(ps[k].defaultValue, qs[k].defaultValue)
      {
        WiredTypes(ps[k].dataType, qs[k].dataType);
        WiredTypes(qs[k].dataType, ps[k].dataType);
        WiredValues(ps[k].defaultValue, qs[k].defaultValue);
        WiredValues(qs[k].defaultValue, ps[k].defaultValue);
      }
    }
  }

  lemma {:induction false} WiredEach(ps: seq<Param>)
    ensures WireParams(ps).Some? <==>
            forall k :: 0 <= k < |ps| ==> Encodable(ps[k].dataType) && Encodable(ps[k].defaultValue)
    ensures WireParams(ps).Some? ==>
              var w := WireParams(ps).value;
              |w| == |ps| && forall k :: 0 <= k < |ps| ==>
                WireRequired(ps[k].dataType) == Some(w[k].dataType) &&
                WireOptional(ps[k].defaultValue) == Some(w[k].defaultValue) &&
                w[k].name == ps[k].name && w[k].comment == ps[k].comment
  {
    hide Encodable, WireRequired, WireOptional;
    if ps != [] {
      WiredTypes(ps[0].dataType, "");
      WiredValues(ps[0].defaultValue, "");
      WiredEach(ps[1..]);
      assert forall k :: 0 < k < |ps| ==> ps[1..][k - 1] == ps[k];
      if WireParams(ps[1..]).None? {
        var k :| 0 <= k < |ps[1..]| && !(Encodable(ps[1..][k].dataType) && Encodable(ps[1..][k].defaultValue));
        assert ps[k + 1] == ps[1..][k];
      }
    }
  }

  lemma {:induction false} WiredColumns(cs: seq<Column>, ds: seq<Column>)
    ensures WireColumns(cs).Some? <==> forall k :: 0 <= k < |cs| ==> Encodable(cs[k].dataType)
    ensures WireColumns(cs).Some? && WireColumns(ds).Some? ==>
              (WireColumns(cs) == WireColumns(ds) <==>
                 |cs| == |ds| && forall k :: 0 <= k < |cs| ==>
                   cs[k].name == ds[k].name && cs[k].comment == ds[k].comment &&
                   SameType(cs[k].dataType, ds[k].dataType))
  {
    hide Encodable, WireRequired, SameType;
    WiredEachColumn(cs);
    WiredEachColumn(ds);
    if WireColumns(cs).Some? && WireColumns(ds).Some? {
      var a, b := WireColumns(cs).value, WireColumns(ds).value;
      SameItems(a, b);
      forall k | 0 <= k < |cs| && |cs| == |ds|
        ensures a[k] == b[k] <==> cs[k].name == ds[k].name && cs[k].comment == ds[k].comment &&
                                  SameType(cs[k].dataType, ds[k].dataType)
      {
        WiredTypes(cs[k].dataType, ds[k].dataType);
        WiredTypes(ds[k].dataType, cs[k].dataType);
      }
    }
  }

  lemma {:induction false} WiredEachColumn(cs: seq<Column>)
    ensures WireColumns(cs).Some? <==> forall k :: 0 <= k < |cs| ==> Encodable(cs[k].dataType)
    ensures WireColumns(cs).Some? ==>
              var w := WireColumns(cs).value;
              |w| == |cs| && forall k :: 0 <= k < |cs| ==>
                WireRequired(cs[k].dataType) == Some(w[k].dataType) && w[k].name == cs[k].name &&
                w[k].comment == cs[k].comment
  {
    hide Encodable, WireRequired;
    if cs != [] {
      WiredTypes(cs[0].dataType, "");
      WiredEachColumn(cs[1..]);
      assert forall k :: 0 < k < |cs| ==> cs[1..][k - 1] == cs[k];
      if WireColumns(cs[1..]).None? {
        var k :| 0 <= k < |cs[1..]| && !Encodable(cs[1..][k].dataType);
        assert cs[k + 1] == cs[1..][k];
      }
    }
  }

  /** Two definitions have one shape exactly if everything but their implementations is sent alike. */
  lemma ShapeIsFrame(a: Definition, b: Definition)
    ensures ShapeOf(a) == ShapeOf(b) <==> SameFrame(a, b)
  {
    hide Encodable, WireParams, WireColumns, WireOptional, SameType, SameValue;
    WiredParams(a.parameters, b.parameters);
    WiredParams(b.parameters, a.parameters);
    WiredColumns(a.returnColumns, b.returnColumns);
    WiredColumns(b.returnColumns, a.returnColumns);
    WiredValues(a.returnType, b.returnType);
    WiredValues(b.returnType, a.returnType);
  }

  // ----- Definitions -----

  /** One definition for the provider: the same signature and the same frame. */
  predicate Counterparts(p: Definition, s: Definition) {
    Signature(p) == Signature(s) && SameFrame(p, s)
  }

  lemma KeptExactly(d: Definition, others: seq<Definition>)
    requires UniqueSignatures(others)
    ensures Kept(d, IndexDefinitions(others)) <==> exists o :: o in others && Counterparts(o, d)
    ensures forall o :: o in others && Signature(o) == Signature(d) ==>
              Signature(d) in IndexDefinitions(others) && IndexDefinitions(others)[Signature(d)] == o
  {
    hide Signature, ShapeOf, SameFrame;
    IndexedDefinitions(others);
    var m := IndexDefinitions(others);
    forall o | o in others && Signature(o) == Signature(d) ensures Signature(d) in m && m[Signature(d)] == o {
      var i :| 0 <= i < |others| && others[i] == o;
    }
    if Signature(d) in m {
      var i :| 0 <= i < |others| && Signature(others[i]) == Signature(d);
      ShapeIsFrame(others[i], d);
      assert others[i] in others;
    }
  }

  /** What a kept definition asks of one implementation. */
  ghost predicate ImplAsked(p: Definition, s: Definition, r: Request) {
    match r
    case RemoveImpl(ps, runtime) =>
      ps == p.parameters && (exists x :: x in s.impls && x.runtime == runtime) &&
      forall x :: x in p.impls ==> x.runtime != runtime
    case UpdateImpl(ps, runtime, impl) =>
      ps == p.parameters && impl in p.impls && impl.runtime == runtime &&
      exists x :: x in s.impls && x.runtime == runtime && x != impl
    case AddImpl(ps, impl) =>
      ps == p.parameters && impl in p.impls && forall x :: x in s.impls ==> x.runtime != impl.runtime
    case _ => false
  }

  ghost predicate Asked(plan: seq<Definition>, state: seq<Definition>, r: Request) {
    match r
    case RemoveDefinition(ps) =>
      exists s :: s in state && s.parameters == ps && forall p :: p in plan ==> !Counterparts(p, s)
    case AddDefinition(d) => d in plan && forall s :: s in state ==> !Counterparts(s, d)
    case _ => exists p, s :: p in plan && s in state && Counterparts(s, p) && ImplAsked(p, s, r)
  }

  lemma {:induction false} RemovalsHold(state: seq<Definition>, planned: map<string, Definition>, r: Request)
    ensures r in Removals(state, planned) <==>
            r.RemoveDefinition? && exists s :: s in state && s.parameters == r.parameters && !Kept(s, planned)
  {
    hide Kept;
    if state != [] {
      var n := |state| - 1;
      RemovalsHold(state[..n], planned, r);
      assert state == state[..n] + [state[n]];
    }
  }

  lemma {:induction false} AdditionsHold(plan: seq<Definition>, current: map<string, Definition>, r: Request)
    ensures r in Additions(plan, current) <==>
            exists p :: p in plan &&
              if Kept(p, current) then r in ImplementationRequests(p, current[Signature(p)]) else r == AddDefinition(p)
  {
    hide Kept, ImplementationRequests, Signature;
    if plan != [] {
      var n := |plan| - 1;
      AdditionsHold(plan[..n], current, r);
      assert plan == plan[..n] + [plan[n]];
    }
  }

  lemma {:induction false} ChangesHold(ps: seq<Param>, keys: seq<string>, plan: map<string, Impl>,
                                       state: map<string, Impl>, r: Request)
    requires forall k :: k in keys ==> k in state
    requires forall k :: k in plan ==> plan[k].runtime == k
    requires forall k :: k in state ==> state[k].runtime == k
    ensures r in ImplChanges(ps, keys, plan, state) <==>
            match r
            case RemoveImpl(qs, runtime) => qs == ps && runtime in keys && runtime !in plan
            case UpdateImpl(qs, runtime, impl) =>
              qs == ps && runtime in keys && runtime in plan && plan[runtime] == impl && impl != state[runtime]
            case _ => false
  {
    if keys != [] {
      var n := |keys| - 1;
      ChangesHold(ps, keys[..n], plan, state, r);
      assert keys == keys[..n] + [keys[n]];
    }
  }

  lemma {:induction false} ImplAdditionsHold(ps: seq<Param>, keys: seq<string>, plan: map<string, Impl>,
                                             state: map<string, Impl>, r: Request)
    requires forall k :: k in keys ==> k in plan
    requires forall k :: k in plan ==> plan[k].runtime == k
    ensures r in ImplAdditions(ps, keys, plan, state) <==>
            r.AddImpl? && r.parameters == ps && r.impl.runtime in keys && plan[r.impl.runtime] == r.impl &&
            r.impl.runtime !in state
  {
    if keys != [] {
      var n := |keys| - 1;
      ImplAdditionsHold(ps, keys[..n], plan, state, r);
      assert keys == keys[..n] + [keys[n]];
    }
  }

  lemma {:induction false} RuntimesIndexed(impls: seq<Impl>, runtime: string)
    ensures runtime in IndexImpls(impls) <==> exists x :: x in impls && x.runtime == runtime
  {
    if impls != [] {
      var n := |impls| - 1;
      RuntimesIndexed(impls[..n], runtime);
      assert impls == impls[..n] + [impls[n]];
    }
  }

  /** The implementations by runtime: of a runtime used twice the first one. */
  lemma {:induction false} FirstOfRuntime(impls: seq<Impl>, i: nat)
    requires i < |impls| && forall j :: 0 <= j < i ==> impls[j].runtime != impls[i].runtime
    ensures impls[i].runtime in IndexImpls(impls) && IndexImpls(impls)[impls[i].runtime] == impls[i]
  {
    var n := |impls| - 1;
    var before := impls[..n];
    if i < n {
      FirstOfRuntime(before, i);
    } else {
      RuntimesIndexed(before, impls[n].runtime);
    }
  }

  lemma {:induction false} SignaturesIndexed(ds: seq<Definition>, signature: string)
    ensures signature in IndexDefinitions(ds) <==> exists d :: d in ds && Signature(d) == signature
  {
    hide Signature;
    if ds != [] {
      var n := |ds| - 1;
      SignaturesIndexed(ds[..n], signature);
      assert ds == ds[..n] + [ds[n]];
    }
  }

  /** The definitions by signature: of a signature used twice the first one. */
  lemma {:induction false} FirstOfSignature(ds: seq<Definition>, i: nat)
    requires i < |ds| && forall j :: 0 <= j < i ==> Signature(ds[j]) != Signature(ds[i])
    ensures Signature(ds[i]) in IndexDefinitions(ds) && IndexDefinitions(ds)[Signature(ds[i])] == ds[i]
  {
    hide Signature;
    var n := |ds| - 1;
    var before := ds[..n];
    if i < n {
      FirstOfSignature(before, i);
    } else {
      SignaturesIndexed(before, Signature(ds[n]));
    }
  }

  lemma UniqueIndexed(impls: seq<Impl>)
    requires UniqueRuntimes(impls)
    ensures forall x :: x in impls ==> x.runtime in IndexImpls(impls) && IndexImpls(impls)[x.runtime] == x
    ensures forall k :: k in IndexImpls(impls) ==> IndexImpls(impls)[k] in impls && IndexImpls(impls)[k].runtime == k
  {
    IndexedImpls(impls);
    forall x | x in impls ensures x.runtime in IndexImpls(impls) && IndexImpls(impls)[x.runtime] == x {
      var i :| 0 <= i < |impls| && impls[i] == x;
      FirstOfRuntime(impls, i);
    }
    forall k | k in IndexImpls(impls) ensures IndexImpls(impls)[k] in impls {
      RuntimesIndexed(impls, k);
      var x :| x in impls && x.runtime == k;
    }
  }

  lemma ImplementationsAsk(p: Definition, s: Definition, r: Request)
    requires UniqueRuntimes(p.impls) && UniqueRuntimes(s.impls)
    ensures r in ImplementationRequests(p, s) <==> ImplAsked(p, s, r)
  {
    hide UniqueRuntimes, IndexImpls, Sorted, ImplChanges, ImplAdditions;
    var a, b := IndexImpls(p.impls), IndexImpls(s.impls);
    UniqueIndexed(p.impls);
    UniqueIndexed(s.impls);
    SortedHolds(a.Keys);
    SortedHolds(b.Keys);
    ChangesHold(p.parameters, Sorted(b.Keys), a, b, r);
    ImplAdditionsHold(p.parameters, Sorted(a.Keys), a, b, r);
  }

  lemma SortedHolds(keys: set<string>)
    ensures forall k :: k in Sorted(keys) <==> k in keys
  {
    SortedElements(keys);
    assert forall k :: k in Elements(Sorted(keys)) <==> k in Sorted(keys);
  }

  /** An update holds a request exactly if plan and state ask for it. A stored definition is removed exactly if
      no planned one has its signature and is sent alike apart from the implementations, a planned one is added
      exactly if no stored one is, and of a kept one exactly the implementations are removed, changed or added
      whose runtime is gone, has another implementation or is new. */
  lemma RequestsExactly(plan: seq<Definition>, state: seq<Definition>, r: Request)
    requires UniqueSignatures(plan) && UniqueSignatures(state)
    requires (forall d :: d in plan ==> UniqueRuntimes(d.impls)) && (forall d :: d in state ==> UniqueRuntimes(d.impls))
    ensures r in DefinitionRequests(plan, state) <==> Asked(plan, state, r)
  {
    hide UniqueSignatures, UniqueRuntimes, IndexDefinitions, Kept, Removals, Additions, ImplementationRequests,
      Counterparts, Signature, ImplAsked;
    var planned, current := IndexDefinitions(plan), IndexDefinitions(state);
    RemovalsHold(state, planned, r);
    AdditionsHold(plan, current, r);
    forall d | d in state ensures Kept(d, planned) <==> exists p :: p in plan && Counterparts(p, d) {
      KeptExactly(d, plan);
    }
    forall d | d in plan ensures Kept(d, current) <==> exists s :: s in state && Counterparts(s, d) {
      KeptExactly(d, state);
    }
    forall p, s | p in plan && s in state && Counterparts(s, p)
      ensures Signature(p) in current && current[Signature(p)] == s
      ensures r in ImplementationRequests(p, s) <==> ImplAsked(p, s, r)
    {
      CounterpartFound(p, s, state);
      ImplementationsAsk(p, s, r);
    }
    KindsApart(r);
  }

  lemma CounterpartFound(p: Definition, s: Definition, state: seq<Definition>)
    requires UniqueSignatures(state) && s in state && Counterparts(s, p)
    ensures Signature(p) in IndexDefinitions(state) && IndexDefinitions(state)[Signature(p)] == s
  {
    hide SameFrame, Signature, UniqueSignatures;
    KeptExactly(p, state);
  }

  lemma KindsApart(r: Request)
    ensures forall p, s :: ImplAsked(p, s, r) ==> r.RemoveImpl? || r.UpdateImpl? || r.AddImpl?
  {
  }

  /** A change of implementations alone removes and adds no definition. */
  lemma ImplementationsAlone(plan: seq<Definition>, state: seq<Definition>, p: Definition, s: Definition)
    requires UniqueSignatures(plan) && UniqueSignatures(state)
    requires (forall d :: d in plan ==> UniqueRuntimes(d.impls)) && (forall d :: d in state ==> UniqueRuntimes(d.impls))
    requires p in plan && s in state && p.(impls := s.impls) == s
    ensures RemoveDefinition(s.parameters) !in DefinitionRequests(plan, state)
    ensures AddDefinition(p) !in DefinitionRequests(plan, state)
  {
    hide DefinitionRequests, UniqueRuntimes, SameFrame;
    RequestsExactly(plan, state, RemoveDefinition(s.parameters));
    RequestsExactly(plan, state, AddDefinition(p));
    SameFrames(p, s);
    forall t | t in state && t.parameters == s.parameters ensures t == s {
      var i :| 0 <= i < |state| && state[i] == t;
      var k :| 0 <= k < |state| && state[k] == s;
    }
  }

  lemma SameFrames(p: Definition, s: Definition)
    requires p.(impls := s.impls) == s
    ensures SameFrame(p, s) && SameFrame(s, p)
  {
    hide Encodable, CompactOut;
  }
}
