/** Executing the request list of a function update on the state yields the plan. */
module FunctionUpdateLaws {
  import opened Common
  import opened Order
  import opened Functions
  import opened FunctionUpdates

  // ----- Execution of concatenated lists -----

  lemma {:induction false} ExecuteConcat<K>(key: seq<Param> -> K, s: map<K, Stored>, a: seq<Request>, b: seq<Request>)
    ensures ExecuteAll(key, s, a + b) ==
            if ExecuteAll(key, s, a).Some? then ExecuteAll(key, ExecuteAll(key, s, a).value, b) else None
  {
    hide Execute;
    if b == [] {
      assert a + b == a;
    } else {
      var n := |b| - 1;
      ExecuteConcat(key, s, a, b[..n]);
      assert (a + b)[..|a| + n] == a + b[..n];
    }
  }

  lemma ExecuteSnoc<K>(key: seq<Param> -> K, s: map<K, Stored>, before: seq<Request>, r: Request)
    ensures ExecuteAll(key, s, before + [r]) ==
            if ExecuteAll(key, s, before).Some? then Execute(key, ExecuteAll(key, s, before).value, r) else None
  {
    assert (before + [r])[..|before|] == before;
  }

  lemma ExecuteTwo<K>(key: seq<Param> -> K, s: map<K, Stored>, a: seq<Request>, t: map<K, Stored>, b: seq<Request>,
                      u: map<K, Stored>)
    requires ExecuteAll(key, s, a) == Some(t) && ExecuteAll(key, t, b) == Some(u)
    ensures ExecuteAll(key, s, a + b) == Some(u)
  {
    ExecuteConcat(key, s, a, b);
  }

  // ----- What the indexes hold -----

  lemma {:induction false} IndexedDefinitions(ds: seq<Definition>)
    requires UniqueSignatures(ds)
    ensures forall i :: 0 <= i < |ds| ==>
              Signature(ds[i]) in IndexDefinitions(ds) && IndexDefinitions(ds)[Signature(ds[i])] == ds[i]
    ensures forall k :: k in IndexDefinitions(ds) ==> exists i :: 0 <= i < |ds| && Signature(ds[i]) == k
  {
    hide Signature;
    if ds != [] {
      var n := |ds| - 1;
      var m := IndexDefinitions(ds[..n]);
      IndexedDefinitions(ds[..n]);
      assert Signature(ds[n]) !in m;
      forall k | k in IndexDefinitions(ds) ensures exists i :: 0 <= i < |ds| && Signature(ds[i]) == k {
        if k != Signature(ds[n]) {
          var i :| 0 <= i < n && Signature(ds[..n][i]) == k;
          assert Signature(ds[i]) == k;
        }
      }
      forall i | 0 <= i < |ds|
        ensures Signature(ds[i]) in IndexDefinitions(ds) && IndexDefinitions(ds)[Signature(ds[i])] == ds[i]
      {
        assert i < n ==> ds[..n][i] == ds[i];
      }
    }
  }

  ghost predicate UniqueKeys<K>(key: seq<Param> -> K, ds: seq<Definition>) {
    forall i, k :: 0 <= i < k < |ds| ==> key(ds[i].parameters) != key(ds[k].parameters)
  }

  lemma {:induction false} ServerHolds<K>(key: seq<Param> -> K, ds: seq<Definition>)
    ensures forall i :: 0 <= i < |ds| ==> key(ds[i].parameters) in ServerOf(key, ds)
    ensures UniqueKeys(key, ds) ==>
              forall i :: 0 <= i < |ds| ==> ServerOf(key, ds)[key(ds[i].parameters)] == Store(ds[i])
    ensures forall k :: k in ServerOf(key, ds) ==> exists i :: 0 <= i < |ds| && key(ds[i].parameters) == k
  {
    hide Store;
    if ds != [] {
      var n := |ds| - 1;
      ServerHolds(key, ds[..n]);
      assert forall i :: 0 <= i < n ==> ds[..n][i] == ds[i];
    }
  }

  lemma {:induction false} IndexedImpls(impls: seq<Impl>)
    ensures forall k :: k in IndexImpls(impls) ==> IndexImpls(impls)[k].runtime == k
  {
    if impls != [] {
      IndexedImpls(impls[..|impls| - 1]);
    }
  }

  // ----- Implementations -----

  function Restrict(m: map<string, Impl>, keys: set<string>): map<string, Impl> {
    map k | k in keys && k in m :: m[k]
  }

  function Elements(keys: seq<string>): set<string> {
    set k | k in keys
  }

  function WithImpls<K(==)>(s: map<K, Stored>, id: K, impls: map<string, Impl>): map<K, Stored>
    requires id in s
  {
    s[id := s[id].(impls := impls)]
  }

  lemma ElementsStep(keys: seq<string>)
    requires keys != [] && Ascending(keys)
    ensures var n := |keys| - 1;
            Elements(keys) == Elements(keys[..n]) + {keys[n]} && keys[n] !in Elements(keys[..n])
  {
    var n := |keys| - 1;
    assert keys == keys[..n] + [keys[n]];
    forall i | 0 <= i < n ensures keys[i] != keys[n] {
      LessIrreflexive(keys[n]);
    }
  }

  /** After the removals and changes of the runtimes seen so far. */
  function Changed(plan: map<string, Impl>, state: map<string, Impl>, seen: set<string>): map<string, Impl> {
    (state - seen) + Restrict(plan, seen)
  }

  lemma {:induction false} ChangesExecute<K>(key: seq<Param> -> K, s: map<K, Stored>, ps: seq<Param>,
                                             keys: seq<string>, plan: map<string, Impl>, state: map<string, Impl>)
    requires key(ps) in s && s[key(ps)].impls == state
    requires Ascending(keys) && forall k :: k in keys ==> k in state
    requires forall k :: k in plan ==> plan[k].runtime == k
    requires forall k :: k in state ==> state[k].runtime == k
    ensures ExecuteAll(key, s, ImplChanges(ps, keys, plan, state)) ==
            Some(WithImpls(s, key(ps), Changed(plan, state, Elements(keys))))
  {
    var id := key(ps);
    hide ExecuteAll, ImplChanges, Changed, Elements;
    if keys == [] {
      NothingChanged(key, s, ps, plan, state);
    } else {
      var n := |keys| - 1;
      var x := keys[n];
      ChangesExecute(key, s, ps, keys[..n], plan, state);
      ElementsStep(keys);
      assert keys[..n + 1] == keys;
      ImplChangesStep(ps, keys, n, plan, state);
      ChangeExecutes(key, s, ps, x, plan, state, Elements(keys[..n]), ImplChanges(ps, keys[..n], plan, state),
                     ImplChanges(ps, keys, plan, state));
    }
  }

  lemma NothingChanged<K>(key: seq<Param> -> K, s: map<K, Stored>, ps: seq<Param>, plan: map<string, Impl>,
                          state: map<string, Impl>)
    requires key(ps) in s && s[key(ps)].impls == state
    ensures ExecuteAll(key, s, ImplChanges(ps, [], plan, state)) ==
            Some(WithImpls(s, key(ps), Changed(plan, state, Elements([]))))
  {
    assert Changed(plan, state, Elements([])) == state;
    assert WithImpls(s, key(ps), state) == s;
  }

  lemma ChangedStep(plan: map<string, Impl>, state: map<string, Impl>, seen: set<string>, x: string)
    requires x in state && x !in seen
    ensures var m, m' := Changed(plan, state, seen), Changed(plan, state, seen + {x});
            x in m && m' == if x !in plan then m - {x} else if plan[x] != state[x] then m[x := plan[x]] else m
  {
  }

  lemma WithImplsTwice<K>(s: map<K, Stored>, id: K, m: map<string, Impl>, m': map<string, Impl>)
    requires id in s
    ensures WithImpls(WithImpls(s, id, m), id, m') == WithImpls(s, id, m')
    ensures WithImpls(s, id, m)[id].impls == m
  {
  }

  /** One request about the implementations m of a stored definition. */
  lemma RemoveExecutes<K>(key: seq<Param> -> K, s: map<K, Stored>, ps: seq<Param>, m: map<string, Impl>, x: string)
    requires key(ps) in s && x in m
    ensures Execute(key, WithImpls(s, key(ps), m), RemoveImpl(ps, x)) == Some(WithImpls(s, key(ps), m - {x}))
  {
    WithImplsTwice(s, key(ps), m, m - {x});
  }

  lemma UpdateExecutes<K>(key: seq<Param> -> K, s: map<K, Stored>, ps: seq<Param>, m: map<string, Impl>, x: string,
                          impl: Impl)
    requires key(ps) in s && x in m && impl.runtime == x
    ensures Execute(key, WithImpls(s, key(ps), m), UpdateImpl(ps, x, impl)) == Some(WithImpls(s, key(ps), m[x := impl]))
  {
    WithImplsTwice(s, key(ps), m, m[x := impl]);
  }

  lemma AddExecutes<K>(key: seq<Param> -> K, s: map<K, Stored>, ps: seq<Param>, m: map<string, Impl>, impl: Impl)
    requires key(ps) in s && impl.runtime !in m
    ensures Execute(key, WithImpls(s, key(ps), m), AddImpl(ps, impl)) ==
            Some(WithImpls(s, key(ps), m[impl.runtime := impl]))
  {
    WithImplsTwice(s, key(ps), m, m[impl.runtime := impl]);
  }

  lemma ChangeExecutes<K>(key: seq<Param> -> K, s: map<K, Stored>, ps: seq<Param>, x: string, plan: map<string, Impl>,
                          state: map<string, Impl>, seen: set<string>, before: seq<Request>, after: seq<Request>)
    requires key(ps) in s && x in state && x !in seen
    requires (x in plan ==> plan[x].runtime == x) && state[x].runtime == x
    requires ExecuteAll(key, s, before) == Some(WithImpls(s, key(ps), Changed(plan, state, seen)))
    requires if x !in plan then after == before + [RemoveImpl(ps, state[x].runtime)]
             else if plan[x] != state[x] then after == before + [UpdateImpl(ps, plan[x].runtime, plan[x])]
             else after == before
    ensures ExecuteAll(key, s, after) == Some(WithImpls(s, key(ps), Changed(plan, state, seen + {x})))
  {
    hide Execute, ExecuteAll, Changed, WithImpls;
    ChangedStep(plan, state, seen, x);
    var m := Changed(plan, state, seen);
    if x !in plan {
      ExecuteSnoc(key, s, before, RemoveImpl(ps, x));
      RemoveExecutes(key, s, ps, m, x);
    } else if plan[x] != state[x] {
      ExecuteSnoc(key, s, before, UpdateImpl(ps, x, plan[x]));
      UpdateExecutes(key, s, ps, m, x, plan[x]);
    }
  }

  lemma {:induction false} AdditionsExecute<K>(key: seq<Param> -> K, s: map<K, Stored>, ps: seq<Param>,
                                               keys: seq<string>, plan: map<string, Impl>, state: map<string, Impl>)
    requires key(ps) in s && s[key(ps)].impls == Restrict(plan, state.Keys)
    requires Ascending(keys) && forall k :: k in keys ==> k in plan
    requires forall k :: k in plan ==> plan[k].runtime == k
    ensures ExecuteAll(key, s, ImplAdditions(ps, keys, plan, state)) ==
            Some(WithImpls(s, key(ps), Restrict(plan, state.Keys + Elements(keys))))
  {
    var id := key(ps);
    hide ExecuteAll, Restrict, Elements;
    if keys == [] {
      NothingAddedYet(key, s, ps, plan, state);
    } else {
      var n := |keys| - 1;
      AdditionsExecute(key, s, ps, keys[..n], plan, state);
      ElementsStep(keys);
      assert keys[..n + 1] == keys;
      AdditionExecutes(key, s, ps, keys[n], plan, state, Elements(keys[..n]), ImplAdditions(ps, keys[..n], plan, state),
                       ImplAdditions(ps, keys, plan, state));
    }
  }

  lemma NothingAddedYet<K>(key: seq<Param> -> K, s: map<K, Stored>, ps: seq<Param>, plan: map<string, Impl>,
                           state: map<string, Impl>)
    requires key(ps) in s && s[key(ps)].impls == Restrict(plan, state.Keys)
    ensures ExecuteAll(key, s, ImplAdditions(ps, [], plan, state)) ==
            Some(WithImpls(s, key(ps), Restrict(plan, state.Keys + Elements([]))))
  {
    var id := key(ps);
    assert Restrict(plan, state.Keys + Elements([])) == Restrict(plan, state.Keys);
    assert WithImpls(s, id, s[id].impls) == s;
  }

  lemma AdditionExecutes<K>(key: seq<Param> -> K, s: map<K, Stored>, ps: seq<Param>, x: string,
                            plan: map<string, Impl>, state: map<string, Impl>,
                         seen: set<string>, before: seq<Request>, after: seq<Request>)
    requires key(ps) in s && x in plan && x !in seen && plan[x].runtime == x
    requires ExecuteAll(key, s, before) == Some(WithImpls(s, key(ps), Restrict(plan, state.Keys + seen)))
    requires after == before + (if x !in state then [AddImpl(ps, plan[x])] else [])
    ensures ExecuteAll(key, s, after) == Some(WithImpls(s, key(ps), Restrict(plan, state.Keys + (seen + {x}))))
  {
    hide Execute, ExecuteAll, Restrict, WithImpls;
    var m := Restrict(plan, state.Keys + seen);
    RestrictStep(plan, state.Keys + seen, x);
    assert state.Keys + (seen + {x}) == state.Keys + seen + {x};
    if x !in state {
      ExecuteSnoc(key, s, before, AddImpl(ps, plan[x]));
      AddExecutes(key, s, ps, m, plan[x]);
    } else {
      assert after == before;
      assert state.Keys + seen + {x} == state.Keys + seen;
    }
  }

  lemma RestrictStep(plan: map<string, Impl>, keys: set<string>, x: string)
    requires x in plan
    ensures Restrict(plan, keys + {x}) == Restrict(plan, keys)[x := plan[x]]
    ensures x !in keys ==> x !in Restrict(plan, keys)
  {
  }

  lemma SortedElements(keys: set<string>)
    ensures Elements(Sorted(keys)) == keys
  {
  }

  /** The requests for the implementations of one kept definition are all accepted and leave exactly the
      planned implementations. */
  lemma ImplementationsExecute<K>(key: seq<Param> -> K, s: map<K, Stored>, plan: Definition, state: Definition)
    requires key(plan.parameters) in s && s[key(plan.parameters)].impls == IndexImpls(state.impls)
    ensures ExecuteAll(key, s, ImplementationRequests(plan, state)) ==
            Some(WithImpls(s, key(plan.parameters), IndexImpls(plan.impls)))
  {
    var p, q := IndexImpls(plan.impls), IndexImpls(state.impls);
    IndexedImpls(plan.impls);
    IndexedImpls(state.impls);
    SortedElements(q.Keys);
    SortedElements(p.Keys);
    PhasesExecute(key, s, plan.parameters, p, q);
  }

  lemma PhasesExecute<K>(key: seq<Param> -> K, s: map<K, Stored>, ps: seq<Param>, p: map<string, Impl>,
                         q: map<string, Impl>)
    requires key(ps) in s && s[key(ps)].impls == q
    requires forall k :: k in p ==> p[k].runtime == k
    requires forall k :: k in q ==> q[k].runtime == k
    ensures ExecuteAll(key, s, ImplChanges(ps, Sorted(q.Keys), p, q) + ImplAdditions(ps, Sorted(p.Keys), p, q)) ==
            Some(WithImpls(s, key(ps), p))
  {
    var id := key(ps);
    var kept := Restrict(p, q.Keys);
    var t := WithImpls(s, id, kept);
    FirstPhase(key, s, ps, p, q);
    WithImplsTwice(s, id, kept, p);
    SecondPhase(key, t, ps, p, q);
    ExecuteTwo(key, s, ImplChanges(ps, Sorted(q.Keys), p, q), t, ImplAdditions(ps, Sorted(p.Keys), p, q),
               WithImpls(t, id, p));
  }

  lemma FirstPhase<K>(key: seq<Param> -> K, s: map<K, Stored>, ps: seq<Param>, p: map<string, Impl>,
                      q: map<string, Impl>)
    requires key(ps) in s && s[key(ps)].impls == q
    requires forall k :: k in p ==> p[k].runtime == k
    requires forall k :: k in q ==> q[k].runtime == k
    ensures ExecuteAll(key, s, ImplChanges(ps, Sorted(q.Keys), p, q)) ==
            Some(WithImpls(s, key(ps), Restrict(p, q.Keys)))
  {
    hide ExecuteAll, ImplChanges;
    ChangesExecute(key, s, ps, Sorted(q.Keys), p, q);
    SortedElements(q.Keys);
    assert Changed(p, q, q.Keys) == Restrict(p, q.Keys);
  }

  lemma SecondPhase<K>(key: seq<Param> -> K, t: map<K, Stored>, ps: seq<Param>, p: map<string, Impl>,
                       q: map<string, Impl>)
    requires key(ps) in t && t[key(ps)].impls == Restrict(p, q.Keys)
    requires forall k :: k in p ==> p[k].runtime == k
    ensures ExecuteAll(key, t, ImplAdditions(ps, Sorted(p.Keys), p, q)) == Some(WithImpls(t, key(ps), p))
  {
    hide ExecuteAll, ImplAdditions;
    AdditionsExecute(key, t, ps, Sorted(p.Keys), p, q);
    SortedElements(p.Keys);
    assert Restrict(p, q.Keys + p.Keys) == p;
  }

  // ----- Definitions -----

  /** Whether the server's key tells kept definitions as the provider does: a planned and a stored
      definition of the same signature and shape are one definition to the server too. */
  ghost predicate Coherent<K>(key: seq<Param> -> K, plan: seq<Definition>, state: seq<Definition>) {
    forall i, k :: 0 <= i < |plan| && 0 <= k < |state| &&
                   Signature(plan[i]) == Signature(state[k]) && ShapeOf(plan[i]) == ShapeOf(state[k]) ==>
                     key(plan[i].parameters) == key(state[k].parameters)
  }

  /** Keys of the definitions that have no counterpart of the same shape. */
  ghost function Dropped<K>(key: seq<Param> -> K, state: seq<Definition>, planned: map<string, Definition>): set<K> {
    set i | 0 <= i < |state| && !Kept(state[i], planned) :: key(state[i].parameters)
  }

  lemma {:induction false} RemovalsExecute<K>(key: seq<Param> -> K, state: seq<Definition>, n: nat,
                                              planned: map<string, Definition>)
    requires UniqueKeys(key, state) && n <= |state|
    ensures ExecuteAll(key, ServerOf(key, state), Removals(state[..n], planned)) ==
            Some(ServerOf(key, state) - Dropped(key, state[..n], planned))
  {
    hide ExecuteAll, Removals, Dropped, ServerOf, UniqueKeys;
    if n == 0 {
      NothingDropped(key, ServerOf(key, state), planned);
      assert state[..0] == [];
    } else {
      RemovalsExecute(key, state, n - 1, planned);
      ServerHolds(key, state);
      RemovalsExecuteStep(key, ServerOf(key, state), state, n, planned);
    }
  }

  lemma NothingDropped<K>(key: seq<Param> -> K, s: map<K, Stored>, planned: map<string, Definition>)
    ensures ExecuteAll(key, s, Removals([], planned)) == Some(s - Dropped(key, [], planned))
  {
    assert s - Dropped(key, [], planned) == s;
  }

  lemma RemovalsExecuteStep<K>(key: seq<Param> -> K, s: map<K, Stored>, state: seq<Definition>, n: nat,
                               planned: map<string, Definition>)
    requires UniqueKeys(key, state) && 0 < n <= |state| && key(state[n - 1].parameters) in s
    requires ExecuteAll(key, s, Removals(state[..n - 1], planned)) == Some(s - Dropped(key, state[..n - 1], planned))
    ensures ExecuteAll(key, s, Removals(state[..n], planned)) == Some(s - Dropped(key, state[..n], planned))
  {
    hide ExecuteAll, Removals, Dropped, Kept, UniqueKeys;
    RemovalsStep(state, n - 1, planned);
    DroppedStep(key, state, n, planned);
    if !Kept(state[n - 1], planned) {
      RemovalExecutes(key, s, state[n - 1], Removals(state[..n - 1], planned), Dropped(key, state[..n - 1], planned));
    }
  }

  lemma RemovalExecutes<K>(key: seq<Param> -> K, s: map<K, Stored>, d: Definition, before: seq<Request>,
                           dropped: set<K>)
    requires key(d.parameters) in s && key(d.parameters) !in dropped
    requires ExecuteAll(key, s, before) == Some(s - dropped)
    ensures ExecuteAll(key, s, before + [RemoveDefinition(d.parameters)]) == Some(s - (dropped + {key(d.parameters)}))
  {
    ExecuteSnoc(key, s, before, RemoveDefinition(d.parameters));
    assert (s - dropped) - {key(d.parameters)} == s - (dropped + {key(d.parameters)});
  }

  lemma DroppedStep<K>(key: seq<Param> -> K, state: seq<Definition>, n: nat, planned: map<string, Definition>)
    requires UniqueKeys(key, state) && 0 < n <= |state|
    ensures var d := state[n - 1];
            Dropped(key, state[..n], planned) ==
            if Kept(d, planned) then Dropped(key, state[..n - 1], planned)
            else Dropped(key, state[..n - 1], planned) + {key(d.parameters)}
    ensures key(state[n - 1].parameters) !in Dropped(key, state[..n - 1], planned)
  {
    hide Kept;
    var a, b := state[..n - 1], state[..n];
    assert forall i :: 0 <= i < n - 1 ==> a[i] == b[i];
    assert b[n - 1] == state[n - 1];
  }

  /** The server after the removals: the kept definitions, as they were. */
  ghost function Remaining<K>(key: seq<Param> -> K, plan: seq<Definition>, state: seq<Definition>): map<K, Stored> {
    ServerOf(key, state) - Dropped(key, state, IndexDefinitions(plan))
  }

  /** A stored definition is kept exactly when some planned one of its signature is. */
  lemma Counterpart(plan: seq<Definition>, state: seq<Definition>, k: nat)
    requires UniqueSignatures(plan) && UniqueSignatures(state) && k < |state|
    requires Kept(state[k], IndexDefinitions(plan))
    ensures exists i :: 0 <= i < |plan| && Signature(plan[i]) == Signature(state[k]) &&
                        ShapeOf(plan[i]) == ShapeOf(state[k]) &&
                        Kept(plan[i], IndexDefinitions(state))
  {
    hide Signature, ShapeOf;
    IndexedDefinitions(plan);
    IndexedDefinitions(state);
  }

  lemma StoredCounterpart(plan: seq<Definition>, state: seq<Definition>, i: nat)
    requires UniqueSignatures(plan) && UniqueSignatures(state) && i < |plan|
    requires Kept(plan[i], IndexDefinitions(state))
    ensures exists k :: 0 <= k < |state| && Signature(plan[i]) == Signature(state[k]) &&
                        ShapeOf(plan[i]) == ShapeOf(state[k]) &&
                        state[k] == IndexDefinitions(state)[Signature(plan[i])] &&
                        Kept(state[k], IndexDefinitions(plan))
  {
    hide Signature, ShapeOf;
    IndexedDefinitions(plan);
    IndexedDefinitions(state);
  }

  /** A kept definition is still there after the removals. */
  lemma KeptRemains<K>(key: seq<Param> -> K, plan: seq<Definition>, state: seq<Definition>, i: nat)
    requires UniqueSignatures(plan) && UniqueSignatures(state) && UniqueKeys(key, state) && Coherent(key, plan, state)
    requires i < |plan| && Kept(plan[i], IndexDefinitions(state))
    ensures var d := plan[i];
            key(d.parameters) in Remaining(key, plan, state) &&
            Remaining(key, plan, state)[key(d.parameters)] == Store(IndexDefinitions(state)[Signature(d)])
  {
    hide Signature, ShapeOf, Store, ServerOf, IndexDefinitions, UniqueSignatures;
    StoredCounterpart(plan, state, i);
    var k :| 0 <= k < |state| && Signature(plan[i]) == Signature(state[k]) && ShapeOf(plan[i]) == ShapeOf(state[k]) &&
             state[k] == IndexDefinitions(state)[Signature(plan[i])] && Kept(state[k], IndexDefinitions(plan));
    ServerHolds(key, state);
    KeptNotDropped(key, plan, state, k);
  }

  lemma KeptNotDropped<K>(key: seq<Param> -> K, plan: seq<Definition>, state: seq<Definition>, k: nat)
    requires UniqueKeys(key, state) && k < |state| && Kept(state[k], IndexDefinitions(plan))
    ensures key(state[k].parameters) !in Dropped(key, state, IndexDefinitions(plan))
  {
    hide Signature, ShapeOf, Kept, IndexDefinitions;
    forall j | 0 <= j < |state| && !Kept(state[j], IndexDefinitions(plan))
      ensures key(state[j].parameters) != key(state[k].parameters)
    {
      assert j < k || k < j;
    }
  }

  /** What is left after the removals is the key of a kept planned definition. */
  lemma RemainingPlanned<K>(key: seq<Param> -> K, plan: seq<Definition>, state: seq<Definition>, id: K)
    requires UniqueSignatures(plan) && UniqueSignatures(state) && Coherent(key, plan, state)
    requires id in Remaining(key, plan, state)
    ensures exists i :: 0 <= i < |plan| && key(plan[i].parameters) == id && Kept(plan[i], IndexDefinitions(state))
  {
    hide Signature, ShapeOf, ServerOf, IndexDefinitions, UniqueSignatures, Kept;
    ServerHolds(key, state);
    var k :| 0 <= k < |state| && key(state[k].parameters) == id;
    assert Kept(state[k], IndexDefinitions(plan));
    Counterpart(plan, state, k);
    var i :| 0 <= i < |plan| && Signature(plan[i]) == Signature(state[k]) && ShapeOf(plan[i]) == ShapeOf(state[k]) &&
             Kept(plan[i], IndexDefinitions(state));
  }

  lemma {:induction false} PlanExecutes<K>(key: seq<Param> -> K, plan: seq<Definition>, state: seq<Definition>, n: nat)
    requires UniqueSignatures(plan) && UniqueSignatures(state) && n <= |plan|
    requires UniqueKeys(key, plan) && UniqueKeys(key, state) && Coherent(key, plan, state)
    requires forall i :: 0 <= i < |plan| ==> UniqueRuntimes(plan[i].impls)
    ensures ExecuteAll(key, Remaining(key, plan, state), Additions(plan[..n], IndexDefinitions(state))) ==
            Some(Remaining(key, plan, state) + ServerOf(key, plan[..n]))
  {
    hide UniqueSignatures, Coherent, Remaining, Kept, UniqueRuntimes, Signature, IndexDefinitions, Additions,
      ExecuteAll;
    var s := Remaining(key, plan, state);
    var current := IndexDefinitions(state);
    if n == 0 {
      NothingPlanned(key, s, plan, current);
    } else {
      PlanExecutes(key, plan, state, n - 1);
      var d := plan[n - 1];
      if Kept(d, current) {
        KeptRemains(key, plan, state, n - 1);
      } else if key(d.parameters) in s {
        RemainingPlanned(key, plan, state, key(d.parameters));
        assert false;
      }
      NotYetStored(key, plan, n);
      PlanStep(key, s, plan, n, current, Additions(plan[..n - 1], current));
      AdditionsStep(plan, n - 1, current, []);
      assert [] + Additions(plan[..n - 1], current) == Additions(plan[..n - 1], current);
      assert [] + Additions(plan[..n], current) == Additions(plan[..n], current);
    }
  }

  lemma NothingPlanned<K>(key: seq<Param> -> K, s: map<K, Stored>, plan: seq<Definition>,
                          current: map<string, Definition>)
    ensures ExecuteAll(key, s, Additions(plan[..0], current)) == Some(s + ServerOf(key, plan[..0]))
  {
    assert s + ServerOf(key, plan[..0]) == s;
  }

  lemma NotYetStored<K>(key: seq<Param> -> K, plan: seq<Definition>, n: nat)
    requires UniqueKeys(key, plan) && 0 < n <= |plan|
    ensures key(plan[n - 1].parameters) !in ServerOf(key, plan[..n - 1])
  {
    ServerHolds(key, plan[..n - 1]);
  }

  lemma PlanStep<K>(key: seq<Param> -> K, s: map<K, Stored>, plan: seq<Definition>, n: nat,
                    current: map<string, Definition>, before: seq<Request>)
    requires 0 < n <= |plan| && UniqueRuntimes(plan[n - 1].impls)
    requires ExecuteAll(key, s, before) == Some(s + ServerOf(key, plan[..n - 1]))
    requires key(plan[n - 1].parameters) !in ServerOf(key, plan[..n - 1])
    requires var d := plan[n - 1];
             if Kept(d, current) then key(d.parameters) in s && s[key(d.parameters)] == Store(current[Signature(d)])
             else key(d.parameters) !in s
    ensures var d := plan[n - 1];
            ExecuteAll(key, s, before + (if Kept(d, current) then ImplementationRequests(d, current[Signature(d)])
                                         else [AddDefinition(d)])) == Some(s + ServerOf(key, plan[..n]))
  {
    hide Signature, ImplementationRequests, ExecuteAll;
    var d := plan[n - 1];
    var id := key(d.parameters);
    var t := s + ServerOf(key, plan[..n - 1]);
    MergeStep(key, s, plan, n);
    if Kept(d, current) {
      ImplementationsExecute(key, t, d, current[Signature(d)]);
      assert WithImpls(t, id, IndexImpls(d.impls)) == t[id := Store(d)];
      ExecuteTwo(key, s, before, t, ImplementationRequests(d, current[Signature(d)]), s + ServerOf(key, plan[..n]));
    } else {
      ExecuteSnoc(key, s, before, AddDefinition(d));
    }
  }

  lemma MergeStep<K>(key: seq<Param> -> K, s: map<K, Stored>, plan: seq<Definition>, n: nat)
    requires 0 < n <= |plan|
    ensures var d := plan[n - 1];
            (s + ServerOf(key, plan[..n - 1]))[key(d.parameters) := Store(d)] == s + ServerOf(key, plan[..n])
  {
    assert plan[..n][..n - 1] == plan[..n - 1];
  }

  /** Executing the whole request list on a server that holds the state under keys of its own: no request
      is refused, so nothing absent is removed or updated and nothing present is added, and the server
      ends with exactly the plan. */
  lemma UpdatesReachPlan<K>(key: seq<Param> -> K, plan: seq<Definition>, state: seq<Definition>)
    requires UniqueSignatures(plan) && UniqueSignatures(state)
    requires UniqueKeys(key, plan) && UniqueKeys(key, state) && Coherent(key, plan, state)
    requires forall i :: 0 <= i < |plan| ==> UniqueRuntimes(plan[i].impls)
    ensures ExecuteAll(key, ServerOf(key, state), DefinitionRequests(plan, state)) == Some(ServerOf(key, plan))
  {
    hide UniqueSignatures, Coherent, UniqueKeys, UniqueRuntimes, ServerOf, ExecuteAll, Removals, Additions,
      IndexDefinitions;
    RemovalsExecute(key, state, |state|, IndexDefinitions(plan));
    assert state[..|state|] == state;
    PlanExecutes(key, plan, state, |plan|);
    assert plan[..|plan|] == plan;
    ServerHolds(key, plan);
    forall id | id in Remaining(key, plan, state) ensures id in ServerOf(key, plan) {
      RemainingPlanned(key, plan, state, id);
    }
    assert Remaining(key, plan, state) + ServerOf(key, plan) == ServerOf(key, plan);
    ExecuteConcat(key, ServerOf(key, state), Removals(state, IndexDefinitions(plan)),
                  Additions(plan, IndexDefinitions(state)));
  }

  // ----- Which plans a server accepts -----

  /** Whether the request concerns an implementation of a definition already stored. */
  predicate WithinDefinition(r: Request) {
    r.RemoveImpl? || r.UpdateImpl? || r.AddImpl?
  }

  lemma {:induction false} ChangesStayWithin(ps: seq<Param>, keys: seq<string>, plan: map<string, Impl>,
                                             state: map<string, Impl>)
    requires forall k :: k in keys ==> k in state
    ensures forall r :: r in ImplChanges(ps, keys, plan, state) ==> WithinDefinition(r)
  {
    if keys != [] {
      ChangesStayWithin(ps, keys[..|keys| - 1], plan, state);
    }
  }

  lemma {:induction false} AdditionsStayWithin(ps: seq<Param>, keys: seq<string>, plan: map<string, Impl>,
                                               state: map<string, Impl>)
    requires forall k :: k in keys ==> k in plan
    ensures forall r :: r in ImplAdditions(ps, keys, plan, state) ==> WithinDefinition(r)
  {
    if keys != [] {
      AdditionsStayWithin(ps, keys[..|keys| - 1], plan, state);
    }
  }

  lemma RequestsStayWithin(plan: Definition, state: Definition)
    ensures forall r :: r in ImplementationRequests(plan, state) ==> WithinDefinition(r)
  {
    var p, s := IndexImpls(plan.impls), IndexImpls(state.impls);
    ChangesStayWithin(plan.parameters, Sorted(s.Keys), p, s);
    AdditionsStayWithin(plan.parameters, Sorted(p.Keys), p, s);
  }

  lemma {:induction false} KeysStay<K>(key: seq<Param> -> K, s: map<K, Stored>, rs: seq<Request>)
    requires forall r :: r in rs ==> WithinDefinition(r)
    requires ExecuteAll(key, s, rs).Some?
    ensures ExecuteAll(key, s, rs).value.Keys == s.Keys
  {
    if rs != [] {
      KeysStay(key, s, rs[..|rs| - 1]);
      assert WithinDefinition(rs[|rs| - 1]);
    }
  }

  /** Keys of the definitions that the request list adds anew. */
  ghost function Added<K>(key: seq<Param> -> K, plan: seq<Definition>, current: map<string, Definition>): set<K> {
    set i | 0 <= i < |plan| && !Kept(plan[i], current) :: key(plan[i].parameters)
  }

  lemma AddedStep<K>(key: seq<Param> -> K, plan: seq<Definition>, n: nat, current: map<string, Definition>)
    requires 0 < n <= |plan|
    ensures var d := plan[n - 1];
            Added(key, plan[..n], current) ==
            if Kept(d, current) then Added(key, plan[..n - 1], current)
            else Added(key, plan[..n - 1], current) + {key(d.parameters)}
  {
    hide Kept;
    var a, b := plan[..n - 1], plan[..n];
    assert forall i :: 0 <= i < n - 1 ==> a[i] == b[i];
    assert b[n - 1] == plan[n - 1];
  }

  /** A run of the additions that is accepted adds every new definition under a key not yet taken. */
  lemma {:induction false} AcceptedAdditions<K>(key: seq<Param> -> K, s: map<K, Stored>, plan: seq<Definition>, n: nat,
                                                current: map<string, Definition>)
    requires n <= |plan| && ExecuteAll(key, s, Additions(plan[..n], current)).Some?
    ensures ExecuteAll(key, s, Additions(plan[..n], current)).value.Keys == s.Keys + Added(key, plan[..n], current)
    ensures forall i :: 0 <= i < n && !Kept(plan[i], current) ==>
              key(plan[i].parameters) !in s && key(plan[i].parameters) !in Added(key, plan[..i], current)
  {
    hide ImplementationRequests, ExecuteAll, Execute, Additions, ShapeOf, Signature, Added;
    if n == 0 {
      NothingAddedAtAll(key, s, plan, current);
    } else {
      var before := Additions(plan[..n - 1], current);
      var d := plan[n - 1];
      var more := if Kept(d, current) then ImplementationRequests(d, current[Signature(d)]) else [AddDefinition(d)];
      AdditionsStep(plan, n - 1, current, []);
      assert [] + Additions(plan[..n], current) == Additions(plan[..n], current);
      assert [] + before + more == before + more;
      ExecuteConcat(key, s, before, more);
      AcceptedAdditions(key, s, plan, n - 1, current);
      AddedStep(key, plan, n, current);
      var t := ExecuteAll(key, s, before).value;
      if Kept(d, current) {
        RequestsStayWithin(d, current[Signature(d)]);
        KeysStay(key, t, more);
      } else {
        AddedOnce(key, t, d);
      }
    }
  }

  lemma NothingAddedAtAll<K>(key: seq<Param> -> K, s: map<K, Stored>, plan: seq<Definition>,
                             current: map<string, Definition>)
    ensures ExecuteAll(key, s, Additions(plan[..0], current)) == Some(s)
    ensures s.Keys == s.Keys + Added(key, plan[..0], current)
  {
  }

  lemma AddedOnce<K>(key: seq<Param> -> K, t: map<K, Stored>, d: Definition)
    requires ExecuteAll(key, t, [AddDefinition(d)]).Some?
    ensures key(d.parameters) !in t
    ensures ExecuteAll(key, t, [AddDefinition(d)]).value.Keys == t.Keys + {key(d.parameters)}
  {
    ExecuteSnoc(key, t, [], AddDefinition(d));
    assert [] + [AddDefinition(d)] == [AddDefinition(d)];
  }

  /** Two kept definitions of the plan have two counterparts, and so two keys. */
  lemma KeptApart<K>(key: seq<Param> -> K, plan: seq<Definition>, state: seq<Definition>, i: nat, k: nat)
    requires UniqueSignatures(plan) && UniqueSignatures(state) && UniqueKeys(key, state) && Coherent(key, plan, state)
    requires i < k < |plan| && Kept(plan[i], IndexDefinitions(state)) && Kept(plan[k], IndexDefinitions(state))
    ensures key(plan[i].parameters) != key(plan[k].parameters)
  {
    hide Signature, ShapeOf, IndexDefinitions;
    StoredCounterpart(plan, state, i);
    StoredCounterpart(plan, state, k);
    var a :| 0 <= a < |state| && Signature(plan[i]) == Signature(state[a]) && ShapeOf(plan[i]) == ShapeOf(state[a]) &&
             Kept(state[a], IndexDefinitions(plan));
    var b :| 0 <= b < |state| && Signature(plan[k]) == Signature(state[b]) && ShapeOf(plan[k]) == ShapeOf(state[b]) &&
             Kept(state[b], IndexDefinitions(plan));
    assert a < b || b < a;
  }

  lemma AcceptedApart<K>(key: seq<Param> -> K, plan: seq<Definition>, state: seq<Definition>, i: nat, k: nat)
    requires UniqueSignatures(plan) && UniqueSignatures(state) && UniqueKeys(key, state) && Coherent(key, plan, state)
    requires i < k < |plan|
    requires ExecuteAll(key, Remaining(key, plan, state), Additions(plan, IndexDefinitions(state))).Some?
    ensures key(plan[i].parameters) != key(plan[k].parameters)
  {
    hide UniqueSignatures, UniqueKeys, Coherent, Remaining, Kept, Additions, ExecuteAll, IndexDefinitions, Signature;
    var current := IndexDefinitions(state);
    assert plan[..|plan|] == plan;
    AcceptedAdditions(key, Remaining(key, plan, state), plan, |plan|, current);
    if Kept(plan[i], current) && Kept(plan[k], current) {
      KeptApart(key, plan, state, i, k);
    } else if Kept(plan[i], current) {
      KeptRemains(key, plan, state, i);
    } else if Kept(plan[k], current) {
      KeptRemains(key, plan, state, k);
    } else {
      assert plan[..k][i] == plan[i];
      assert key(plan[i].parameters) in Added(key, plan[..k], current);
    }
  }

  /** A server that keeps definitions under keys of its own accepts the whole request list exactly when
      no two planned definitions have the same key, and then holds the plan. */
  lemma AcceptedExactly<K>(key: seq<Param> -> K, plan: seq<Definition>, state: seq<Definition>)
    requires UniqueSignatures(plan) && UniqueSignatures(state) && UniqueKeys(key, state) && Coherent(key, plan, state)
    requires forall i :: 0 <= i < |plan| ==> UniqueRuntimes(plan[i].impls)
    ensures var end := ExecuteAll(key, ServerOf(key, state), DefinitionRequests(plan, state));
            end.Some? <==> UniqueKeys(key, plan)
    ensures UniqueKeys(key, plan) ==>
              ExecuteAll(key, ServerOf(key, state), DefinitionRequests(plan, state)) == Some(ServerOf(key, plan))
  {
    hide UniqueSignatures, Coherent, UniqueRuntimes, ServerOf, ExecuteAll, Removals, Additions, IndexDefinitions;
    if UniqueKeys(key, plan) {
      UpdatesReachPlan(key, plan, state);
    }
    if ExecuteAll(key, ServerOf(key, state), DefinitionRequests(plan, state)).Some? {
      RemovalsExecute(key, state, |state|, IndexDefinitions(plan));
      assert state[..|state|] == state;
      ExecuteConcat(key, ServerOf(key, state), Removals(state, IndexDefinitions(plan)),
                    Additions(plan, IndexDefinitions(state)));
      forall i, k | 0 <= i < k < |plan| ensures key(plan[i].parameters) != key(plan[k].parameters) {
        AcceptedApart(key, plan, state, i, k);
      }
    }
  }

  // ----- When nothing is sent -----

  lemma {:induction false} NothingRemoved(state: seq<Definition>, planned: map<string, Definition>)
    requires forall i :: 0 <= i < |state| ==> Kept(state[i], planned)
    ensures Removals(state, planned) == []
  {
    if state != [] {
      NothingRemoved(state[..|state| - 1], planned);
    }
  }

  lemma {:induction false} NothingAdded(plan: seq<Definition>, current: map<string, Definition>)
    requires forall i :: 0 <= i < |plan| ==>
               Kept(plan[i], current) && IndexImpls(plan[i].impls) == IndexImpls(current[Signature(plan[i])].impls)
    ensures Additions(plan, current) == []
  {
    if plan != [] {
      var n := |plan| - 1;
      NothingAdded(plan[..n], current);
      var p := IndexImpls(plan[n].impls);
      NoImplChanges(plan[n].parameters, Sorted(p.Keys), p);
    }
  }

  lemma {:induction false} NoImplChanges(ps: seq<Param>, keys: seq<string>, m: map<string, Impl>)
    requires forall k :: k in keys ==> k in m
    ensures ImplChanges(ps, keys, m, m) == [] && ImplAdditions(ps, keys, m, m) == []
  {
    if keys != [] {
      NoImplChanges(ps, keys[..|keys| - 1], m);
    }
  }

  /** No request is sent exactly when the server already holds the plan. */
  lemma EmptyExactlyWhenEqual(plan: seq<Definition>, state: seq<Definition>)
    requires UniqueSignatures(plan) && UniqueSignatures(state)
    requires forall i :: 0 <= i < |plan| ==> UniqueRuntimes(plan[i].impls)
    ensures DefinitionRequests(plan, state) == [] <==> ServerOf(SignatureOf, plan) == ServerOf(SignatureOf, state)
  {
    if DefinitionRequests(plan, state) == [] {
      UpdatesReachPlan(SignatureOf, plan, state);
    }
    if ServerOf(SignatureOf, plan) == ServerOf(SignatureOf, state) {
      EqualServersKeep(plan, state);
      EqualServersKeep(state, plan);
      NothingRemoved(state, IndexDefinitions(plan));
      NothingAdded(plan, IndexDefinitions(state));
    }
  }

  lemma EqualServersKeep(a: seq<Definition>, b: seq<Definition>)
    requires UniqueSignatures(a) && UniqueSignatures(b) && ServerOf(SignatureOf, a) == ServerOf(SignatureOf, b)
    ensures var other := IndexDefinitions(b);
            forall i :: 0 <= i < |a| ==>
              Kept(a[i], other) && IndexImpls(a[i].impls) == IndexImpls(other[Signature(a[i])].impls)
  {
    ServerHolds(SignatureOf, a);
    ServerHolds(SignatureOf, b);
    IndexedDefinitions(b);
    IndexedDefinitions(a);
    forall i | 0 <= i < |a|
      ensures var other := IndexDefinitions(b);
              Kept(a[i], other) && IndexImpls(a[i].impls) == IndexImpls(other[Signature(a[i])].impls)
    {
      assert ServerOf(SignatureOf, a)[Signature(a[i])] == Store(a[i]);
    }
  }
}
