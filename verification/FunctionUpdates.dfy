/** The diff of function definitions into an ordered request list, and a server that executes it. */
module FunctionUpdates {
  import opened Common
  import opened Order
  import opened Functions

  datatype Request =
    | RemoveDefinition(parameters: seq<Param>)
    | AddDefinition(definition: Definition)
    | RemoveImpl(parameters: seq<Param>, runtime: string)
    | UpdateImpl(parameters: seq<Param>, runtime: string, impl: Impl)
    | AddImpl(parameters: seq<Param>, impl: Impl)

  // ----- Indexes: the first entry of a key wins -----

  function IndexDefinitions(ds: seq<Definition>): map<string, Definition> {
    if ds == [] then map[]
    else
      var n := |ds| - 1;
      var m := IndexDefinitions(ds[..n]);
      if Signature(ds[n]) in m then m else m[Signature(ds[n]) := ds[n]]
  }

  function IndexImpls(impls: seq<Impl>): map<string, Impl> {
    if impls == [] then map[]
    else
      var n := |impls| - 1;
      var m := IndexImpls(impls[..n]);
      if impls[n].runtime in m then m else m[impls[n].runtime := impls[n]]
  }

  method BuildDefinitionIndex(ds: seq<Definition>) returns (indexed: map<string, Definition>)
    ensures indexed == IndexDefinitions(ds)
  {
    indexed := map[];
    for i := 0 to |ds|
      invariant indexed == IndexDefinitions(ds[..i])
    {
      assert ds[..i + 1][..i] == ds[..i];
      var signature := Signature(ds[i]);
      if signature !in indexed {
        indexed := indexed[signature := ds[i]];
      }
    }
    assert ds[..|ds|] == ds;
  }

  method BuildImplIndex(impls: seq<Impl>) returns (indexed: map<string, Impl>)
    ensures indexed == IndexImpls(impls)
  {
    indexed := map[];
    for i := 0 to |impls|
      invariant indexed == IndexImpls(impls[..i])
    {
      assert impls[..i + 1][..i] == impls[..i];
      var key := impls[i].runtime;
      if key !in indexed {
        indexed := indexed[key := impls[i]];
      }
    }
    assert impls[..|impls|] == impls;
  }

  // ----- The request list -----

  /** Removals and changes of the implementations with the given runtimes. */
  function ImplChanges(ps: seq<Param>, keys: seq<string>, plan: map<string, Impl>,
                       state: map<string, Impl>): seq<Request>
    requires forall k :: k in keys ==> k in state
  {
    if keys == [] then []
    else
      var n := |keys| - 1;
      var key := keys[n];
      ImplChanges(ps, keys[..n], plan, state) +
      (if key !in plan then [RemoveImpl(ps, state[key].runtime)]
       else if plan[key] != state[key] then [UpdateImpl(ps, plan[key].runtime, plan[key])]
       else [])
  }

  function ImplAdditions(ps: seq<Param>, keys: seq<string>, plan: map<string, Impl>,
                         state: map<string, Impl>): seq<Request>
    requires forall k :: k in keys ==> k in plan
  {
    if keys == [] then []
    else
      var n := |keys| - 1;
      var key := keys[n];
      ImplAdditions(ps, keys[..n], plan, state) + (if key !in state then [AddImpl(ps, plan[key])] else [])
  }

  ghost function ImplementationRequests(plan: Definition, state: Definition): seq<Request> {
    var p, s := IndexImpls(plan.impls), IndexImpls(state.impls);
    ImplChanges(plan.parameters, Sorted(s.Keys), p, s) + ImplAdditions(plan.parameters, Sorted(p.Keys), p, s)
  }

  /** Whether the definition has a counterpart of the same signature and shape. */
  predicate Kept(d: Definition, others: map<string, Definition>) {
    Signature(d) in others && ShapeOf(others[Signature(d)]) == ShapeOf(d)
  }

  function Removals(state: seq<Definition>, planned: map<string, Definition>): seq<Request> {
    if state == [] then []
    else
      var n := |state| - 1;
      Removals(state[..n], planned) + (if Kept(state[n], planned) then [] else [RemoveDefinition(state[n].parameters)])
  }

  ghost function Additions(plan: seq<Definition>, current: map<string, Definition>): seq<Request> {
    if plan == [] then []
    else
      var n := |plan| - 1;
      Additions(plan[..n], current) +
      (if Kept(plan[n], current) then ImplementationRequests(plan[n], current[Signature(plan[n])])
       else [AddDefinition(plan[n])])
  }

  ghost function DefinitionRequests(plan: seq<Definition>, state: seq<Definition>): seq<Request> {
    Removals(state, IndexDefinitions(plan)) + Additions(plan, IndexDefinitions(state))
  }

  lemma ImplChangesStep(ps: seq<Param>, keys: seq<string>, i: nat, plan: map<string, Impl>, state: map<string, Impl>)
    requires i < |keys| && forall k :: k in keys ==> k in state
    ensures keys[i] in state && forall k :: k in keys[..i + 1] ==> k in state
    ensures var before, after := ImplChanges(ps, keys[..i], plan, state), ImplChanges(ps, keys[..i + 1], plan, state);
            if keys[i] !in plan then after == before + [RemoveImpl(ps, state[keys[i]].runtime)]
            else if plan[keys[i]] != state[keys[i]] then
              after == before + [UpdateImpl(ps, plan[keys[i]].runtime, plan[keys[i]])]
            else after == before
  {
    assert keys[..i + 1][..i] == keys[..i];
  }

  lemma ImplAdditionsStep(ps: seq<Param>, keys: seq<string>, i: nat, plan: map<string, Impl>, state: map<string, Impl>,
                          front: seq<Request>)
    requires i < |keys| && forall k :: k in keys ==> k in plan
    ensures keys[i] in plan && forall k :: k in keys[..i + 1] ==> k in plan
    ensures var before, after := front + ImplAdditions(ps, keys[..i], plan, state),
                                 front + ImplAdditions(ps, keys[..i + 1], plan, state);
            after == if keys[i] !in state then before + [AddImpl(ps, plan[keys[i]])] else before
  {
    assert keys[..i + 1][..i] == keys[..i];
  }

  method ImplementationUpdates(plan: Definition, state: Definition) returns (updates: seq<Request>)
    ensures updates == ImplementationRequests(plan, state)
  {
    hide IndexImpls, Sorted, SignatureOf;
    var planImpls := BuildImplIndex(plan.impls);
    var stateImpls := BuildImplIndex(state.impls);
    updates := [];
    var stateKeys := SortedKeys(stateImpls.Keys);
    for i := 0 to |stateKeys|
      invariant updates == ImplChanges(plan.parameters, stateKeys[..i], planImpls, stateImpls)
    {
      ImplChangesStep(plan.parameters, stateKeys, i, planImpls, stateImpls);
      var key := stateKeys[i];
      var stateImpl := stateImpls[key];
      if key !in planImpls {
        updates := updates + [RemoveImpl(plan.parameters, stateImpl.runtime)];
        continue;
      }
      var planImpl := planImpls[key];
      if planImpl != stateImpl {
        updates := updates + [UpdateImpl(plan.parameters, planImpl.runtime, planImpl)];
      }
    }
    ghost var changes := updates;
    assert stateKeys[..|stateKeys|] == stateKeys;
    var planKeys := SortedKeys(planImpls.Keys);
    for i := 0 to |planKeys|
      invariant updates == changes + ImplAdditions(plan.parameters, planKeys[..i], planImpls, stateImpls)
    {
      ImplAdditionsStep(plan.parameters, planKeys, i, planImpls, stateImpls, changes);
      var key := planKeys[i];
      if key !in stateImpls {
        updates := updates + [AddImpl(plan.parameters, planImpls[key])];
      }
    }
    assert planKeys[..|planKeys|] == planKeys;
  }

  lemma RemovalsStep(state: seq<Definition>, i: nat, planned: map<string, Definition>)
    requires i < |state|
    ensures var before, after := Removals(state[..i], planned), Removals(state[..i + 1], planned);
            after == if Kept(state[i], planned) then before else before + [RemoveDefinition(state[i].parameters)]
  {
    assert state[..i + 1][..i] == state[..i];
  }

  lemma AdditionsStep(plan: seq<Definition>, i: nat, current: map<string, Definition>, front: seq<Request>)
    requires i < |plan|
    ensures var before, after := front + Additions(plan[..i], current), front + Additions(plan[..i + 1], current);
            after == before +
            (if Kept(plan[i], current) then ImplementationRequests(plan[i], current[Signature(plan[i])])
             else [AddDefinition(plan[i])])
  {
    hide Kept, ImplementationRequests, Signature;
    assert plan[..i + 1][..i] == plan[..i];
  }

  method DefinitionUpdates(plan: seq<Definition>, state: seq<Definition>) returns (updates: seq<Request>)
    ensures updates == DefinitionRequests(plan, state)
  {
    updates := [];
    var planBySignature := BuildDefinitionIndex(plan);
    var stateBySignature := BuildDefinitionIndex(state);
    for i := 0 to |state|
      invariant updates == Removals(state[..i], planBySignature)
    {
      RemovalsStep(state, i, planBySignature);
      if Signature(state[i]) !in planBySignature || ShapeOf(planBySignature[Signature(state[i])]) != ShapeOf(state[i]) {
        updates := updates + [RemoveDefinition(state[i].parameters)];
      }
    }
    ghost var removals := updates;
    assert state[..|state|] == state;
    for i := 0 to |plan|
      invariant updates == removals + Additions(plan[..i], stateBySignature)
    {
      AdditionsStep(plan, i, stateBySignature, removals);
      if Signature(plan[i]) !in stateBySignature || ShapeOf(stateBySignature[Signature(plan[i])]) != ShapeOf(plan[i]) {
        updates := updates + [AddDefinition(plan[i])];
        continue;
      }
      var changes := ImplementationUpdates(plan[i], stateBySignature[Signature(plan[i])]);
      updates := updates + changes;
    }
    assert plan[..|plan|] == plan;
  }

  // ----- The server -----

  /** What the server keeps of a definition: its shape, and its implementations by runtime. */
  datatype Stored = Stored(shape: Shape, impls: map<string, Impl>)

  function Store(d: Definition): Stored {
    Stored(ShapeOf(d), IndexImpls(d.impls))
  }

  /** A server that identifies a definition by some key of its parameters, as the provider does by the
      signature text. */
  function ServerOf<K(==)>(key: seq<Param> -> K, ds: seq<Definition>): map<K, Stored> {
    if ds == [] then map[]
    else
      var n := |ds| - 1;
      ServerOf(key, ds[..n])[key(ds[n].parameters) := Store(ds[n])]
  }

  /** Executing one request; nothing when the server refuses it. */
  function Execute<K(==)>(key: seq<Param> -> K, s: map<K, Stored>, r: Request): Option<map<K, Stored>> {
    match r
    case RemoveDefinition(ps) =>
      if key(ps) in s then Some(s - {key(ps)}) else None
    case AddDefinition(d) =>
      if key(d.parameters) !in s && UniqueRuntimes(d.impls) then Some(s[key(d.parameters) := Store(d)]) else None
    case RemoveImpl(ps, runtime) =>
      if key(ps) in s && runtime in s[key(ps)].impls then
        Some(s[key(ps) := s[key(ps)].(impls := s[key(ps)].impls - {runtime})])
      else None
    case UpdateImpl(ps, runtime, impl) =>
      if key(ps) in s && runtime in s[key(ps)].impls && impl.runtime == runtime then
        Some(s[key(ps) := s[key(ps)].(impls := s[key(ps)].impls[runtime := impl])])
      else None
    case AddImpl(ps, impl) =>
      if key(ps) in s && impl.runtime !in s[key(ps)].impls then
        Some(s[key(ps) := s[key(ps)].(impls := s[key(ps)].impls[impl.runtime := impl])])
      else None
  }

  /** Executing a request list in order. */
  function ExecuteAll<K(==)>(key: seq<Param> -> K, s: map<K, Stored>, rs: seq<Request>): Option<map<K, Stored>> {
    if rs == [] then Some(s)
    else
      var n := |rs| - 1;
      var t :- ExecuteAll(key, s, rs[..n]);
      Execute(key, t, rs[n])
  }
}
