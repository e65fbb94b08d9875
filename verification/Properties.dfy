/** The diff of managed properties into set and remove requests, the server that executes it, and the merge
    of the server's answer. Tables, catalogs and metalakes differ in the keys they reserve, in the order
    in which they walk the maps, and in that only tables sort the requests. */
module Properties {
  import opened Common
  import opened Order

  datatype Request = SetProperty(property: string, value: string) | RemoveProperty(property: string)

  type PropertyMap = map<string, string>

  /** Gravitino manages these keys itself. A catalog filters none of them out of its requests. */
  const TABLE_RESERVED: set<string> := {"in-use"}
  const METALAKE_RESERVED: set<string> := {"in-use", "gravitino.identifier"}

  /** The keys whose value changes: planned with another value, or no longer planned. */
  function ChangedKeys(planned: PropertyMap, current: PropertyMap, reserved: set<string>): set<string> {
    set k | k in planned.Keys + current.Keys && k !in reserved &&
            (k !in planned || k !in current || planned[k] != current[k])
  }

  function RequestOf(k: string, planned: PropertyMap): Request {
    if k in planned then SetProperty(k, planned[k]) else RemoveProperty(k)
  }

  /** No key is named twice. */
  predicate KeysOnce(rs: seq<Request>) {
    forall i, k :: 0 <= i < k < |rs| ==> rs[i].property != rs[k].property
  }

  /** A list that holds exactly the requests of the diff, each key once, in any order. */
  ghost predicate IsDiff(rs: seq<Request>, planned: PropertyMap, current: PropertyMap, reserved: set<string>) {
    KeysOnce(rs) &&
    forall r :: r in rs <==>
                r.property in ChangedKeys(planned, current, reserved) && r == RequestOf(r.property, planned)
  }

  lemma AddsOnce(rs: seq<Request>, r: Request)
    requires KeysOnce(rs) && forall q :: q in rs ==> q.property != r.property
    ensures KeysOnce(rs + [r])
  {
    assert forall i :: 0 <= i < |rs| ==> rs[i] in rs;
  }

  // ----- The loops -----

  /** Tables and catalogs: the planned keys first, then the dropped ones, each map in whatever order the
      iteration delivers it. */
  method PlannedThenDropped(planned: PropertyMap, current: PropertyMap,
                            reserved: set<string>) returns (updates: seq<Request>)
    ensures IsDiff(updates, planned, current, reserved)
  {
    updates := [];
    ghost var changed := ChangedKeys(planned, current, reserved);
    var rest := planned.Keys;
    while rest != {}
      invariant rest <= planned.Keys
      invariant KeysOnce(updates)
      invariant forall r :: r in updates <==>
        r.property in planned.Keys - rest && r.property in changed && r == RequestOf(r.property, planned)
      decreases rest
    {
      var key :| key in rest;
      rest := rest - {key};
      if key in reserved {
        continue;
      }
      if key !in current || current[key] != planned[key] {
        AddsOnce(updates, SetProperty(key, planned[key]));
        updates := updates + [SetProperty(key, planned[key])];
      }
    }
    rest := current.Keys;
    while rest != {}
      invariant rest <= current.Keys
      invariant KeysOnce(updates)
      invariant forall r :: r in updates <==>
        r.property in planned.Keys + (current.Keys - rest) && r.property in changed &&
        r == RequestOf(r.property, planned)
      decreases rest
    {
      var key :| key in rest;
      rest := rest - {key};
      if key in reserved {
        continue;
      }
      if key !in planned {
        AddsOnce(updates, RemoveProperty(key));
        updates := updates + [RemoveProperty(key)];
      }
    }
  }

  /** Metalakes: the current keys first, then the new ones. */
  method CurrentThenNew(planned: PropertyMap, current: PropertyMap, reserved: set<string>)
    returns (updates: seq<Request>)
    ensures IsDiff(updates, planned, current, reserved)
  {
    updates := [];
    ghost var changed := ChangedKeys(planned, current, reserved);
    var rest := current.Keys;
    while rest != {}
      invariant rest <= current.Keys
      invariant KeysOnce(updates)
      invariant forall r :: r in updates <==>
        r.property in current.Keys - rest && r.property in changed && r == RequestOf(r.property, planned)
      decreases rest
    {
      var key :| key in rest;
      rest := rest - {key};
      if key in reserved {
        continue;
      }
      if key !in planned {
        AddsOnce(updates, RemoveProperty(key));
        updates := updates + [RemoveProperty(key)];
      } else if current[key] != planned[key] {
        AddsOnce(updates, SetProperty(key, planned[key]));
        updates := updates + [SetProperty(key, planned[key])];
      }
    }
    rest := planned.Keys;
    while rest != {}
      invariant rest <= planned.Keys
      invariant KeysOnce(updates)
      invariant forall r :: r in updates <==>
        r.property in current.Keys + (planned.Keys - rest) && r.property in changed &&
        r == RequestOf(r.property, planned)
      decreases rest
    {
      var key :| key in rest;
      rest := rest - {key};
      if key in reserved {
        continue;
      }
      if key !in current {
        AddsOnce(updates, SetProperty(key, planned[key]));
        updates := updates + [SetProperty(key, planned[key])];
      }
    }
  }

  // ----- Sorting -----

  function TypeName(r: Request): string {
    if r.SetProperty? then "setProperty" else "removeProperty"
  }

  /** The comparison handed to the sort: by property, then by request type. */
  predicate Before(a: Request, b: Request) {
    if a.property != b.property then Less(a.property, b.property) else Less(TypeName(a), TypeName(b))
  }

  function InsertRequest(s: seq<Request>, r: Request): (t: seq<Request>)
    ensures |t| == |s| + 1 && forall x :: x in t <==> x in s || x == r
  {
    if s == [] || Before(r, s[0]) then [r] + s
    else
      assert s == [s[0]] + s[1..];
      [s[0]] + InsertRequest(s[1..], r)
  }

  /** Strictly ascending by property. */
  predicate SortedRequests(s: seq<Request>) {
    forall i, k :: 0 <= i < k < |s| ==> Less(s[i].property, s[k].property)
  }

  lemma {:induction false} InsertKeepsSorted(s: seq<Request>, r: Request)
    requires SortedRequests(s) && forall q :: q in s ==> q.property != r.property
    ensures SortedRequests(InsertRequest(s, r))
  {
    if s != [] {
      assert s[0] in s;
      if Before(r, s[0]) {
        forall k | 0 <= k < |s| ensures Less(r.property, s[k].property) {
          if k > 0 {
            LessTransitive(r.property, s[0].property, s[k].property);
          }
        }
      } else {
        LessTotal(r.property, s[0].property);
        assert s == [s[0]] + s[1..];
        InsertKeepsSorted(s[1..], r);
        var t := InsertRequest(s[1..], r);
        forall k | 0 <= k < |t| ensures Less(s[0].property, t[k].property) {
          assert t[k] in t;
        }
      }
    }
  }

  /** The sort of a list that names no key twice. */
  method SortRequests(rs: seq<Request>) returns (s: seq<Request>)
    requires KeysOnce(rs)
    ensures SortedRequests(s) && forall r :: r in s <==> r in rs
  {
    s := [];
    for i := 0 to |rs|
      invariant SortedRequests(s)
      invariant forall r :: r in s <==> r in rs[..i]
    {
      assert rs[..i + 1] == rs[..i] + [rs[i]];
      assert forall q :: q in rs[..i] ==> q.property != rs[i].property;
      InsertKeepsSorted(s, rs[i]);
      s := InsertRequest(s, rs[i]);
    }
    assert rs[..|rs|] == rs;
  }

  /** The one request list of a diff: the changed keys in ascending order. */
  ghost function Canonical(planned: PropertyMap, current: PropertyMap, reserved: set<string>): (rs: seq<Request>)
    ensures SortedRequests(rs)
  {
    var keys := Sorted(ChangedKeys(planned, current, reserved));
    seq(|keys|, i requires 0 <= i < |keys| => RequestOf(keys[i], planned))
  }

  /** Any two orders of iteration sort to the same request list. */
  lemma SortedDiffUnique(rs: seq<Request>, planned: PropertyMap, current: PropertyMap, reserved: set<string>)
    requires SortedRequests(rs)
    requires forall r :: r in rs <==>
               r.property in ChangedKeys(planned, current, reserved) && r == RequestOf(r.property, planned)
    ensures rs == Canonical(planned, current, reserved)
  {
    var changed := ChangedKeys(planned, current, reserved);
    var keys := seq(|rs|, i requires 0 <= i < |rs| => rs[i].property);
    forall k ensures k in keys <==> k in changed {
      if k in changed {
        assert RequestOf(k, planned) in rs;
        var i :| 0 <= i < |rs| && rs[i] == RequestOf(k, planned);
        assert keys[i] == k;
      }
      if k in keys {
        var i :| 0 <= i < |rs| && keys[i] == k;
        assert rs[i] in rs;
      }
    }
    AscendingUnique(keys, Sorted(changed));
    forall i | 0 <= i < |rs| ensures rs[i] == RequestOf(keys[i], planned) {
      assert rs[i] in rs;
    }
  }

  /** tablePropertyUpdates is deterministic although it walks maps. */
  method TablePropertyUpdates(planned: PropertyMap, current: PropertyMap) returns (updates: seq<Request>)
    ensures updates == Canonical(planned, current, TABLE_RESERVED)
    ensures IsDiff(updates, planned, current, TABLE_RESERVED)
  {
    updates := PlannedThenDropped(planned, current, TABLE_RESERVED);
    updates := SortRequests(updates);
    SortedDiffUnique(updates, planned, current, TABLE_RESERVED);
    SortedOnce(updates);
  }

  lemma SortedOnce(rs: seq<Request>)
    requires SortedRequests(rs)
    ensures KeysOnce(rs)
  {
    forall i, k | 0 <= i < k < |rs| ensures rs[i].property != rs[k].property {
      LessIrreflexive(rs[i].property);
    }
  }

  /** A diff never names a reserved key. */
  lemma DiffSparesReserved(rs: seq<Request>, planned: PropertyMap, current: PropertyMap, reserved: set<string>)
    requires IsDiff(rs, planned, current, reserved)
    ensures forall i :: 0 <= i < |rs| ==> rs[i].property !in reserved
  {
    forall i | 0 <= i < |rs| ensures rs[i].property !in reserved {
      assert rs[i] in rs;
    }
  }

  // ----- The server -----

  /** Setting or removing one property; removing an absent one is refused. */
  function Execute(server: PropertyMap, r: Request): Option<PropertyMap> {
    match r
    case SetProperty(k, v) => Some(server[k := v])
    case RemoveProperty(k) => if k in server then Some(server - {k}) else None
  }

  function ExecuteAll(server: PropertyMap, rs: seq<Request>): Option<PropertyMap> {
    if rs == [] then Some(server)
    else
      var n := |rs| - 1;
      var s :- ExecuteAll(server, rs[..n]);
      Execute(s, rs[n])
  }

  function Restrict(m: PropertyMap, keys: set<string>): PropertyMap {
    map k | k in keys && k in m :: m[k]
  }

  /** The server after the given keys have been brought to their planned state. */
  function Brought(server: PropertyMap, planned: PropertyMap, keys: set<string>): PropertyMap {
    (server - keys) + Restrict(planned, keys)
  }

  /** Where a diff leads: planned keys have their planned value, dropped keys are gone, keys only the
      server knows and reserved keys stay. */
  function Target(server: PropertyMap, planned: PropertyMap, current: PropertyMap, reserved: set<string>): PropertyMap {
    map k | k in server.Keys + planned.Keys &&
            (if k in reserved then k in server else k in planned || k !in current) ::
      if k in planned && k !in reserved then planned[k] else server[k]
  }

  /** The server holds the state: every managed key with its current value. */
  predicate Holds(server: PropertyMap, current: PropertyMap, reserved: set<string>) {
    forall k :: k in current && k !in reserved ==> k in server && server[k] == current[k]
  }

  function Named(rs: seq<Request>): set<string> {
    set i | 0 <= i < |rs| :: rs[i].property
  }

  lemma NamedStep(rs: seq<Request>, n: nat)
    requires KeysOnce(rs) && 0 < n <= |rs|
    ensures Named(rs[..n]) == Named(rs[..n - 1]) + {rs[n - 1].property} && rs[n - 1].property !in Named(rs[..n - 1])
  {
    var a, b := rs[..n - 1], rs[..n];
    assert b == a + [rs[n - 1]];
    assert forall i :: 0 <= i < |a| ==> a[i] == b[i];
  }

  lemma ExecuteStep(server: PropertyMap, rs: seq<Request>, n: nat)
    requires 0 < n <= |rs|
    ensures ExecuteAll(server, rs[..n]) ==
            if ExecuteAll(server, rs[..n - 1]).Some? then Execute(ExecuteAll(server, rs[..n - 1]).value, rs[n - 1])
            else None
  {
    hide Execute;
    assert rs[..n][..n - 1] == rs[..n - 1];
  }

  lemma NothingBrought(server: PropertyMap, planned: PropertyMap)
    ensures ExecuteAll(server, []) == Some(Brought(server, planned, {}))
  {
    assert Brought(server, planned, {}) == server;
  }

  lemma {:induction false} PrefixExecutes(server: PropertyMap, planned: PropertyMap, rs: seq<Request>, n: nat)
    requires KeysOnce(rs) && n <= |rs|
    requires forall r :: r in rs ==>
               r == RequestOf(r.property, planned) && (r.property in planned || r.property in server)
    ensures ExecuteAll(server, rs[..n]) == Some(Brought(server, planned, Named(rs[..n])))
  {
    hide ExecuteAll, Execute, Brought, KeysOnce, RequestOf;
    if n == 0 {
      NothingBrought(server, planned);
      assert Named(rs[..0]) == {};
    } else {
      PrefixExecutes(server, planned, rs, n - 1);
      NamedStep(rs, n);
      ExecuteStep(server, rs, n);
      assert rs[n - 1] in rs;
      StepExecutes(server, planned, Named(rs[..n - 1]), rs[n - 1]);
    }
  }

  lemma StepExecutes(server: PropertyMap, planned: PropertyMap, before: set<string>, r: Request)
    requires r == RequestOf(r.property, planned) && r.property !in before
    requires r.property in planned || r.property in server
    ensures Execute(Brought(server, planned, before), r) == Some(Brought(server, planned, before + {r.property}))
  {
    hide Brought;
    var x := r.property;
    var s, t := Brought(server, planned, before), Brought(server, planned, before + {x});
    BroughtHolds(server, planned, before);
    BroughtHolds(server, planned, before + {x});
    if x in planned {
      assert s[x := planned[x]] == t;
    } else {
      assert s - {x} == t;
    }
  }

  lemma BroughtHolds(server: PropertyMap, planned: PropertyMap, keys: set<string>)
    ensures forall k :: k in Brought(server, planned, keys) <==> if k in keys then k in planned else k in server
    ensures forall k :: k in Brought(server, planned, keys) ==>
              Brought(server, planned, keys)[k] == if k in keys then planned[k] else server[k]
  {
  }

  /** Executing a diff in any order is accepted request by request and leads to the same target. */
  lemma DiffReachesTarget(server: PropertyMap, planned: PropertyMap, current: PropertyMap, reserved: set<string>,
                          rs: seq<Request>)
    requires IsDiff(rs, planned, current, reserved) && Holds(server, current, reserved)
    ensures ExecuteAll(server, rs) == Some(Target(server, planned, current, reserved))
  {
    hide ExecuteAll, Brought, KeysOnce, RequestOf, Target, Named;
    DiffRequests(server, planned, current, reserved, rs);
    PrefixExecutes(server, planned, rs, |rs|);
    assert rs[..|rs|] == rs;
    ChangedBrought(server, planned, current, reserved);
  }

  lemma DiffRequests(server: PropertyMap, planned: PropertyMap, current: PropertyMap, reserved: set<string>,
                     rs: seq<Request>)
    requires IsDiff(rs, planned, current, reserved) && Holds(server, current, reserved)
    ensures forall r :: r in rs ==>
              r == RequestOf(r.property, planned) && (r.property in planned || r.property in server)
    ensures Named(rs) == ChangedKeys(planned, current, reserved)
  {
    hide KeysOnce;
    forall k | k in ChangedKeys(planned, current, reserved) ensures k in Named(rs) {
      assert RequestOf(k, planned) in rs;
    }
    forall k | k in Named(rs) ensures k in ChangedKeys(planned, current, reserved) {
      var i :| 0 <= i < |rs| && rs[i].property == k;
      assert rs[i] in rs;
    }
  }

  lemma ChangedBrought(server: PropertyMap, planned: PropertyMap, current: PropertyMap, reserved: set<string>)
    requires Holds(server, current, reserved)
    ensures Brought(server, planned, ChangedKeys(planned, current, reserved)) ==
            Target(server, planned, current, reserved)
  {
  }

  /** Nothing is sent exactly when plan and state agree outside the reserved keys. */
  lemma EmptyExactlyWhenEqual(planned: PropertyMap, current: PropertyMap, reserved: set<string>, rs: seq<Request>)
    requires IsDiff(rs, planned, current, reserved)
    ensures rs == [] <==> planned - reserved == current - reserved
  {
    var changed := ChangedKeys(planned, current, reserved);
    var p, c := planned - reserved, current - reserved;
    assert rs == [] <==> changed == {} by {
      if rs != [] {
        assert rs[0] in rs;
      }
      forall k | k in changed ensures rs != [] {
        assert RequestOf(k, planned) in rs;
      }
    }
    if p == c {
      forall k ensures k !in changed {
        assert (k in p <==> k in c) && (k in p ==> p[k] == c[k]);
      }
    } else if changed == {} {
      forall k ensures (k in p <==> k in c) && (k in p ==> p[k] == c[k]) {
        assert k !in changed;
      }
    }
  }

  /** A table diff names a key exactly if it is not the in-use key and is planned with another value, new or no
      longer planned. */
  lemma TableDiffNames(rs: seq<Request>, planned: PropertyMap, current: PropertyMap, k: string)
    requires IsDiff(rs, planned, current, TABLE_RESERVED)
    ensures (exists r :: r in rs && r.property == k) <==>
            k != "in-use" && (k in planned || k in current) &&
            !(k in planned && k in current && planned[k] == current[k])
  {
    if k in ChangedKeys(planned, current, TABLE_RESERVED) {
      assert RequestOf(k, planned) in rs;
    }
  }

  /** A metalake diff in the same way spares the in-use key and the identifier. */
  lemma MetalakeDiffNames(rs: seq<Request>, planned: PropertyMap, current: PropertyMap, k: string)
    requires IsDiff(rs, planned, current, METALAKE_RESERVED)
    ensures (exists r :: r in rs && r.property == k) <==>
            k != "in-use" && k != "gravitino.identifier" && (k in planned || k in current) &&
            !(k in planned && k in current && planned[k] == current[k])
  {
    if k in ChangedKeys(planned, current, METALAKE_RESERVED) {
      assert RequestOf(k, planned) in rs;
    }
  }

  // ----- Merging the server's answer -----

  /** mergeCatalogProperties and mergeProperties: the server's values for the planned keys only; without
      planned keys, what the server has apart from the keys it manages itself. */
  function Merge(plan: TF<PropertyMap>, server: PropertyMap, reserved: set<string>): TF<PropertyMap> {
    match plan
    case Unknown => Null
    case Null => if server - reserved == map[] then Null else Known(server - reserved)
    case Known(planned) => Known(map k | k in planned :: if k in server then server[k] else planned[k])
  }

  method AdoptProperties(server: PropertyMap, reserved: set<string>) returns (adopted: PropertyMap)
    ensures adopted == server - reserved
  {
    adopted := map[];
    var rest := server.Keys;
    while rest != {}
      invariant rest <= server.Keys
      invariant adopted == map k | k in server && k !in rest && k !in reserved :: server[k]
      decreases rest
    {
      var k :| k in rest;
      rest := rest - {k};
      if k !in reserved {
        adopted := adopted[k := server[k]];
      }
    }
  }

  method MergeProperties(plan: TF<PropertyMap>, server: PropertyMap,
                         reserved: set<string>) returns (merged: TF<PropertyMap>)
    ensures merged == Merge(plan, server, reserved)
  {
    if plan.Unknown? {
      return Null;
    }
    if plan.Null? {
      var serverOnly := AdoptProperties(server, reserved);
      return if |serverOnly| == 0 then Null else Known(serverOnly);
    }
    var planned := plan.value;
    var collected: PropertyMap := map[];
    var rest := planned.Keys;
    while rest != {}
      invariant rest <= planned.Keys
      invariant collected == map k | k in planned && k !in rest :: if k in server then server[k] else planned[k]
      decreases rest
    {
      var k :| k in rest;
      rest := rest - {k};
      collected := collected[k := if k in server then server[k] else planned[k]];
    }
    assert collected == map k | k in planned :: if k in server then server[k] else planned[k];
    merged := Known(collected);
  }

  /** A server that contradicts no planned value leaves the plan as it is. */
  lemma MergeKeepsPlan(planned: PropertyMap, server: PropertyMap, reserved: set<string>)
    requires forall k :: k in planned && k in server ==> server[k] == planned[k]
    ensures Merge(Known(planned), server, reserved) == Known(planned)
  {
    assert (map k | k in planned :: if k in server then server[k] else planned[k]) == planned;
  }

  /** Applying the diff and merging the resulting server properties back returns exactly the plan. */
  lemma MergeReturnsPlan(server: PropertyMap, planned: PropertyMap, current: PropertyMap, reserved: set<string>)
    requires planned.Keys !! reserved
    ensures Merge(Known(planned), Target(server, planned, current, reserved), reserved) == Known(planned)
  {
    var t := Target(server, planned, current, reserved);
    forall k | k in planned ensures k in t && t[k] == planned[k] {
      assert k !in reserved;
    }
    MergeKeepsPlan(planned, t, reserved);
  }
}
