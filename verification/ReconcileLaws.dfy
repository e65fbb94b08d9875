/** Which definitions a merge picks, and in which order. */
module ReconcileLaws {
  import opened Common
  import opened Functions
  import opened FunctionUpdates
  import opened Reconcile

  // ----- Order -----

  /** The signatures of the definitions, in order. */
  function Keys(ds: seq<Definition>): (r: seq<string>)
    ensures |r| == |ds| && forall i :: 0 <= i < |r| ==> r[i] == Signature(ds[i])
  {
    seq(|ds|, i requires 0 <= i < |ds| => Signature(ds[i]))
  }

  function PickKeys(ps: seq<Pick>): (r: seq<string>)
    ensures |r| == |ps| && forall i :: 0 <= i < |r| ==> r[i] == Signature(ps[i].definition)
  {
    seq(|ps|, i requires 0 <= i < |ps| => Signature(ps[i].definition))
  }

  lemma PickKeysConcat(a: seq<Pick>, b: seq<Pick>)
    ensures PickKeys(a + b) == PickKeys(a) + PickKeys(b)
  {
  }

  lemma KeysSnoc(ds: seq<Definition>)
    requires ds != []
    ensures var n := |ds| - 1;
            Keys(ds) == Keys(ds[..n]) + [Signature(ds[n])] && Keys(ds)[..n] == Keys(ds[..n])
  {
  }

  lemma {:induction false} IndexedKeys(ds: seq<Definition>)
    ensures forall k :: k in IndexDefinitions(ds) <==> k in Keys(ds)
    ensures forall k :: k in IndexDefinitions(ds) ==>
              Signature(IndexDefinitions(ds)[k]) == k && IndexDefinitions(ds)[k] in ds
  {
    if ds != [] {
      var n := |ds| - 1;
      IndexedKeys(ds[..n]);
      assert Keys(ds) == Keys(ds[..n]) + [Signature(ds[n])];
      assert forall d :: d in ds[..n] ==> d in ds;
    }
  }

  /** The keys of the previous definitions that the server still has, in previous order. */
  function Surviving(previous: seq<string>, server: set<string>): seq<string> {
    if previous == [] then []
    else
      var n := |previous| - 1;
      Surviving(previous[..n], server) + (if previous[n] in server then [previous[n]] else [])
  }

  /** The keys of the server that are not among the converted ones, each once, in server order. */
  function Novel(keys: seq<string>, converted: set<string>): seq<string> {
    if keys == [] then []
    else
      var n := |keys| - 1;
      Novel(keys[..n], converted) + (if keys[n] in converted || keys[n] in keys[..n] then [] else [keys[n]])
  }

  lemma SurvivingSnoc(previous: seq<string>, key: string, server: set<string>)
    ensures Surviving(previous + [key], server) == Surviving(previous, server) + (if key in server then [key] else [])
  {
    assert (previous + [key])[..|previous|] == previous;
  }

  lemma NovelSnoc(keys: seq<string>, key: string, converted: set<string>)
    ensures Novel(keys + [key], converted) ==
            Novel(keys, converted) + (if key in converted || key in keys then [] else [key])
  {
    assert (keys + [key])[..|keys|] == keys;
  }

  lemma {:induction false} ChosenKeys(previous: seq<Definition>, server: map<string, Definition>, mode: Mode)
    requires forall k :: k in server ==> Signature(server[k]) == k
    ensures PickKeys(ChosenFromPrevious(previous, server, mode)) ==
            if mode.FromPlan? then Keys(previous) else Surviving(Keys(previous), server.Keys)
  {
    if previous != [] {
      var n := |previous| - 1;
      ChosenKeys(previous[..n], server, mode);
      KeysSnoc(previous);
      ChoiceKey(previous[n], server, mode);
      SurvivingSnoc(Keys(previous[..n]), Signature(previous[n]), server.Keys);
      PickKeysConcat(ChosenFromPrevious(previous[..n], server, mode), Choose(previous[n], server, mode));
    }
  }

  lemma ChoiceKey(d: Definition, server: map<string, Definition>, mode: Mode)
    requires forall k :: k in server ==> Signature(server[k]) == k
    ensures PickKeys(Choose(d, server, mode)) ==
            if mode.FromPlan? || Signature(d) in server then [Signature(d)] else []
  {
  }

  lemma {:induction false} ServerOnlyKeys(ds: seq<Definition>, converted: set<string>)
    ensures PickKeys(ServerOnly(ds, converted)) == Novel(Keys(ds), converted)
  {
    if ds != [] {
      var n := |ds| - 1;
      ServerOnlyKeys(ds[..n], converted);
      KeysSnoc(ds);
      SignatureSet(ds[..n]);
      NovelSnoc(Keys(ds[..n]), Signature(ds[n]), converted);
      PickKeysConcat(ServerOnly(ds[..n], converted), [Pick(ds[n], None)]);
      OnePick(ds[n]);
    }
  }

  lemma OnePick(d: Definition)
    ensures PickKeys([Pick(d, None)]) == [Signature(d)]
  {
  }

  lemma SignatureSet(ds: seq<Definition>)
    ensures forall k :: k in Signatures(ds) <==> k in Keys(ds)
  {
    forall k | k in Signatures(ds) ensures k in Keys(ds) {
      var i :| 0 <= i < |ds| && Signature(ds[i]) == k;
      assert Keys(ds)[i] == k;
    }
    forall k | k in Keys(ds) ensures k in Signatures(ds) {
      var i :| 0 <= i < |ds| && Keys(ds)[i] == k;
    }
  }

  lemma ConvertedKeys(previous: seq<Definition>, server: map<string, Definition>)
    ensures ConvertedSignatures(previous, server, FromServer) == set k | k in Keys(previous) && k in server
  {
    forall k | k in Keys(previous) && k in server ensures k in ConvertedSignatures(previous, server, FromServer) {
      var i :| 0 <= i < |previous| && Keys(previous)[i] == k;
    }
    forall k | k in ConvertedSignatures(previous, server, FromServer) ensures k in Keys(previous) && k in server {
      var i :| 0 <= i < |previous| && Signature(previous[i]) in server && Signature(previous[i]) == k;
      assert Keys(previous)[i] == k;
    }
  }

  lemma RefreshKeys(definitions: seq<Definition>, previous: seq<Definition>)
    ensures var server := set k | k in Keys(definitions);
            PickKeys(Picks(definitions, previous, FromServer)) ==
            Surviving(Keys(previous), server) + Novel(Keys(definitions), set k | k in Keys(previous) && k in server)
  {
    var server := IndexDefinitions(definitions);
    IndexedKeys(definitions);
    assert server.Keys == set k | k in Keys(definitions);
    ChosenKeys(previous, server, FromServer);
    ConvertedKeys(previous, server);
    ServerOnlyKeys(definitions, ConvertedSignatures(previous, server, FromServer));
    PickKeysConcat(ChosenFromPrevious(previous, server, FromServer),
                   ServerOnly(definitions, ConvertedSignatures(previous, server, FromServer)));
  }

  // ----- The order, stated without the merge -----

  function FirstIndex(keys: seq<string>, key: string): (n: nat)
    ensures n <= |keys|
    ensures n < |keys| ==> keys[n] == key
    ensures n < |keys| <==> key in keys
    ensures forall i :: 0 <= i < n ==> keys[i] != key
  {
    if keys == [] || keys[0] == key then 0 else 1 + FirstIndex(keys[1..], key)
  }

  /** Where a key belongs: previous keys by their place, then the others by their place at the server. */
  function Rank(key: string, previous: seq<string>, server: seq<string>): nat {
    if key in previous then FirstIndex(previous, key) else |previous| + FirstIndex(server, key)
  }

  predicate Distinct(keys: seq<string>) {
    forall i, k :: 0 <= i < k < |keys| ==> keys[i] != keys[k]
  }

  /** An extra key at the end moves no other key. */
  lemma FirstIndexSnoc(keys: seq<string>, last: string, key: string)
    ensures key in keys ==> FirstIndex(keys + [last], key) == FirstIndex(keys, key) < |keys|
    ensures last !in keys ==> FirstIndex(keys + [last], last) == |keys|
  {
    var all := keys + [last];
    var f, g := FirstIndex(keys, key), FirstIndex(all, key);
    assert key in keys ==> all[f] == key;
    assert g < |keys| ==> keys[g] == all[g];
    assert last !in keys ==> forall i :: 0 <= i < |keys| ==> all[i] != last;
  }

  /** The keys come in the order of their first occurrence. */
  predicate InOrder(s: seq<string>, keys: seq<string>) {
    forall i, k :: 0 <= i < k < |s| ==> FirstIndex(keys, s[i]) < FirstIndex(keys, s[k])
  }

  lemma InOrderSnoc(s: seq<string>, keys: seq<string>, last: string)
    requires InOrder(s, keys) && (forall k :: k in s ==> k in keys)
    ensures InOrder(s, keys + [last])
    ensures last !in keys ==> InOrder(s + [last], keys + [last])
  {
    hide FirstIndex;
    forall i | 0 <= i < |s|
      ensures FirstIndex(keys + [last], s[i]) == FirstIndex(keys, s[i]) < |keys|
    {
      assert s[i] in s;
      FirstIndexSnoc(keys, last, s[i]);
    }
    FirstIndexSnoc(keys, last, last);
  }

  lemma {:induction false} SurvivingHold(previous: seq<string>, server: set<string>)
    requires Distinct(previous)
    ensures var s := Surviving(previous, server);
            (forall k :: k in s <==> k in previous && k in server) && InOrder(s, previous)
  {
    hide InOrder;
    if previous == [] {
      NothingInOrder(previous);
    } else {
      var n := |previous| - 1;
      SurvivingHold(previous[..n], server);
      assert previous == previous[..n] + [previous[n]];
      InOrderSnoc(Surviving(previous[..n], server), previous[..n], previous[n]);
      assert Surviving(previous[..n], server) + [] == Surviving(previous[..n], server);
    }
  }

  lemma NothingInOrder(keys: seq<string>)
    ensures InOrder([], keys)
  {
  }

  lemma {:induction false} NovelHold(keys: seq<string>, converted: set<string>)
    ensures var s := Novel(keys, converted);
            (forall k :: k in s <==> k in keys && k !in converted) && InOrder(s, keys)
  {
    hide InOrder;
    if keys == [] {
      NothingInOrder(keys);
    } else {
      var n := |keys| - 1;
      NovelHold(keys[..n], converted);
      assert keys == keys[..n] + [keys[n]];
      InOrderSnoc(Novel(keys[..n], converted), keys[..n], keys[n]);
      assert Novel(keys[..n], converted) + [] == Novel(keys[..n], converted);
    }
  }

  /** The keys come in the order of their rank, each once. */
  predicate InRankOrder(out: seq<string>, previous: seq<string>, keys: seq<string>) {
    forall i, k :: 0 <= i < k < |out| ==> Rank(out[i], previous, keys) < Rank(out[k], previous, keys)
  }

  /** A refresh picks each server signature exactly once and no other, the previous ones first in previous
      order, then the new ones in server order. */
  lemma PicksInOrder(definitions: seq<Definition>, previous: seq<Definition>)
    requires Distinct(Keys(previous))
    ensures var out := PickKeys(Picks(definitions, previous, FromServer));
            (forall k :: k in out <==> k in Keys(definitions)) && InRankOrder(out, Keys(previous), Keys(definitions))
  {
    RefreshKeys(definitions, previous);
    MergedOrder(Keys(previous), Keys(definitions));
  }

  lemma MergedOrder(previous: seq<string>, keys: seq<string>)
    requires Distinct(previous)
    ensures var server := set k | k in keys;
            var out := Surviving(previous, server) + Novel(keys, set k | k in previous && k in server);
            (forall k :: k in out <==> k in keys) && InRankOrder(out, previous, keys)
  {
    var server := set k | k in keys;
    var converted := set k | k in previous && k in server;
    var a, b := Surviving(previous, server), Novel(keys, converted);
    SurvivingHold(previous, server);
    NovelHold(keys, converted);
    RanksConcat(a, b, previous, keys);
  }

  lemma RanksConcat(a: seq<string>, b: seq<string>, previous: seq<string>, keys: seq<string>)
    requires forall k :: k in a ==> k in previous
    requires forall k :: k in b ==> k !in previous
    requires InOrder(a, previous) && InOrder(b, keys)
    ensures InRankOrder(a + b, previous, keys)
  {
    var out := a + b;
    forall i, k | 0 <= i < k < |out| ensures Rank(out[i], previous, keys) < Rank(out[k], previous, keys) {
      assert i < |a| ==> out[i] in a;
      assert i >= |a| ==> out[i] in b;
      assert k < |a| ==> out[k] in a;
      assert k >= |a| ==> out[k] in b;
    }
  }

  /** The order leaves no choice: two lists of the same keys in rank order are equal. */
  lemma {:induction false} RankOrderUnique(a: seq<string>, b: seq<string>, previous: seq<string>, keys: seq<string>)
    requires InRankOrder(a, previous, keys) && InRankOrder(b, previous, keys)
    requires forall k :: k in a <==> k in b
    ensures a == b
  {
    hide Rank;
    assert a != [] ==> a[0] in a;
    assert b != [] ==> b[0] in b;
    if a != [] {
      SameFirst(a, b, previous, keys);
      forall k ensures k in a[1..] <==> k in b[1..] {
        TailKeys(a, previous, keys, k);
        TailKeys(b, previous, keys, k);
      }
      RankOrderUnique(a[1..], b[1..], previous, keys);
      assert a == [a[0]] + a[1..] && b == [b[0]] + b[1..];
    }
  }

  lemma SameFirst(a: seq<string>, b: seq<string>, previous: seq<string>, keys: seq<string>)
    requires InRankOrder(a, previous, keys) && InRankOrder(b, previous, keys) && a != [] && b != []
    requires a[0] in b && b[0] in a
    ensures a[0] == b[0]
  {
    hide Rank;
  }

  lemma TailKeys(a: seq<string>, previous: seq<string>, keys: seq<string>, k: string)
    requires InRankOrder(a, previous, keys) && a != []
    ensures k in a[1..] <==> k in a && k != a[0]
  {
    hide Rank;
    assert a == [a[0]] + a[1..];
    assert forall i :: 0 < i < |a| ==> a[i] != a[0];
  }

  /** What an apply converts for a planned definition. */
  function Answered(planned: Definition, server: map<string, Definition>): Pick {
    Choose(planned, server, FromPlan)[0]
  }

  lemma {:induction false} ChosenFromPlan(planned: seq<Definition>, server: map<string, Definition>)
    ensures |ChosenFromPrevious(planned, server, FromPlan)| == |planned|
    ensures forall i :: 0 <= i < |planned| ==>
              ChosenFromPrevious(planned, server, FromPlan)[i] == Answered(planned[i], server)
  {
    hide Signature, WireEqual;
    if planned != [] {
      var n := |planned| - 1;
      ChosenFromPlan(planned[..n], server);
      assert Choose(planned[n], server, FromPlan) == [Answered(planned[n], server)];
      assert forall i :: 0 <= i < n ==> planned[..n][i] == planned[i];
    }
  }

  /** Apply mode follows the plan: for any server answer exactly the planned definitions are converted, in
      the planned order, so nothing the server added leaks in and nothing planned is lost. */
  lemma PlanPicks(definitions: seq<Definition>, planned: seq<Definition>)
    ensures var picks := Picks(definitions, planned, FromPlan);
            |picks| == |planned| &&
            forall i :: 0 <= i < |planned| ==> picks[i] == Answered(planned[i], IndexDefinitions(definitions))
  {
    hide Answered;
    var server := IndexDefinitions(definitions);
    ChosenFromPlan(planned, server);
    assert ChosenFromPrevious(planned, server, FromPlan) + [] == ChosenFromPrevious(planned, server, FromPlan);
  }
}
