/** The merge of implementations for any answer, also one that uses a runtime twice. */
module ReconcileRuntimes {
  import opened Functions
  import opened Reconcile

  predicate FirstAt(impls: seq<Impl>, j: nat) {
    j < |impls| && forall k :: 0 <= k < j ==> impls[k].runtime != impls[j].runtime
  }

  predicate LastAt(impls: seq<Impl>, j: nat) {
    j < |impls| && forall k :: j < k < |impls| ==> impls[k].runtime != impls[j].runtime
  }

  predicate Used(impls: seq<Impl>, runtime: string) {
    exists k :: 0 <= k < |impls| && impls[k].runtime == runtime
  }

  /** One runtime stands before another one. */
  predicate Ahead(impls: seq<Impl>, a: string, b: string) {
    exists i, k :: 0 <= i < k < |impls| && impls[i].runtime == a && impls[k].runtime == b
  }

  // ----- The server's implementations by runtime -----

  /** Each runtime of the answer stands for the last implementation that has it. */
  lemma {:induction false} LastByRuntime(impls: seq<Impl>, runtime: string) returns (j: nat)
    ensures runtime in ImplsByRuntime(impls) <==> Used(impls, runtime)
    ensures runtime in ImplsByRuntime(impls) ==>
              LastAt(impls, j) && impls[j].runtime == runtime && ImplsByRuntime(impls)[runtime] == impls[j]
  {
    j := 0;
    if impls != [] {
      var n := |impls| - 1;
      var before := impls[..n];
      j := LastByRuntime(before, runtime);
      UsedStep(impls, runtime);
      if impls[n].runtime == runtime {
        j := n;
      }
    }
  }

  lemma UsedStep(impls: seq<Impl>, runtime: string)
    requires impls != []
    ensures Used(impls, runtime) <==> impls[|impls| - 1].runtime == runtime || Used(impls[..|impls| - 1], runtime)
  {
    var n := |impls| - 1;
    var before := impls[..n];
    if Used(impls, runtime) && impls[n].runtime != runtime {
      var k :| 0 <= k < |impls| && impls[k].runtime == runtime;
      assert before[k].runtime == runtime;
    }
    if Used(before, runtime) {
      var k :| 0 <= k < |before| && before[k].runtime == runtime;
      assert impls[k].runtime == runtime;
    }
  }

  lemma AheadStep(impls: seq<Impl>, a: string, b: string)
    requires impls != []
    requires Ahead(impls[..|impls| - 1], a, b) ||
             (Used(impls[..|impls| - 1], a) && impls[|impls| - 1].runtime == b)
    ensures Ahead(impls, a, b)
  {
    var before := impls[..|impls| - 1];
    if Ahead(before, a, b) {
      var i, k :| 0 <= i < k < |before| && before[i].runtime == a && before[k].runtime == b;
      assert impls[i].runtime == a && impls[k].runtime == b;
    } else {
      var i :| 0 <= i < |before| && before[i].runtime == a;
      assert impls[i].runtime == a;
    }
  }

  // ----- Plan mode -----

  /** With planned implementations an apply shows for each of them the last one the server has of its runtime, or
      the planned one if the server has none. */
  lemma {:induction false} ApplyExactly(impls: seq<Impl>, planned: seq<Impl>, i: nat)
    requires i < |planned|
    ensures var r := OrderedImpls(impls, planned, FromPlan);
            && |r| == |planned|
            && (!Used(impls, planned[i].runtime) ==> r[i] == planned[i])
            && (forall j :: 0 <= j < |impls| && LastAt(impls, j) && impls[j].runtime == planned[i].runtime ==>
                  r[i] == impls[j])
  {
    hide ImplsByRuntime, LastAt, Used;
    KeptInPlan(planned, ImplsByRuntime(impls), i);
    var last := LastByRuntime(impls, planned[i].runtime);
    forall j | 0 <= j < |impls| && LastAt(impls, j) && impls[j].runtime == planned[i].runtime
      ensures Used(impls, planned[i].runtime) && j == last
    {
      OneLast(impls, j, last);
    }
  }

  lemma OneLast(impls: seq<Impl>, j: nat, last: nat)
    requires LastAt(impls, j)
    ensures Used(impls, impls[j].runtime)
    ensures LastAt(impls, last) && impls[last].runtime == impls[j].runtime ==> last == j
  {
  }

  lemma {:induction false} KeptInPlan(planned: seq<Impl>, server: map<string, Impl>, i: nat)
    requires i < |planned|
    ensures var kept := FromPrevious(planned, server, FromPlan);
            |kept| == |planned| &&
            kept[i] == if planned[i].runtime in server then server[planned[i].runtime] else planned[i]
    decreases |planned|
  {
    var n := |planned| - 1;
    if i < n {
      KeptInPlan(planned[..n], server, i);
    } else if n > 0 {
      KeptInPlan(planned[..n], server, 0);
    }
  }

  // ----- Refresh mode -----

  /** The previous runtimes the server still has, each at its last implementation, in previous order. */
  lemma {:induction false} KeptAt(impls: seq<Impl>, previous: seq<Impl>) returns (at: seq<nat>)
    ensures var kept := FromPrevious(previous, ImplsByRuntime(impls), FromServer);
            && |at| == |kept|
            && (forall i :: 0 <= i < |kept| ==>
                  LastAt(impls, at[i]) && kept[i] == impls[at[i]] && Used(previous, kept[i].runtime))
            && (forall i, k :: 0 <= i < k < |kept| ==> Ahead(previous, kept[i].runtime, kept[k].runtime))
            && (forall j :: 0 <= j < |impls| && Used(previous, impls[j].runtime) ==> Used(kept, impls[j].runtime))
  {
    hide ImplsByRuntime, LastAt, Ahead, FromPrevious, Used;
    at := [];
    if previous == [] {
      NothingOrdered(ImplsByRuntime(impls), FromServer);
      assert forall j :: 0 <= j < |impls| ==> !Used(previous, impls[j].runtime) by { NothingUsed(); }
    } else {
      var n := |previous| - 1;
      var before := previous[..n];
      var server := ImplsByRuntime(impls);
      var key := previous[n].runtime;
      at := KeptAt(impls, before);
      FromPreviousStep(previous, n, server, FromServer);
      assert previous[..n + 1] == previous;
      var was := FromPrevious(before, server, FromServer);
      var kept := FromPrevious(previous, server, FromServer);
      var last := LastByRuntime(impls, key);
      if key in server {
        at := at + [last];
      }
      forall i | 0 <= i < |kept| ensures Used(previous, kept[i].runtime) {
        UsedStep(previous, kept[i].runtime);
      }
      forall i, k | 0 <= i < k < |kept| ensures Ahead(previous, kept[i].runtime, kept[k].runtime) {
        AheadStep(previous, kept[i].runtime, kept[k].runtime);
      }
      forall j | 0 <= j < |impls| && Used(previous, impls[j].runtime) ensures Used(kept, impls[j].runtime) {
        UsedAt(impls, j);
        UsedStep(previous, impls[j].runtime);
        UsedLonger(was, kept, impls[j].runtime);
      }
    }
  }

  lemma UsedAt(impls: seq<Impl>, j: nat)
    requires j < |impls|
    ensures Used(impls, impls[j].runtime)
  {
  }

  lemma NothingUsed()
    ensures forall runtime :: !Used([], runtime)
  {
  }

  lemma UsedLonger(was: seq<Impl>, impls: seq<Impl>, runtime: string)
    requires was == impls || (|impls| == |was| + 1 && impls[..|was|] == was)
    ensures Used(was, runtime) ==> Used(impls, runtime)
    ensures impls != was && impls[|was|].runtime == runtime ==> Used(impls, runtime)
  {
    if impls != was {
      UsedStep(impls, runtime);
    }
  }

  /** The runtimes that were not converted, each at its first implementation, in the order of the answer. */
  lemma {:induction false} ExtrasAt(impls: seq<Impl>, converted: set<string>) returns (at: seq<nat>)
    ensures var extras := Extras(impls, converted);
            && |at| == |extras|
            && (forall i :: 0 <= i < |extras| ==>
                  FirstAt(impls, at[i]) && extras[i] == impls[at[i]] && extras[i].runtime !in converted)
            && (forall i, k :: 0 <= i < k < |extras| ==> at[i] < at[k])
            && (forall j :: 0 <= j < |impls| && impls[j].runtime !in converted ==> Used(extras, impls[j].runtime))
  {
    hide FirstAt, Used, Runtimes;
    at := [];
    if impls != [] {
      var n := |impls| - 1;
      var before := impls[..n];
      at := ExtrasAt(before, converted);
      var was, extras := Extras(before, converted), Extras(impls, converted);
      var key := impls[n].runtime;
      FirstStays(impls, at);
      var same := LastIsFirst(impls);
      if key in converted || key in Runtimes(before) {
        assert extras == was;
      } else {
        assert extras == was + [impls[n]];
        at := at + [n];
      }
      forall j | 0 <= j < |impls| && impls[j].runtime !in converted ensures Used(extras, impls[j].runtime) {
        UsedLonger(was, extras, impls[j].runtime);
        if j < n {
          assert before[j] == impls[j];
        } else if key in Runtimes(before) {
          assert Used(was, before[same].runtime);
        }
      }
    }
  }

  lemma LastIsFirst(impls: seq<Impl>) returns (k: nat)
    requires impls != []
    ensures var n := |impls| - 1;
            if impls[n].runtime in Runtimes(impls[..n]) then k < n && impls[..n][k].runtime == impls[n].runtime
            else FirstAt(impls, n)
  {
    var n := |impls| - 1;
    var before := impls[..n];
    k := 0;
    if impls[n].runtime in Runtimes(before) {
      k :| 0 <= k < n && before[k].runtime == impls[n].runtime;
    } else {
      assert forall k :: 0 <= k < n ==> before[k].runtime in Runtimes(before) && before[k] == impls[k];
    }
  }

  lemma FirstStays(impls: seq<Impl>, at: seq<nat>)
    requires impls != [] && forall i :: 0 <= i < |at| ==> FirstAt(impls[..|impls| - 1], at[i])
    ensures forall i :: 0 <= i < |at| ==>
              at[i] < |impls| - 1 && FirstAt(impls, at[i]) && impls[..|impls| - 1][at[i]] == impls[at[i]]
  {
    var before := impls[..|impls| - 1];
    forall i | 0 <= i < |at| ensures FirstAt(impls, at[i]) {
      assert forall k :: 0 <= k <= at[i] ==> before[k] == impls[k];
    }
  }

  lemma ConvertedExactly(impls: seq<Impl>, previous: seq<Impl>, j: nat)
    requires j < |impls|
    ensures impls[j].runtime in Converted(previous, ImplsByRuntime(impls)) <==> Used(previous, impls[j].runtime)
  {
    var last := LastByRuntime(impls, impls[j].runtime);
    UsedAt(impls, j);
  }

  /** For any answer a refresh with previous implementations shows each runtime of the answer once and nothing
      else: first those it had, in its order, with the last implementation the answer has for them, and then the
      others, in the order of the answer, with the first one. */
  lemma RefreshExactly(impls: seq<Impl>, previous: seq<Impl>) returns (at: seq<nat>)
    requires previous != [] && UniqueRuntimes(previous)
    ensures var r := OrderedImpls(impls, previous, FromServer);
            && |at| == |r| && UniqueRuntimes(r)
            && (forall i :: 0 <= i < |r| ==>
                  (if Used(previous, r[i].runtime) then LastAt(impls, at[i]) else FirstAt(impls, at[i])) &&
                  r[i] == impls[at[i]])
            && (forall i, k :: 0 <= i < k < |r| ==>
                  || Ahead(previous, r[i].runtime, r[k].runtime)
                  || (!Used(previous, r[k].runtime) && (Used(previous, r[i].runtime) || at[i] < at[k])))
            && (forall j :: 0 <= j < |impls| ==> Used(r, impls[j].runtime))
  {
    hide ImplsByRuntime, LastAt, FirstAt, Ahead, Used, UniqueRuntimes, FromPrevious, Extras, Converted;
    var server := ImplsByRuntime(impls);
    var converted := Converted(previous, server);
    var kept, extras := FromPrevious(previous, server, FromServer), Extras(impls, converted);
    var front := KeptAt(impls, previous);
    var back := ExtrasAt(impls, converted);
    at := front + back;
    var r := kept + extras;
    forall j | 0 <= j < |impls|
      ensures impls[j].runtime in converted <==> Used(previous, impls[j].runtime)
      ensures Used(r, impls[j].runtime)
    {
      ConvertedExactly(impls, previous, j);
      UsedEither(kept, extras, impls[j].runtime);
    }
    forall i | 0 <= i < |extras| ensures !Used(previous, extras[i].runtime) {
      FirstIsThere(impls, back[i]);
    }
    forall i, k | 0 <= i < k < |r| ensures r[i].runtime != r[k].runtime {
      AheadDiffers(previous, r[i].runtime, r[k].runtime);
      if i >= |kept| {
        FirstsDiffer(impls, at[i], at[k]);
      }
    }
    Differs(r);
  }

  lemma UsedEither(a: seq<Impl>, b: seq<Impl>, runtime: string)
    ensures Used(a + b, runtime) <==> Used(a, runtime) || Used(b, runtime)
  {
    if Used(a, runtime) {
      var k :| 0 <= k < |a| && a[k].runtime == runtime;
      assert (a + b)[k].runtime == runtime;
    }
    if Used(b, runtime) {
      var k :| 0 <= k < |b| && b[k].runtime == runtime;
      assert (a + b)[|a| + k].runtime == runtime;
    }
  }

  lemma FirstIsThere(impls: seq<Impl>, j: nat)
    requires FirstAt(impls, j)
    ensures j < |impls|
  {
  }

  lemma FirstsDiffer(impls: seq<Impl>, j: nat, k: nat)
    requires FirstAt(impls, j) && FirstAt(impls, k) && j < k
    ensures impls[j].runtime != impls[k].runtime
  {
  }

  lemma AheadDiffers(impls: seq<Impl>, a: string, b: string)
    requires UniqueRuntimes(impls)
    ensures Ahead(impls, a, b) ==> a != b
  {
  }

  lemma Differs(impls: seq<Impl>)
    requires forall i, k :: 0 <= i < k < |impls| ==> impls[i].runtime != impls[k].runtime
    ensures UniqueRuntimes(impls)
  {
  }
}
