/** The merge of implementations: order and content in both modes. */
module ReconcileImpls {
  import opened Functions
  import opened Reconcile
  import opened TerraformFunctions

  function RuntimeSeq(impls: seq<Impl>): (r: seq<string>)
    ensures |r| == |impls| && forall i :: 0 <= i < |r| ==> r[i] == impls[i].runtime
  {
    seq(|impls|, i requires 0 <= i < |impls| => impls[i].runtime)
  }

  lemma {:induction false} ByRuntimeKeys(impls: seq<Impl>)
    ensures ImplsByRuntime(impls).Keys == Runtimes(impls)
    ensures forall k :: k in ImplsByRuntime(impls) ==>
              ImplsByRuntime(impls)[k] in impls && ImplsByRuntime(impls)[k].runtime == k
  {
    if impls != [] {
      var n := |impls| - 1;
      ByRuntimeKeys(impls[..n]);
      ExtrasStep(impls, n, {}, []);
      assert impls[..n + 1] == impls;
      assert forall x :: x in impls[..n] ==> x in impls;
    }
  }

  lemma ByRuntimeUnique(impls: seq<Impl>, x: Impl)
    requires UniqueRuntimes(impls) && x in impls
    ensures x.runtime in ImplsByRuntime(impls) && ImplsByRuntime(impls)[x.runtime] == x
  {
    ByRuntimeKeys(impls);
    var i :| 0 <= i < |impls| && impls[i] == x;
    assert impls[i].runtime in Runtimes(impls);
    var y := ImplsByRuntime(impls)[x.runtime];
    var k :| 0 <= k < |impls| && impls[k] == y;
    assert k == i;
  }

  // ----- Plan mode -----

  lemma RuntimeSnoc(a: seq<Impl>, x: Impl)
    ensures RuntimeSeq(a + [x]) == RuntimeSeq(a) + [x.runtime]
  {
  }

  /** With planned implementations the result has exactly the planned runtimes in the planned order, for
      any server answer. */
  lemma {:induction false} PlanRuntimes(impls: seq<Impl>, planned: seq<Impl>)
    ensures RuntimeSeq(FromPrevious(planned, ImplsByRuntime(impls), FromPlan)) == RuntimeSeq(planned)
  {
    if planned != [] {
      var n := |planned| - 1;
      var server := ImplsByRuntime(impls);
      PlanRuntimes(impls, planned[..n]);
      ByRuntimeKeys(impls);
      RuntimeSnoc(FromPrevious(planned[..n], server, FromPlan),
                  if planned[n].runtime in server then server[planned[n].runtime] else planned[n]);
      RuntimeSnoc(planned[..n], planned[n]);
      assert planned == planned[..n] + [planned[n]];
    }
  }

  /** The runtimes of the result follow the plan exactly when the plan has implementations or the server
      runtimes happen to be the planned ones: without planned implementations the server's pass through. */
  lemma PlanRuntimesExactly(impls: seq<Impl>, planned: seq<Impl>)
    ensures RuntimeSeq(OrderedImpls(impls, planned, FromPlan)) == RuntimeSeq(planned) <==> planned != [] || impls == []
  {
    if planned == [] {
      assert |RuntimeSeq(impls)| == |impls|;
    } else {
      PlanRuntimes(impls, planned);
      assert FromPrevious(planned, ImplsByRuntime(impls), FromPlan) + [] ==
             FromPrevious(planned, ImplsByRuntime(impls), FromPlan);
    }
  }

  /** The implementation of a planned runtime is the server's, or the planned one when the server lacks it. */
  lemma {:induction false} ApplyImpls(impls: seq<Impl>, planned: seq<Impl>)
    requires UniqueRuntimes(impls)
    ensures var kept := FromPrevious(planned, ImplsByRuntime(impls), FromPlan);
            |kept| == |planned| && forall i :: 0 <= i < |planned| ==>
              (kept[i] in impls && kept[i].runtime == planned[i].runtime) ||
              (kept[i] == planned[i] && forall x :: x in impls ==> x.runtime != planned[i].runtime)
  {
    hide ImplsByRuntime, UniqueRuntimes;
    if planned != [] {
      var n := |planned| - 1;
      var server := ImplsByRuntime(impls);
      ApplyImpls(impls, planned[..n]);
      ByRuntimeKeys(impls);
      FromPreviousStep(planned, n, server, FromPlan);
      assert planned[..n + 1] == planned;
      if planned[n].runtime !in server {
        forall x | x in impls ensures x.runtime != planned[n].runtime {
          ByRuntimeUnique(impls, x);
        }
      }
    }
  }

  // ----- Refresh mode -----

  lemma UniqueSnoc(a: seq<Impl>, x: Impl)
    requires UniqueRuntimes(a) && forall y :: y in a ==> y.runtime != x.runtime
    ensures UniqueRuntimes(a + [x])
  {
    assert forall i :: 0 <= i < |a| ==> a[i] in a;
  }

  lemma {:induction false} KeptFromPrevious(previous: seq<Impl>, server: map<string, Impl>)
    requires UniqueRuntimes(previous) && forall k :: k in server ==> server[k].runtime == k
    ensures var kept := FromPrevious(previous, server, FromServer);
            && (forall x :: x in kept <==> x.runtime in Converted(previous, server) && x == server[x.runtime])
            && UniqueRuntimes(kept)
    ensures Converted(previous, server) <= server.Keys
  {
    if previous != [] {
      var n := |previous| - 1;
      KeptFromPrevious(previous[..n], server);
      FromPreviousStep(previous, n, server, FromServer);
      assert previous[..n + 1] == previous;
      var before := FromPrevious(previous[..n], server, FromServer);
      var key := previous[n].runtime;
      if key in server {
        assert key !in Converted(previous[..n], server);
        UniqueSnoc(before, server[key]);
      }
    }
  }

  lemma {:induction false} ExtrasHold(impls: seq<Impl>, converted: set<string>)
    requires UniqueRuntimes(impls)
    ensures forall x :: x in Extras(impls, converted) <==> x in impls && x.runtime !in converted
    ensures UniqueRuntimes(Extras(impls, converted))
  {
    if impls != [] {
      var n := |impls| - 1;
      ExtrasHold(impls[..n], converted);
      assert impls == impls[..n] + [impls[n]];
      assert impls[n].runtime !in Runtimes(impls[..n]);
      var before := Extras(impls[..n], converted);
      if impls[n].runtime in converted {
        assert Extras(impls, converted) == before + [] == before;
      } else {
        UniqueSnoc(before, impls[n]);
      }
    }
  }

  /** A refresh shows exactly the server's implementations, each runtime once. */
  lemma RefreshKeepsImpls(impls: seq<Impl>, previous: seq<Impl>)
    requires UniqueRuntimes(impls) && UniqueRuntimes(previous)
    ensures var ordered := OrderedImpls(impls, previous, FromServer);
            && (forall x :: x in ordered <==> x in impls)
            && UniqueRuntimes(ordered)
  {
    if previous != [] {
      var server := ImplsByRuntime(impls);
      ByRuntimeKeys(impls);
      KeptFromPrevious(previous, server);
      var converted := Converted(previous, server);
      ExtrasHold(impls, converted);
      var kept, extras := FromPrevious(previous, server, FromServer), Extras(impls, converted);
      forall x ensures x in kept + extras <==> x in impls {
        if x in impls {
          ByRuntimeUnique(impls, x);
        }
      }
      forall i, k | 0 <= i < |kept| && 0 <= k < |extras| ensures kept[i].runtime != extras[k].runtime {
        assert kept[i] in kept && extras[k] in extras;
      }
    }
  }

  lemma {:induction false} AllKept(previous: seq<Impl>, server: map<string, Impl>)
    requires forall i :: 0 <= i < |previous| ==> previous[i].runtime in server
    ensures var kept := FromPrevious(previous, server, FromServer);
            |kept| == |previous| && forall i :: 0 <= i < |kept| ==> kept[i] == server[previous[i].runtime]
  {
    if previous != [] {
      var n := |previous| - 1;
      AllKept(previous[..n], server);
      FromPreviousStep(previous, n, server, FromServer);
      assert previous[..n + 1] == previous;
    }
  }

  lemma {:induction false} NoExtras(impls: seq<Impl>, converted: set<string>)
    requires forall i :: 0 <= i < |impls| ==> impls[i].runtime in converted
    ensures Extras(impls, converted) == []
  {
    if impls != [] {
      NoExtras(impls[..|impls| - 1], converted);
    }
  }

  /** A server's implementations, asked for by the runtimes of an order of them, come in that order. */
  lemma {:induction false} OrderKept(impls: seq<Impl>, ordered: seq<Impl>, next: seq<Impl>)
    requires UniqueRuntimes(impls) && (forall x :: x in ordered <==> x in impls)
    requires ordered != [] && |next| == |ordered|
    requires forall i :: 0 <= i < |ordered| ==> next[i].runtime == ordered[i].runtime
    ensures OrderedImpls(impls, next, FromServer) == ordered
  {
    hide UniqueRuntimes, ImplsByRuntime, FromPrevious, Extras;
    var server := ImplsByRuntime(impls);
    forall i | 0 <= i < |ordered|
      ensures next[i].runtime in server && server[next[i].runtime] == ordered[i]
    {
      assert ordered[i] in ordered;
      ByRuntimeUnique(impls, ordered[i]);
    }
    AllKept(next, server);
    forall i | 0 <= i < |impls| ensures impls[i].runtime in Converted(next, server) {
      assert impls[i] in ordered;
      var k :| 0 <= k < |ordered| && ordered[k] == impls[i];
      assert next[k].runtime == impls[i].runtime;
    }
    NoExtras(impls, Converted(next, server));
    assert FromPrevious(next, server, FromServer) == ordered;
    assert ordered + [] == ordered;
  }

  lemma ShownRuntimesRead(impls: seq<Impl>)
    ensures forall i :: 0 <= i < |impls| ==> ReadEach(ShowImpls(impls))[i].runtime == impls[i].runtime
  {
    hide ShowImpl, ReadImpl;
    forall i | 0 <= i < |impls| ensures ReadEach(ShowImpls(impls))[i].runtime == impls[i].runtime {
      ShownReads(impls[i]);
    }
  }

  /** Refreshing once more from the shown implementations changes nothing. */
  lemma RefreshImplsStable(impls: seq<Impl>, previous: seq<Impl>)
    requires UniqueRuntimes(impls) && UniqueRuntimes(previous)
    ensures var shown := ShowImpls(OrderedImpls(impls, previous, FromServer));
            ShowImpls(OrderedImpls(impls, ReadEach(shown), FromServer)) == shown
  {
    hide UniqueRuntimes, OrderedImpls, ShowImpl, ReadImpl;
    var ordered := OrderedImpls(impls, previous, FromServer);
    RefreshKeepsImpls(impls, previous);
    ShownRuntimesRead(ordered);
    assert (impls != [] ==> impls[0] in impls) && (ordered != [] ==> ordered[0] in ordered);
    if impls == [] {
      NothingStable();
    } else {
      OrderKept(impls, ordered, ReadEach(ShowImpls(ordered)));
    }
  }

  lemma NothingStable()
    ensures OrderedImpls([], [], FromServer) == [] && ReadEach(ShowImpls([])) == [] && ShowImpls([]) == []
  {
  }
}
