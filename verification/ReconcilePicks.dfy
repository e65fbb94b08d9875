/** The definitions a merge picks, and what each of them shows. */
module ReconcilePicks {
  import opened Common
  import opened Functions
  import opened FunctionUpdates
  import opened Reconcile
  import opened ReconcileLaws
  import opened ReconcileSpelling

  /** A pick shows the server definition s, or the previous definition that stands for it, in the spelling of
      the previous one, which has the same signature. */
  ghost predicate PickOf(p: Pick, s: Definition, previous: seq<Definition>) {
    p.definition == Effective(p.previous, s) && Signature(p.definition) == Signature(s) &&
    (p.previous.Some? ==> p.previous.value in previous && Signature(p.previous.value) == Signature(s))
  }

  lemma {:induction false} ChosenPicks(previous: seq<Definition>, server: map<string, Definition>)
    requires forall k :: k in server ==> Signature(server[k]) == k
    ensures forall p :: p in ChosenFromPrevious(previous, server, FromServer) ==>
              Signature(p.definition) in server && PickOf(p, server[Signature(p.definition)], previous)
  {
    hide Signature, WireEqual;
    if previous != [] {
      var n := |previous| - 1;
      ChosenPicks(previous[..n], server);
      var a, b := ChosenFromPrevious(previous[..n], server, FromServer), Choose(previous[n], server, FromServer);
      forall p: Pick | p in a + b
        ensures Signature(p.definition) in server && PickOf(p, server[Signature(p.definition)], previous)
      {
        if p in a {
          assert forall d :: d in previous[..n] ==> d in previous;
        }
      }
    }
  }

  lemma {:induction false} ServerOnlyPicks(ds: seq<Definition>, converted: set<string>)
    ensures forall p :: p in ServerOnly(ds, converted) ==>
              p.previous == None && Signature(p.definition) in IndexDefinitions(ds) &&
              p.definition == IndexDefinitions(ds)[Signature(p.definition)]
  {
    hide Signature;
    if ds != [] {
      var n := |ds| - 1;
      ServerOnlyPicks(ds[..n], converted);
      IndexedKeys(ds[..n]);
      SignatureSet(ds[..n]);
    }
  }

  lemma AllPicks(definitions: seq<Definition>, previous: seq<Definition>)
    ensures var server := IndexDefinitions(definitions);
            forall p :: p in Picks(definitions, previous, FromServer) ==>
              Signature(p.definition) in server && PickOf(p, server[Signature(p.definition)], previous)
  {
    var server := IndexDefinitions(definitions);
    IndexedKeys(definitions);
    ChosenPicks(previous, server);
    ServerOnlyPicks(definitions, ConvertedSignatures(previous, server, FromServer));
  }

  /** Every previous definition the server still has is picked. */
  lemma {:induction false} PreviousPicked(previous: seq<Definition>, server: map<string, Definition>, d: Definition)
    requires d in previous && Signature(d) in server
    ensures Pick(Effective(Some(d), server[Signature(d)]), Some(d)) in ChosenFromPrevious(previous, server, FromServer)
  {
    hide Signature, WireEqual;
    var n := |previous| - 1;
    if previous[n] == d {
      assert Choose(d, server, FromServer) == [Pick(Effective(Some(d), server[Signature(d)]), Some(d))];
    } else {
      assert previous == previous[..n] + [previous[n]];
      PreviousPicked(previous[..n], server, d);
    }
  }

  lemma KeptIsPicked(definitions: seq<Definition>, previous: seq<Definition>, d: Definition)
    requires var server := IndexDefinitions(definitions); d in previous && Signature(d) in server
    ensures Pick(Effective(Some(d), IndexDefinitions(definitions)[Signature(d)]), Some(d)) in
            Picks(definitions, previous, FromServer)
  {
    PreviousPicked(previous, IndexDefinitions(definitions), d);
  }

  /** What stands for a planned definition in an apply. */
  function Planned(d: Definition, server: map<string, Definition>): Definition {
    if Signature(d) in server then Effective(Some(d), server[Signature(d)]) else d
  }

  /** An apply shows, for each planned definition in order, the server's, or the planned one when the server
      lacks it or returns it equal on the wire. */
  lemma ApplyShows(definitions: seq<Definition>, planned: seq<Definition>)
    ensures var out := Mapped(definitions, planned, FromPlan);
            |out| == |planned| &&
            forall i :: 0 <= i < |planned| ==>
              out[i] == ToObject(Planned(planned[i], IndexDefinitions(definitions)), Some(planned[i]), FromPlan)
  {
    hide Signature, WireEqual, ToObject, Picks;
    PlanPicks(definitions, planned);
  }
}
