/** A whole update of a function: the requests are executed, the server is read back, and the result is the
    plan. */
module FunctionApply {
  import opened Common
  import opened RawJson
  import opened Functions
  import opened FunctionUpdates
  import opened FunctionUpdateLaws
  import opened Reconcile
  import opened ReconcileApply
  import opened ReconcileImpls
  import opened ReconcilePicks
  import opened SignatureLaws
  import opened ReconcileSpelling
  import opened TerraformFunctions

  /** What the server reports of a definition it holds; an implementation without resources may be reported
      with an empty resources object. */
  predicate SameStored(a: Stored, b: Stored) {
    a.shape == b.shape && a.impls.Keys == b.impls.Keys &&
    forall r :: r in a.impls && r in b.impls ==> ShowImpl(a.impls[r]) == ShowImpl(b.impls[r])
  }

  /** An answer that reports what the server holds, in any order. */
  ghost predicate Reports(answer: seq<Definition>, held: map<string, Stored>) {
    var reported := ServerOf(SignatureOf, answer);
    reported.Keys == held.Keys && forall k :: k in reported && k in held ==> SameStored(reported[k], held[k])
  }

  // ----- One definition -----

  lemma {:induction false} IndexIsLookup(impls: seq<Impl>)
    requires UniqueRuntimes(impls)
    ensures IndexImpls(impls) == ImplsByRuntime(impls)
  {
    if impls != [] {
      var n := |impls| - 1;
      IndexIsLookup(impls[..n]);
      ByRuntimeKeys(impls[..n]);
      assert impls[n].runtime !in Runtimes(impls[..n]);
    }
  }

  lemma ImplsReported(s: seq<Impl>, p: seq<Impl>)
    requires UniqueRuntimes(s) && UniqueRuntimes(p) && IndexImpls(s).Keys == IndexImpls(p).Keys
    requires forall r :: r in IndexImpls(s) && r in IndexImpls(p) ==>
               ShowImpl(IndexImpls(s)[r]) == ShowImpl(IndexImpls(p)[r])
    ensures ImplsAnswer(s, p)
  {
    hide ShowImpl, UniqueRuntimes, IndexImpls, ImplsByRuntime;
    IndexIsLookup(s);
    IndexIsLookup(p);
    ByRuntimeKeys(s);
    ByRuntimeKeys(p);
    assert s != [] ==> s[0].runtime in Runtimes(s);
    assert p == [] ==> Runtimes(p) == {};
    forall i | 0 <= i < |p| ensures p[i].runtime in ImplsByRuntime(p) && ImplsByRuntime(p)[p[i].runtime] == p[i] {
      ByRuntimeUnique(p, p[i]);
    }
  }

  /** A definition of the planned shape has values that mean the planned ones. */
  lemma {:induction false} ShapeAnswers(s: Definition, p: Definition)
    requires ReadForm(p) && ShapeOf(s) == ShapeOf(p) && ImplsAnswer(s.impls, p.impls)
    ensures Answers(s, p)
  {
    hide Wire, ReadForm, RawEqual, ImplsAnswer, WireRequired, WireOptional;
    var a, b := p.(impls := []), s.(impls := []);
    BareForm(p);
    if Wire(a).Some? {
      WireMembers(a, b);
      WireAnswers(a, b);
    } else {
      AnswersItself(a);
    }
  }

  lemma BareForm(p: Definition)
    requires ReadForm(p)
    ensures ReadForm(p.(impls := []))
  {
    hide Encoded, OptionalEncoded, TypeText;
  }

  lemma {:induction false} WireAnswers(a: Definition, b: Definition)
    requires ReadForm(a) && WireEqual(a, b)
    ensures |a.parameters| == |b.parameters| && |a.returnColumns| == |b.returnColumns|
    ensures forall k :: 0 <= k < |a.parameters| ==>
              RawEqual(a.parameters[k].dataType, b.parameters[k].dataType) &&
              RawEqual(a.parameters[k].defaultValue, b.parameters[k].defaultValue)
    ensures forall k :: 0 <= k < |a.returnColumns| ==>
              RawEqual(a.returnColumns[k].dataType, b.returnColumns[k].dataType)
    ensures RawEqual(a.returnType, b.returnType)
  {
    hide RawEqual, Encoded, WireRequired, WireOptional, WireEqual, TypeText, UniqueRuntimes;
    WireMembers(a, b);
    forall k | 0 <= k < |a.parameters|
      ensures RawEqual(a.parameters[k].dataType, b.parameters[k].dataType)
      ensures RawEqual(a.parameters[k].defaultValue, b.parameters[k].defaultValue)
    {
      WireMeans(a.parameters[k].dataType, b.parameters[k].dataType);
      WireMeans(a.parameters[k].defaultValue, b.parameters[k].defaultValue);
    }
    forall k | 0 <= k < |a.returnColumns| ensures RawEqual(a.returnColumns[k].dataType, b.returnColumns[k].dataType) {
      WireMeans(a.returnColumns[k].dataType, b.returnColumns[k].dataType);
    }
    WireMeans(a.returnType, b.returnType);
  }

  // ----- The whole update -----

  lemma SignatureKeys(ds: seq<Definition>)
    ensures UniqueSignatures(ds) <==> UniqueKeys(SignatureOf, ds)
  {
    hide SignatureOf;
  }

  /** An answer that reports the planned definitions answers each of them in equivalent form. */
  lemma {:induction false} ReportAgrees(answer: seq<Definition>, planned: seq<Definition>)
    requires UniqueSignatures(answer) && UniqueSignatures(planned)
    requires (forall d :: d in answer ==> UniqueRuntimes(d.impls)) && (forall d :: d in planned ==> ReadForm(d))
    requires Reports(answer, ServerOf(SignatureOf, planned))
    ensures ServerAgrees(answer, planned)
  {
    hide Signature, ReadForm, UniqueRuntimes, Answers, ServerOf, IndexDefinitions, UniqueSignatures, UniqueKeys, Store,
      SameStored;
    SignatureKeys(answer);
    SignatureKeys(planned);
    ServerHolds(SignatureOf, answer);
    ServerHolds(SignatureOf, planned);
    IndexedDefinitions(answer);
    var server := IndexDefinitions(answer);
    forall i | 0 <= i < |planned| && Signature(planned[i]) in server
      ensures Answers(server[Signature(planned[i])], planned[i])
    {
      var k :| 0 <= k < |answer| && Signature(answer[k]) == Signature(planned[i]);
      SignatureIs(answer[k]);
      SignatureIs(planned[i]);
      StoredAnswers(answer[k], planned[i]);
    }
  }

  lemma SignatureIs(d: Definition)
    ensures Signature(d) == SignatureOf(d.parameters)
  {
  }

  lemma StoredAnswers(s: Definition, p: Definition)
    requires ReadForm(p) && UniqueRuntimes(s.impls) && SameStored(Store(s), Store(p))
    ensures Answers(s, p)
  {
    hide ShapeOf, ShowImpl, Answers, Encoded, OptionalEncoded, TypeText, IndexImpls;
    ImplsReported(s.impls, p.impls);
    ShapeAnswers(s, p);
  }

  /** From plan to plan. The requests of an update are all accepted; and when the server then reports what it
      holds, the values shown are exactly those the plan was written in if and only if each definition is
      written plainly and repeated names keep their texts. */
  lemma {:induction false} UpdateReturnsPlan(tf: seq<TFDefinition>, planned: seq<Definition>, state: seq<Definition>,
                                             answer: seq<Definition>)
    requires ReadDefinitions(tf) == Some(planned) && UniqueSignatures(planned) && UniqueSignatures(state)
    requires UniqueSignatures(answer) && forall d :: d in answer ==> UniqueRuntimes(d.impls)
    ensures var end := ExecuteAll(SignatureOf, ServerOf(SignatureOf, state), DefinitionRequests(planned, state));
            && end.Some?
            && (Reports(answer, end.value) ==>
                  (Mapped(answer, planned, FromPlan) == tf <==>
                     forall i :: 0 <= i < |tf| && i < |planned| ==>
                       AsWritten(tf[i], planned[i], Planned(planned[i], IndexDefinitions(answer)))))
            && (Reports(answer, end.value) && (forall i :: 0 <= i < |planned| ==> DistinctNames(planned[i])) ==>
                  (Mapped(answer, planned, FromPlan) == tf <==> forall i :: 0 <= i < |tf| ==> WrittenPlainly(tf[i])))
  {
    hide ReadDefinition, ReadForm, UniqueRuntimes, UniqueSignatures, Signature, ServerOf, ExecuteAll,
      DefinitionRequests, Mapped, AsWritten, WrittenPlainly, ServerAgrees, Planned, DistinctNames, Reports, UniqueKeys;
    forall d | d in planned ensures ReadForm(d) && UniqueRuntimes(d.impls) {
      var i :| 0 <= i < |planned| && planned[i] == d;
      ReadHasForm(tf[i], d);
      ReadParts(tf[i], d);
    }
    SignatureKeys(planned);
    SignatureKeys(state);
    CoherentSignatures(planned, state);
    UpdatesReachPlan(SignatureOf, planned, state);
    if Reports(answer, ServerOf(SignatureOf, planned)) {
      ReportAgrees(answer, planned);
      ApplyReturnsPlan(tf, planned, answer);
      if forall i :: 0 <= i < |planned| ==> DistinctNames(planned[i]) {
        PlainPlanReturned(tf, planned, answer);
      }
    }
  }

  lemma CoherentSignatures(plan: seq<Definition>, state: seq<Definition>)
    ensures Coherent(SignatureOf, plan, state)
  {
    hide SignatureOf, ShapeOf;
  }
}
