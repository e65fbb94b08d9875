/** A server that tells definitions apart by what their parameters mean rather than by how they are spelled. */
module FunctionMeanings {
  import opened Common
  import opened Json
  import opened JsonText
  import opened JsonCompact
  import opened RawJson
  import opened Functions
  import opened FunctionUpdates
  import opened FunctionSamples
  import opened TerraformFunctions
  import opened FunctionUpdateLaws
  import opened Reconcile
  import opened ReconcileSpelling

  /** A parameter to such a server: its name and the meaning of its type, if that is a document. */
  datatype ParamMeaning = ParamMeaning(name: string, typ: Option<Value>)

  /** What a raw type means; a missing one is sent as null. */
  function TypeMeaning(raw: string): Option<Value> {
    if raw == "" then Some(NullValue)
    else
      var j :- ParseText(raw);
      Some(Meaning(j))
  }

  function MeaningKey(ps: seq<Param>): seq<ParamMeaning> {
    seq(|ps|, i requires 0 <= i < |ps| => ParamMeaning(ps[i].name, TypeMeaning(ps[i].dataType)))
  }

  lemma WiredMeaning(raw: string)
    requires WireRequired(raw).Some?
    ensures TypeMeaning(WireRequired(raw).value) == TypeMeaning(raw)
  {
    hide ParseText, CompactOut, Meaning;
    if raw == "" {
      NullText();
      NullMeans();
    } else {
      CompactKeepsMeaning(raw);
      NotEmptyCompacted(raw);
    }
  }

  lemma NullMeans()
    ensures Meaning(JNull) == NullValue
  {
  }

  /** Definitions of one shape have parameters of one meaning. */
  lemma ShapeMeans(a: Definition, b: Definition)
    requires ShapeOf(a) == ShapeOf(b)
    ensures MeaningKey(a.parameters) == MeaningKey(b.parameters)
  {
    hide WireParams, WireOptional, WireColumns, WireRequired, TypeMeaning;
    if WireParams(a.parameters).Some? && WireParams(a.parameters) == WireParams(b.parameters) {
      WireParamsAt(a.parameters);
      WireParamsAt(b.parameters);
      forall i | 0 <= i < |a.parameters|
        ensures TypeMeaning(a.parameters[i].dataType) == TypeMeaning(b.parameters[i].dataType)
      {
        WiredMeaning(a.parameters[i].dataType);
        WiredMeaning(b.parameters[i].dataType);
      }
    } else {
      assert a.parameters == b.parameters;
    }
  }

  /** Such a server accepts the whole request list exactly when no two planned definitions mean the same, and
      then holds the plan. */
  lemma MeaningsAcceptedExactly(plan: seq<Definition>, state: seq<Definition>)
    requires UniqueSignatures(plan) && UniqueSignatures(state) && UniqueKeys(MeaningKey, state)
    requires forall i :: 0 <= i < |plan| ==> UniqueRuntimes(plan[i].impls)
    ensures var end := ExecuteAll(MeaningKey, ServerOf(MeaningKey, state), DefinitionRequests(plan, state));
            && (end.Some? <==> UniqueKeys(MeaningKey, plan))
            && (UniqueKeys(MeaningKey, plan) ==> end == Some(ServerOf(MeaningKey, plan)))
  {
    hide ShapeOf, MeaningKey, UniqueSignatures, UniqueRuntimes, UniqueKeys, Signature, ExecuteAll, ServerOf,
      DefinitionRequests;
    forall i, k | 0 <= i < |plan| && 0 <= k < |state| && Signature(plan[i]) == Signature(state[k]) &&
                  ShapeOf(plan[i]) == ShapeOf(state[k])
      ensures MeaningKey(plan[i].parameters) == MeaningKey(state[k].parameters)
    {
      ShapeMeans(plan[i], state[k]);
    }
    AcceptedExactly(MeaningKey, plan, state);
  }

  lemma OneParamMeans(name: string, a: string, b: string)
    requires a != "" && b != "" && ParseText(a).Some? && ParseText(b).Some?
    requires Meaning(ParseText(a).value) == Meaning(ParseText(b).value)
    ensures MeaningKey(OneParam(name, a).parameters) == MeaningKey(OneParam(name, b).parameters)
  {
    hide ParseText, Meaning;
  }

  /** The provider accepts a plan that spells one type in two ways under two signatures; such a server does
      not. */
  lemma TwoSpellingsRefused() returns (tf: seq<TFDefinition>, plan: seq<Definition>)
    ensures ReadDefinitions(tf) == Some(plan)
    ensures UniqueSignatures(plan) && forall i :: 0 <= i < |plan| ==> UniqueRuntimes(plan[i].impls)
    ensures ExecuteAll(MeaningKey, map[], DefinitionRequests(plan, [])) == None
  {
    hide Print, ToTerraform, ParseText, Printable, MeaningKey, DefinitionRequests, ExecuteAll, Signature, Meaning,
      TypeFromTerraform, ReadDefinition, ReadDefinitions;
    var a, b := Print(CATALOG_FIRST), Print(TYPE_FIRST);
    TwoTypeTexts();
    plan := [OneParam("p", a), OneParam("p", b)];
    tf := [TFOneParam("p", a, None), TFOneParam("p", b, None)];
    ReadOneParam("p", a, None, a);
    ReadOneParam("p", b, None, b);
    TwoRead(tf[0], tf[1], plan[0], plan[1]);
    OneParamSignature("p", a);
    OneParamSignature("p", b);
    assert ("p" + ":" + a)[2..] == a && ("p" + ":" + b)[2..] == b;
    assert Signature(plan[0]) != Signature(plan[1]);
    OneParamMeans("p", a, b);
    assert MeaningKey(plan[0].parameters) == MeaningKey(plan[1].parameters);
    MeaningsAcceptedExactly(plan, []);
  }

  lemma TwoTypeTexts()
    ensures var a, b := Print(CATALOG_FIRST), Print(TYPE_FIRST);
            && a != b && a != "" && b != "" && ToTerraform(a) == a && ToTerraform(b) == b
            && TypeFromTerraform(a) == Some(a) && TypeFromTerraform(b) == Some(b)
            && ParseText(a).Some? && ParseText(b).Some?
            && Meaning(ParseText(a).value) == Meaning(ParseText(b).value)
  {
    hide Print, Printable, ParseText, Meaning, ToTerraform, RawEqual, TypeFromTerraform;
    Texts();
    BothPrintable();
    PrintedDocument(CATALOG_FIRST);
    PrintedDocument(TYPE_FIRST);
    SameDocument(Member("catalogString", JStr("x")), Member("type", JStr("external")));
  }
}
