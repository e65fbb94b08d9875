/** When an apply returns exactly the values of the plan. */
module ReconcileApply {
  import opened Common
  import opened RawJson
  import opened Functions
  import opened FunctionUpdates
  import opened Reconcile
  import opened ReconcileImpls
  import opened ReconcilePicks
  import opened ReconcilePlain
  import opened ReconcileRepeats
  import opened ReconcileSpelling
  import opened TerraformFunctions

  // ----- Answers -----

  /** The server's implementations of the planned runtimes are the planned ones; there are none without a
      plan. */
  predicate ImplsAnswer(s: seq<Impl>, p: seq<Impl>) {
    var server := ImplsByRuntime(s);
    (p == [] ==> s == []) &&
    forall i | 0 <= i < |p| :: p[i].runtime in server ==> ShowImpl(server[p[i].runtime]) == ShowImpl(p[i])
  }

  /** A definition answers a planned one: the same names and comments, values that mean the same, the same
      implementations. */
  predicate Answers(s: Definition, p: Definition) {
    && |s.parameters| == |p.parameters| && |s.returnColumns| == |p.returnColumns|
    && (forall k | 0 <= k < |p.parameters| ::
          s.parameters[k].name == p.parameters[k].name && s.parameters[k].comment == p.parameters[k].comment &&
          RawEqual(p.parameters[k].dataType, s.parameters[k].dataType) &&
          RawEqual(p.parameters[k].defaultValue, s.parameters[k].defaultValue))
    && (forall k | 0 <= k < |p.returnColumns| ::
          s.returnColumns[k].name == p.returnColumns[k].name &&
          s.returnColumns[k].comment == p.returnColumns[k].comment &&
          RawEqual(p.returnColumns[k].dataType, s.returnColumns[k].dataType))
    && RawEqual(p.returnType, s.returnType)
    && ImplsAnswer(s.impls, p.impls)
  }

  lemma OptionalReflexive(raw: string)
    requires OptionalEncoded(raw)
    ensures RawEqual(raw, raw)
  {
    if raw != "" {
      EncodedIsJson(raw);
    }
  }

  /** A planned definition answers itself. */
  lemma {:induction false} AnswersItself(p: Definition)
    requires ReadForm(p)
    ensures Answers(p, p)
  {
    hide RawEqual, Encoded;
    forall k | 0 <= k < |p.parameters|
      ensures RawEqual(p.parameters[k].dataType, p.parameters[k].dataType)
      ensures RawEqual(p.parameters[k].defaultValue, p.parameters[k].defaultValue)
    {
      OptionalReflexive(p.parameters[k].dataType);
      OptionalReflexive(p.parameters[k].defaultValue);
    }
    forall k | 0 <= k < |p.returnColumns| ensures RawEqual(p.returnColumns[k].dataType, p.returnColumns[k].dataType) {
      OptionalReflexive(p.returnColumns[k].dataType);
    }
    OptionalReflexive(p.returnType);
    forall i | 0 <= i < |p.impls|
      ensures p.impls[i].runtime in ImplsByRuntime(p.impls) && ImplsByRuntime(p.impls)[p.impls[i].runtime] == p.impls[i]
    {
      ByRuntimeUnique(p.impls, p.impls[i]);
    }
  }

  // ----- Implementations -----

  lemma {:induction false} PlannedImpls(planned: seq<Impl>, server: map<string, Impl>)
    ensures var kept := FromPrevious(planned, server, FromPlan);
            |kept| == |planned| && forall i :: 0 <= i < |planned| ==>
              kept[i] == if planned[i].runtime in server then server[planned[i].runtime] else planned[i]
  {
    if planned != [] {
      var n := |planned| - 1;
      PlannedImpls(planned[..n], server);
      FromPreviousStep(planned, n, server, FromPlan);
      assert planned[..n + 1] == planned;
    }
  }

  /** The planned implementations are shown exactly as they were written if nothing in them is present and
      empty. */
  lemma {:induction false} ImplsReturned(tf: seq<TFImpl>, s: seq<Impl>)
    requires ImplsAnswer(s, ReadEach(tf))
    ensures ShowImpls(OrderedImpls(s, ReadEach(tf), FromPlan)) == tf <==>
            forall i :: 0 <= i < |tf| ==> NoEmptyParts(tf[i])
  {
    hide ImplsByRuntime, ShowImpl, ReadImpl, NoEmptyParts;
    var p := ReadEach(tf);
    var shown := ShowImpls(OrderedImpls(s, p, FromPlan));
    if p != [] {
      PlannedImpls(p, ImplsByRuntime(s));
      var kept := FromPrevious(p, ImplsByRuntime(s), FromPlan);
      assert kept + [] == kept;
    }
    assert |shown| == |tf|;
    forall i | 0 <= i < |tf| ensures shown[i] == ShowImpl(p[i]) && (shown[i] == tf[i] <==> NoEmptyParts(tf[i])) {
      ImplAsWritten(tf[i]);
    }
    SameItems(shown, tf);
  }

  /** In the result of an apply the runtimes of a definition are the planned ones, in order, exactly if
      implementations are planned or there are none to pass through. */
  lemma ApplyRuntimes(definitions: seq<Definition>, planned: seq<Definition>, i: nat)
    requires i < |planned|
    ensures var out := Mapped(definitions, planned, FromPlan);
            && |out| == |planned|
            && (RuntimesShown(Items(out[i].impls)) == RuntimeSeq(planned[i].impls) <==>
                  planned[i].impls != [] || Planned(planned[i], IndexDefinitions(definitions)).impls == [])
  {
    hide Signature, WireEqual, OrderedImpls, ShowParams, ShowColumns, PreferRaw;
    ApplyShows(definitions, planned);
    var e := Planned(planned[i], IndexDefinitions(definitions));
    PlanRuntimesExactly(e.impls, planned[i].impls);
    SameRuntimes(OrderedImpls(e.impls, planned[i].impls, FromPlan));
  }

  lemma SameRuntimes(impls: seq<Impl>)
    ensures RuntimesShown(ShowImpls(impls)) == RuntimeSeq(impls)
  {
  }

  // ----- One definition -----

  predicate PlainOptional(v: Option<string>) {
    v.None? || Plain(v.value)
  }

  /** Reading an optional value back shows it as it was written exactly if it is plain. */
  lemma OptionalAsWritten(v: Option<string>, raw: string)
    requires ReadOptional(v) == Some(raw)
    ensures ShowOptional(raw) == v <==> PlainOptional(v)
    ensures raw == "" <==> v.None? || v.value == ""
  {
    hide ToTerraform;
    if v.Some? && v.value != "" {
      ReadEncodes(v.value);
      EncodedIsJson(raw);
      ShownAsWritten(v.value, raw);
    }
  }

  lemma PreferEqual(p: string, s: string)
    requires RawEqual(p, s)
    ensures PreferRaw(p, s) == p
  {
  }

  lemma {:induction false} ParamReturned(tf: TFParam, p: Param, e: Param)
    requires TypeFromTerraform(tf.dataType) == Some(p.dataType) && ReadOptional(tf.defaultValue) == Some(p.defaultValue)
    requires RawEqual(p.dataType, e.dataType) && RawEqual(p.defaultValue, e.defaultValue)
    ensures ParamShown(p, e, tf) <==> Plain(tf.dataType) && PlainOptional(tf.defaultValue)
  {
    hide ToTerraform, ShowOptional, RawEqual, ReadOptional, TypeFromTerraform, Plain;
    PreferEqual(p.dataType, e.dataType);
    PreferEqual(p.defaultValue, e.defaultValue);
    TypeAsWritten(tf.dataType, p.dataType);
    OptionalAsWritten(tf.defaultValue, p.defaultValue);
  }

  /** No comment, list or part of an implementation is present and empty. */
  predicate NothingEmpty(tf: TFDefinition) {
    && tf.parameters != Some([]) && tf.returnColumns != Some([]) && tf.impls != Some([])
    && (forall k | 0 <= k < |Items(tf.parameters)| :: Items(tf.parameters)[k].comment != Some(""))
    && (forall k | 0 <= k < |Items(tf.returnColumns)| :: Items(tf.returnColumns)[k].comment != Some(""))
    && (forall k | 0 <= k < |Items(tf.impls)| :: NoEmptyParts(Items(tf.impls)[k]))
  }

  /** Nothing that is shown is present and empty. */
  lemma ShownNotEmpty(e: Definition, previous: Option<Definition>, mode: Mode)
    ensures NothingEmpty(ToObject(e, previous, mode))
  {
    hide PreferRaw, ToTerraform, ShowOptional, OrderedImpls, NoEmptyParts, ShowImpl;
    var p := if previous.Some? then previous.value else Definition([], "", [], []);
    var impls := OrderedImpls(e.impls, p.impls, mode);
    forall k | 0 <= k < |impls| ensures NoEmptyParts(ShowImpls(impls)[k]) {
      ShownReads(impls[k]);
      ImplAsWritten(ShowImpl(impls[k]));
    }
  }

  /** So a plan with something present and empty never comes back, whatever the server answers. */
  lemma EmptyNeverReturned(definitions: seq<Definition>, planned: seq<Definition>, i: nat)
    requires i < |planned|
    ensures var out := Mapped(definitions, planned, FromPlan);
            |out| == |planned| && NothingEmpty(out[i])
  {
    hide ToObject, NothingEmpty, Planned;
    ApplyShows(definitions, planned);
    ShownNotEmpty(Planned(planned[i], IndexDefinitions(definitions)), Some(planned[i]), FromPlan);
  }

  /** The definition comes back as it was written: nothing in it is present and empty, of the parameters and
      return columns the last one of each name is plain and the others keep their text after it. */
  predicate AsWritten(tf: TFDefinition, p: Definition, e: Definition) {
    && RepeatsKept(p, e, tf)
    && (forall k | 0 <= k < |Items(tf.parameters)| && LastParam(p.parameters, k) ::
          Plain(Items(tf.parameters)[k].dataType) && PlainOptional(Items(tf.parameters)[k].defaultValue))
    && (forall k | 0 <= k < |Items(tf.returnColumns)| && LastColumn(p.returnColumns, k) ::
          Plain(Items(tf.returnColumns)[k].dataType))
    && PlainOptional(tf.returnType)
    && NothingEmpty(tf)
  }

  lemma {:induction false} ParamsReturned(tf: seq<TFParam>, p: seq<Param>, e: seq<Param>)
    requires ReadParams(tf) == Some(p) && |e| == |p|
    requires forall k :: 0 <= k < |p| ==>
               e[k].name == p[k].name && e[k].comment == p[k].comment &&
               RawEqual(p[k].dataType, e[k].dataType) && RawEqual(p[k].defaultValue, e[k].defaultValue)
    ensures |tf| == |p|
    ensures ShowParams(e, ParamsByName(p)) == tf <==>
            && ParamsKept(p, e, tf)
            && (forall k :: 0 <= k < |tf| && LastParam(p, k) ==>
                  Plain(tf[k].dataType) && PlainOptional(tf[k].defaultValue))
            && (forall k :: 0 <= k < |tf| ==> tf[k].comment != Some(""))
  {
    hide RawEqual, ShowParams, ParamsKept, ParamShown, Plain, PlainOptional, TypeFromTerraform, ReadOptional,
      LastParam, TextOrNull, Text;
    ParamsShownExactly(p, e, tf);
    forall k | 0 <= k < |p|
      ensures ParamShown(p[k], e[k], tf[k]) <==> Plain(tf[k].dataType) && PlainOptional(tf[k].defaultValue)
      ensures tf[k].comment == TextOrNull(e[k].comment) <==> tf[k].comment != Some("")
    {
      ParamReturned(tf[k], p[k], e[k]);
      TextStays(tf[k].comment);
    }
  }

  lemma {:induction false} ColumnsReturned(tf: seq<TFColumn>, p: seq<Column>, e: seq<Column>)
    requires ReadColumns(tf) == Some(p) && |e| == |p|
    requires forall k :: 0 <= k < |p| ==>
               e[k].name == p[k].name && e[k].comment == p[k].comment && RawEqual(p[k].dataType, e[k].dataType)
    ensures |tf| == |p|
    ensures ShowColumns(e, ColumnsByName(p)) == tf <==>
            && ColumnsKept(p, e, tf)
            && (forall k :: 0 <= k < |tf| && LastColumn(p, k) ==> Plain(tf[k].dataType))
            && (forall k :: 0 <= k < |tf| ==> tf[k].comment != Some(""))
  {
    hide RawEqual, ShowColumns, ColumnsKept, Plain, TypeFromTerraform, LastColumn, PreferRaw, ToTerraform, TextOrNull,
      Text;
    ColumnsShownExactly(p, e, tf);
    forall k | 0 <= k < |p|
      ensures ColumnShown(p[k], e[k], tf[k]) <==> Plain(tf[k].dataType)
      ensures tf[k].comment == TextOrNull(e[k].comment) <==> tf[k].comment != Some("")
    {
      PreferEqual(p[k].dataType, e[k].dataType);
      TypeAsWritten(tf[k].dataType, p[k].dataType);
      TextStays(tf[k].comment);
    }
  }

  lemma ReturnReturned(tf: Option<string>, p: string, e: string)
    requires ReadOptionalType(tf) == Some(p) && RawEqual(p, e)
    ensures ShowOptional(if e != "" then PreferRaw(p, e) else "") == tf <==> PlainOptional(tf)
  {
    hide ToTerraform, Plain, TypeFromTerraform, ShowOptional;
    ReadOptionalEncodes(tf);
    OptionalAsWritten(tf, p);
    PreferEqual(p, e);
  }

  /** A planned definition whose values the server answers in equivalent form is returned exactly as it was
      written if and only if it is written plainly and repeated names keep their texts. */
  lemma {:induction false} DefinitionReturned(tf: TFDefinition, p: Definition, e: Definition)
    requires ReadDefinition(tf) == Some(p) && Answers(e, p)
    ensures ToObject(e, Some(p), FromPlan) == tf <==> AsWritten(tf, p, e)
  {
    hide ReadParams, ReadColumns, ReadOptionalType, ShowParams, ShowColumns, ShowOptional, OrderedImpls, ParamsKept,
      ColumnsKept, RawEqual, PreferRaw, Plain, PlainOptional, LastParam, LastColumn, CompleteImpl, ImplsAnswer,
      ListOrNull, NoEmptyParts, ShowImpl, ReadImpl, TypeFromTerraform, ReadOptional, ReadDefinition, ShowImpls,
      ReadEach, UniqueRuntimes;
    ReadParts(tf, p);
    ParamsReturned(Items(tf.parameters), p.parameters, e.parameters);
    ColumnsReturned(Items(tf.returnColumns), p.returnColumns, e.returnColumns);
    ReturnReturned(tf.returnType, p.returnType, e.returnType);
    ImplsReturned(Items(tf.impls), e.impls);
    ListStays(tf.parameters, ShowParams(e.parameters, ParamsByName(p.parameters)));
    ListStays(tf.returnColumns, ShowColumns(e.returnColumns, ColumnsByName(p.returnColumns)));
    ListStays(tf.impls, ShowImpls(OrderedImpls(e.impls, p.impls, FromPlan)));
  }

  // ----- The whole apply -----

  /** Every planned definition the server has is answered in equivalent form. */
  predicate ServerAgrees(definitions: seq<Definition>, planned: seq<Definition>) {
    var server := IndexDefinitions(definitions);
    forall i | 0 <= i < |planned| && Signature(planned[i]) in server ::
        Answers(server[Signature(planned[i])], planned[i])
  }

  lemma {:induction false} PlannedAnswers(definitions: seq<Definition>, planned: seq<Definition>, i: nat)
    requires ServerAgrees(definitions, planned) && i < |planned| && ReadForm(planned[i])
    ensures Answers(Planned(planned[i], IndexDefinitions(definitions)), planned[i])
  {
    hide Signature, WireEqual, Answers, ReadForm;
    AnswersItself(planned[i]);
  }

  /** An apply returns exactly the values the plan was written in, so Terraform sees no inconsistent result,
      if and only if each planned definition is written plainly: types and values trimmed and not as quoted
      JSON strings, nothing optional that is present and empty, and repeated names that keep their texts. */
  lemma {:induction false} ApplyReturnsPlan(tf: seq<TFDefinition>, planned: seq<Definition>,
                                            definitions: seq<Definition>)
    requires ReadDefinitions(tf) == Some(planned) && ServerAgrees(definitions, planned)
    ensures Mapped(definitions, planned, FromPlan) == tf <==>
            forall i :: 0 <= i < |tf| && i < |planned| ==>
              AsWritten(tf[i], planned[i], Planned(planned[i], IndexDefinitions(definitions)))
  {
    hide Signature, WireEqual, Answers, ReadForm, Mapped, ToObject, AsWritten, ReadDefinition, ServerAgrees, Planned;
    ApplyShows(definitions, planned);
    var out := Mapped(definitions, planned, FromPlan);
    var server := IndexDefinitions(definitions);
    forall i | 0 <= i < |tf|
      ensures out[i] == tf[i] <==> AsWritten(tf[i], planned[i], Planned(planned[i], server))
    {
      ReadHasForm(tf[i], planned[i]);
      PlannedAnswers(definitions, planned, i);
      DefinitionReturned(tf[i], planned[i], Planned(planned[i], server));
    }
    SameItems(out, tf);
  }

  /** For distinct names it is enough to write plainly. */
  lemma {:induction false} PlainPlanReturned(tf: seq<TFDefinition>, planned: seq<Definition>,
                                             definitions: seq<Definition>)
    requires ReadDefinitions(tf) == Some(planned) && ServerAgrees(definitions, planned)
    requires forall i :: 0 <= i < |planned| ==> DistinctNames(planned[i])
    ensures Mapped(definitions, planned, FromPlan) == tf <==> forall i :: 0 <= i < |tf| ==> WrittenPlainly(tf[i])
  {
    hide Signature, WireEqual, Answers, ReadForm, Mapped, AsWritten, ReadDefinition, ServerAgrees, Planned,
      DistinctNames, WrittenPlainly;
    ApplyReturnsPlan(tf, planned, definitions);
    var server := IndexDefinitions(definitions);
    forall i | 0 <= i < |tf|
      ensures AsWritten(tf[i], planned[i], Planned(planned[i], server)) <==> WrittenPlainly(tf[i])
    {
      ReadHasForm(tf[i], planned[i]);
      PlannedAnswers(definitions, planned, i);
      DistinctAsWritten(tf[i], planned[i], Planned(planned[i], server));
    }
  }

  /** Every type and value trimmed and no quoted JSON string, and nothing optional that is present and empty. */
  predicate WrittenPlainly(tf: TFDefinition) {
    && (forall k | 0 <= k < |Items(tf.parameters)| ::
          Plain(Items(tf.parameters)[k].dataType) && PlainOptional(Items(tf.parameters)[k].defaultValue))
    && (forall k | 0 <= k < |Items(tf.returnColumns)| :: Plain(Items(tf.returnColumns)[k].dataType))
    && PlainOptional(tf.returnType)
    && NothingEmpty(tf)
  }

  lemma {:induction false} DistinctAsWritten(tf: TFDefinition, p: Definition, e: Definition)
    requires ReadDefinition(tf) == Some(p) && Answers(e, p) && DistinctNames(p)
    ensures AsWritten(tf, p, e) <==> WrittenPlainly(tf)
  {
    hide ReadParams, ReadColumns, ReadOptionalType, RawEqual, Plain, PlainOptional, NothingEmpty, ImplsAnswer,
      RepeatsKept, CompleteImpl, ReadImpl;
    ReadParts(tf, p);
    ReadLengths(tf, p);
    DistinctIsKept(p, e, tf);
    assert forall k :: 0 <= k < |p.parameters| ==> LastParam(p.parameters, k);
    assert forall k :: 0 <= k < |p.returnColumns| ==> LastColumn(p.returnColumns, k);
  }

  lemma ReadLengths(tf: TFDefinition, p: Definition)
    requires ReadParams(Items(tf.parameters)) == Some(p.parameters) &&
             ReadColumns(Items(tf.returnColumns)) == Some(p.returnColumns)
    ensures |Items(tf.parameters)| == |p.parameters| && |Items(tf.returnColumns)| == |p.returnColumns|
  {
    hide TypeFromTerraform, ReadOptional;
  }
}
