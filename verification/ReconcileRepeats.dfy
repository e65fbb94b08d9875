/** Names that are used twice: a look-up by name finds the last one, so only the others need a condition. */
module ReconcileRepeats {
  import opened Common
  import opened RawJson
  import opened Functions
  import opened Reconcile
  import opened ReconcileSpelling
  import opened TerraformFunctions

  /** The text of a type that is spelled after the last one of its name: that one's, if they mean the same. */
  predicate TypeKept(latest: string, raw: string, text: string) {
    text == if RawEqual(latest, raw) then ToTerraform(latest) else ToTerraform(raw)
  }

  predicate DefaultKept(latest: string, raw: string, text: Option<string>) {
    text == if RawEqual(latest, raw) then ShowOptional(latest) else ShowOptional(raw)
  }

  /** Every parameter but the last of its name keeps the text o when it is shown from e after n. */
  predicate ParamsKept(n: seq<Param>, e: seq<Param>, o: seq<TFParam>)
    requires |n| == |e| == |o|
  {
    forall k | 0 <= k < |n| && !LastParam(n, k) ::
      TypeKept(LatestParam(n, k).dataType, e[k].dataType, o[k].dataType) &&
      DefaultKept(LatestParam(n, k).defaultValue, e[k].defaultValue, o[k].defaultValue)
  }

  predicate ColumnsKept(n: seq<Column>, e: seq<Column>, o: seq<TFColumn>)
    requires |n| == |e| == |o|
  {
    forall k | 0 <= k < |n| && !LastColumn(n, k) ::
      TypeKept(LatestColumn(n, k).dataType, e[k].dataType, o[k].dataType)
  }

  /** No parameter or return column whose name is used again later changes its text. */
  predicate RepeatsKept(n: Definition, e: Definition, o: TFDefinition) {
    |n.parameters| == |e.parameters| == |Items(o.parameters)| &&
    |n.returnColumns| == |e.returnColumns| == |Items(o.returnColumns)| &&
    ParamsKept(n.parameters, e.parameters, Items(o.parameters)) &&
    ColumnsKept(n.returnColumns, e.returnColumns, Items(o.returnColumns))
  }

  lemma DistinctIsKept(n: Definition, e: Definition, o: TFDefinition)
    requires DistinctNames(n)
    requires |n.parameters| == |e.parameters| == |Items(o.parameters)|
    requires |n.returnColumns| == |e.returnColumns| == |Items(o.returnColumns)|
    ensures RepeatsKept(n, e, o)
  {
    hide TypeKept, DefaultKept;
    assert forall k :: 0 <= k < |n.parameters| ==> LastParam(n.parameters, k);
    assert forall k :: 0 <= k < |n.returnColumns| ==> LastColumn(n.returnColumns, k);
  }

  /** What a parameter shows, spelled after the last one of its name. */
  predicate ParamShown(latest: Param, e: Param, o: TFParam) {
    ToTerraform(PreferRaw(latest.dataType, e.dataType)) == o.dataType &&
    ShowOptional(PreferRaw(latest.defaultValue, e.defaultValue)) == o.defaultValue
  }

  lemma KeptIsShown(latest: Param, e: Param, o: TFParam)
    ensures ParamShown(latest, e, o) <==>
            TypeKept(latest.dataType, e.dataType, o.dataType) &&
            DefaultKept(latest.defaultValue, e.defaultValue, o.defaultValue)
  {
    PreferByMeaning(latest.dataType, e.dataType);
    PreferByMeaning(latest.defaultValue, e.defaultValue);
  }

  lemma PreferByMeaning(latest: string, raw: string)
    ensures PreferRaw(latest, raw) == if RawEqual(latest, raw) then latest else raw
  {
  }

  lemma ParamsShownAt(previous: map<string, Param>, e: seq<Param>, o: seq<TFParam>)
    requires |e| == |o|
    ensures ShowParams(e, previous) == o <==> forall k :: 0 <= k < |e| ==> ShowParam(e[k], previous) == o[k]
  {
    hide ShowParam;
  }

  lemma ParamShownAt(n: seq<Param>, e: Param, o: TFParam, k: nat)
    requires k < |n| && e.name == n[k].name == o.name
    ensures ShowParam(e, ParamsByName(n)) == o <==>
            ParamShown(LatestParam(n, k), e, o) && o.comment == TextOrNull(e.comment)
    ensures LastParam(n, k) ==> LatestParam(n, k) == n[k]
  {
    hide ToTerraform, PreferRaw, ShowOptional;
    ParamFound(n, k);
  }

  /** Parameters shown after n are o exactly when the last of each name are and the others are kept. */
  lemma {:induction false} ParamsShownExactly(n: seq<Param>, e: seq<Param>, o: seq<TFParam>)
    requires |n| == |e| == |o|
    requires forall k :: 0 <= k < |n| ==> e[k].name == n[k].name == o[k].name
    ensures ShowParams(e, ParamsByName(n)) == o <==>
            && ParamsKept(n, e, o)
            && (forall k :: 0 <= k < |n| && LastParam(n, k) ==> ParamShown(n[k], e[k], o[k]))
            && (forall k :: 0 <= k < |n| ==> o[k].comment == TextOrNull(e[k].comment))
  {
    hide TypeKept, DefaultKept, ParamShown, ShowParam, TextOrNull, LatestParam, LastParam, ShowParams;
    ParamsShownAt(ParamsByName(n), e, o);
    forall k | 0 <= k < |n|
      ensures ShowParam(e[k], ParamsByName(n)) == o[k] <==>
              && o[k].comment == TextOrNull(e[k].comment)
              && if LastParam(n, k) then ParamShown(n[k], e[k], o[k])
                 else TypeKept(LatestParam(n, k).dataType, e[k].dataType, o[k].dataType) &&
                      DefaultKept(LatestParam(n, k).defaultValue, e[k].defaultValue, o[k].defaultValue)
    {
      ParamShownAt(n, e[k], o[k], k);
      KeptIsShown(LatestParam(n, k), e[k], o[k]);
    }
  }

  lemma ColumnsShownAt(previous: map<string, Column>, e: seq<Column>, o: seq<TFColumn>)
    requires |e| == |o|
    ensures ShowColumns(e, previous) == o <==> forall k :: 0 <= k < |e| ==> ShowColumn(e[k], previous) == o[k]
  {
    hide ShowColumn;
  }

  predicate ColumnShown(latest: Column, e: Column, o: TFColumn) {
    ToTerraform(PreferRaw(latest.dataType, e.dataType)) == o.dataType
  }

  lemma ColumnShownAt(n: seq<Column>, e: Column, o: TFColumn, k: nat)
    requires k < |n| && e.name == n[k].name == o.name
    ensures ShowColumn(e, ColumnsByName(n)) == o <==>
            ColumnShown(LatestColumn(n, k), e, o) && o.comment == TextOrNull(e.comment)
    ensures ColumnShown(LatestColumn(n, k), e, o) <==> TypeKept(LatestColumn(n, k).dataType, e.dataType, o.dataType)
    ensures LastColumn(n, k) ==> LatestColumn(n, k) == n[k]
  {
    hide ToTerraform, RawEqual;
    ColumnFound(n, k);
    PreferByMeaning(LatestColumn(n, k).dataType, e.dataType);
  }

  lemma {:induction false} ColumnsShownExactly(n: seq<Column>, e: seq<Column>, o: seq<TFColumn>)
    requires |n| == |e| == |o|
    requires forall k :: 0 <= k < |n| ==> e[k].name == n[k].name == o[k].name
    ensures ShowColumns(e, ColumnsByName(n)) == o <==>
            && ColumnsKept(n, e, o)
            && (forall k :: 0 <= k < |n| && LastColumn(n, k) ==> ColumnShown(n[k], e[k], o[k]))
            && (forall k :: 0 <= k < |n| ==> o[k].comment == TextOrNull(e[k].comment))
  {
    hide TypeKept, ColumnShown, ShowColumn, TextOrNull, LatestColumn, LastColumn, ShowColumns;
    ColumnsShownAt(ColumnsByName(n), e, o);
    forall k | 0 <= k < |n|
      ensures ShowColumn(e[k], ColumnsByName(n)) == o[k] <==>
              && o[k].comment == TextOrNull(e[k].comment)
              && if LastColumn(n, k) then ColumnShown(n[k], e[k], o[k])
                 else TypeKept(LatestColumn(n, k).dataType, e[k].dataType, o[k].dataType)
    {
      ColumnShownAt(n, e[k], o[k], k);
    }
  }
}
