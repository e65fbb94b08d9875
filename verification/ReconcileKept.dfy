/** What an apply keeps of the plan when the server's answer differs, and when the shortcut for definitions
    that are equal on the wire makes no difference. */
module ReconcileKept {
  import opened Common
  import opened RawJson
  import opened Functions
  import opened FunctionUpdates
  import opened Reconcile
  import opened ReconcileImpls
  import opened ReconcilePicks
  import opened ReconcileRepeats
  import opened ReconcileSpelling
  import opened TerraformFunctions

  // ----- Apply -----

  /** Value by value, for any answer: what the server returned in a form that means the planned value is shown
      as planned, anything else as the server spells it. A planned name used twice counts as its last one. */
  lemma ApplyKeepsSpelling(definitions: seq<Definition>, planned: seq<Definition>, i: nat)
    requires i < |planned|
    ensures var out := Mapped(definitions, planned, FromPlan);
            var p, e := planned[i], Planned(planned[i], IndexDefinitions(definitions));
            && |out| == |planned|
            && |Items(out[i].parameters)| == |e.parameters| && |Items(out[i].returnColumns)| == |e.returnColumns|
            && (forall j, k :: 0 <= j < |p.parameters| && 0 <= k < |e.parameters| && LastParam(p.parameters, j) &&
                               p.parameters[j].name == e.parameters[k].name ==>
                  TypeKept(p.parameters[j].dataType, e.parameters[k].dataType, Items(out[i].parameters)[k].dataType) &&
                  DefaultKept(p.parameters[j].defaultValue, e.parameters[k].defaultValue,
                              Items(out[i].parameters)[k].defaultValue))
            && (forall j, k :: 0 <= j < |p.returnColumns| && 0 <= k < |e.returnColumns| &&
                               LastColumn(p.returnColumns, j) && p.returnColumns[j].name == e.returnColumns[k].name ==>
                  TypeKept(p.returnColumns[j].dataType, e.returnColumns[k].dataType,
                           Items(out[i].returnColumns)[k].dataType))
            && (out[i].returnType ==
                if e.returnType == "" then None
                else if RawEqual(p.returnType, e.returnType) then Some(ToTerraform(p.returnType))
                else Some(ToTerraform(e.returnType)))
  {
    hide Signature, WireEqual, TypeKept, DefaultKept, LastParam, LastColumn, OrderedImpls, PreferRaw, ToTerraform,
      ShowOptional, RawEqual, Mapped, IndexDefinitions, Planned;
    ApplyShows(definitions, planned);
    var p, e := planned[i], Planned(planned[i], IndexDefinitions(definitions));
    var o := ToObject(e, Some(p), FromPlan);
    ReturnShown(p.returnType, e.returnType);
    forall j, k | 0 <= j < |p.parameters| && 0 <= k < |e.parameters| && LastParam(p.parameters, j) &&
                  p.parameters[j].name == e.parameters[k].name
      ensures TypeKept(p.parameters[j].dataType, e.parameters[k].dataType, Items(o.parameters)[k].dataType)
      ensures DefaultKept(p.parameters[j].defaultValue, e.parameters[k].defaultValue,
                          Items(o.parameters)[k].defaultValue)
    {
      ParamShownAt(p.parameters, e.parameters[k], Items(o.parameters)[k], j);
      KeptIsShown(p.parameters[j], e.parameters[k], Items(o.parameters)[k]);
    }
    forall j, k | 0 <= j < |p.returnColumns| && 0 <= k < |e.returnColumns| && LastColumn(p.returnColumns, j) &&
                  p.returnColumns[j].name == e.returnColumns[k].name
      ensures TypeKept(p.returnColumns[j].dataType, e.returnColumns[k].dataType, Items(o.returnColumns)[k].dataType)
    {
      ColumnShownAt(p.returnColumns, e.returnColumns[k], Items(o.returnColumns)[k], j);
    }
  }

  lemma ReturnShown(p: string, e: string)
    ensures ShowOptional(if e != "" then PreferRaw(p, e) else "") ==
            if e == "" then None else if RawEqual(p, e) then Some(ToTerraform(p)) else Some(ToTerraform(e))
  {
    hide ToTerraform, RawEqual;
    PreferByMeaning(p, e);
    EmptyIsNothing(e);
  }

  lemma EmptyIsNothing(e: string)
    ensures e != "" ==> !RawEqual("", e)
  {
  }

  /** For any answer, an implementation of the plan is shown as the server holds it, or as planned when the
      server lacks its runtime. */
  lemma ApplyKeepsImpls(definitions: seq<Definition>, planned: seq<Definition>, i: nat)
    requires i < |planned| && planned[i].impls != []
    requires UniqueRuntimes(Planned(planned[i], IndexDefinitions(definitions)).impls)
    ensures var out := Mapped(definitions, planned, FromPlan);
            var p, e := planned[i].impls, Planned(planned[i], IndexDefinitions(definitions)).impls;
            && |out| == |planned| && |Items(out[i].impls)| == |p|
            && forall k :: 0 <= k < |p| ==>
                 (exists x :: x in e && x.runtime == p[k].runtime && Items(out[i].impls)[k] == ShowImpl(x)) ||
                 (Items(out[i].impls)[k] == ShowImpl(p[k]) && forall x :: x in e ==> x.runtime != p[k].runtime)
  {
    hide Signature, WireEqual, ShowParams, ShowColumns, PreferRaw, ShowImpl, Mapped, IndexDefinitions, Planned,
      ImplsByRuntime, FromPrevious, UniqueRuntimes;
    ApplyShows(definitions, planned);
    var e := Planned(planned[i], IndexDefinitions(definitions)).impls;
    ApplyImpls(e, planned[i].impls);
    var kept := FromPrevious(planned[i].impls, ImplsByRuntime(e), FromPlan);
    assert kept + [] == kept;
    assert forall k :: 0 <= k < |kept| ==> ShowImpls(kept)[k] == ShowImpl(kept[k]);
  }

  // ----- The shortcut -----

  lemma ParamAlike(p: Param, s: Param, o: TFParam)
    requires Encoded(p.dataType) && OptionalEncoded(p.defaultValue)
    requires WireRequired(p.dataType).Some? && WireRequired(p.dataType) == WireRequired(s.dataType)
    requires WireOptional(p.defaultValue).Some? && WireOptional(p.defaultValue) == WireOptional(s.defaultValue)
    ensures ParamShown(p, s, o) <==> ParamShown(p, p, o)
  {
    hide PreferRaw, Encoded, WireRequired, WireOptional, ToTerraform, ShowOptional;
    WirePrefer(p.dataType, s.dataType);
    WirePrefer(p.defaultValue, s.defaultValue);
  }

  lemma ColumnAlike(p: Column, s: Column, o: TFColumn)
    requires Encoded(p.dataType) && WireRequired(p.dataType).Some? &&
             WireRequired(p.dataType) == WireRequired(s.dataType)
    ensures ColumnShown(p, s, o) <==> ColumnShown(p, p, o)
  {
    hide PreferRaw, Encoded, WireRequired, WireOptional, ToTerraform;
    WirePrefer(p.dataType, s.dataType);
  }

  /** Equal on the wire, parameters show the same exactly if those whose name is used again do. */
  lemma {:induction false} ShortcutParams(p: seq<Param>, s: seq<Param>, o: seq<TFParam>)
    requires |p| == |s| && o == ShowParams(p, ParamsByName(p))
    requires forall k :: 0 <= k < |p| ==> p[k].name == s[k].name && p[k].comment == s[k].comment
    requires forall k :: 0 <= k < |p| ==> Encoded(p[k].dataType) && OptionalEncoded(p[k].defaultValue)
    requires forall k :: 0 <= k < |p| ==>
               WireRequired(p[k].dataType).Some? && WireRequired(p[k].dataType) == WireRequired(s[k].dataType) &&
               WireOptional(p[k].defaultValue).Some? &&
               WireOptional(p[k].defaultValue) == WireOptional(s[k].defaultValue)
    ensures ShowParams(s, ParamsByName(p)) == o <==> ParamsKept(p, s, o)
  {
    hide PreferRaw, Encoded, OptionalEncoded, WireRequired, WireOptional, ToTerraform, ShowOptional, ParamShown,
      ParamsKept, LastParam;
    ParamsShownExactly(p, s, o);
    ParamsShownExactly(p, p, o);
    forall k | 0 <= k < |p| && LastParam(p, k) ensures ParamShown(p[k], s[k], o[k]) {
      ParamAlike(p[k], s[k], o[k]);
    }
  }

  lemma {:induction false} ShortcutColumns(p: seq<Column>, s: seq<Column>, o: seq<TFColumn>)
    requires |p| == |s| && o == ShowColumns(p, ColumnsByName(p))
    requires forall k :: 0 <= k < |p| ==> p[k].name == s[k].name && p[k].comment == s[k].comment
    requires forall k :: 0 <= k < |p| ==>
               Encoded(p[k].dataType) && WireRequired(p[k].dataType).Some? &&
               WireRequired(p[k].dataType) == WireRequired(s[k].dataType)
    ensures ShowColumns(s, ColumnsByName(p)) == o <==> ColumnsKept(p, s, o)
  {
    hide PreferRaw, Encoded, WireRequired, WireOptional, ToTerraform, ColumnShown, ColumnsKept, LastColumn;
    ColumnsShownExactly(p, s, o);
    ColumnsShownExactly(p, p, o);
    forall k | 0 <= k < |p| && LastColumn(p, k) ensures ColumnShown(p[k], s[k], o[k]) {
      ColumnAlike(p[k], s[k], o[k]);
    }
  }

  /** Showing the previous definition instead of an answer that is equal on the wire makes no difference
      exactly if the parameters and return columns whose name is used again keep their text. */
  lemma {:induction false} ShortcutExactly(previous: Definition, server: Definition, mode: Mode)
    requires ReadForm(previous) && WireEqual(previous, server)
    ensures var o := ToObject(previous, Some(previous), mode);
            ToObject(server, Some(previous), mode) == o <==> RepeatsKept(previous, server, o)
  {
    hide WireEqual, PreferRaw, ParamsKept, ColumnsKept, OrderedImpls, ToTerraform, RawEqual, WireRequired,
      WireOptional, Encoded, ParamsByName, ColumnsByName, ShowParam, ShowColumn, ShowOptional;
    var o := ToObject(previous, Some(previous), mode);
    WireMembers(previous, server);
    ShortcutParams(previous.parameters, server.parameters, Items(o.parameters));
    ShortcutColumns(previous.returnColumns, server.returnColumns, Items(o.returnColumns));
    WirePrefer(previous.returnType, server.returnType);
    WireMeans(previous.returnType, server.returnType);
  }
}
