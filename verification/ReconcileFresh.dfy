/** When a definition that is new to the state is stable, in terms of the server's values alone. */
module ReconcileFresh {
  import opened Common
  import opened RawJson
  import opened Functions
  import opened Reconcile
  import opened ReconcileRepeats
  import opened ReconcileSpelling
  import opened ReconcileStable
  import opened TerraformFunctions

  /** A type that reads back with its meaning and its text. */
  predicate ReadsBack(raw: string, next: string) {
    RawEqual(next, raw) && ToTerraform(next) == ToTerraform(raw)
  }

  predicate DefaultReadsBack(raw: string, next: string) {
    RawEqual(next, raw) && ShowOptional(next) == ShowOptional(raw)
  }

  lemma KeptMeans(latest: string, l: string, raw: string, e: string, text: string)
    requires ReadsBack(l, latest) && text == ToTerraform(raw)
    requires RawEqual(e, raw) && ToTerraform(e) == ToTerraform(raw)
    ensures TypeKept(latest, e, text) <==> (RawEqual(l, raw) ==> ToTerraform(l) == ToTerraform(raw))
  {
    SameMeaning(latest, l, raw, e);
  }

  lemma DefaultKeptMeans(latest: string, l: string, raw: string, e: string, text: Option<string>)
    requires DefaultReadsBack(l, latest) && text == ShowOptional(raw)
    requires RawEqual(e, raw) && ShowOptional(e) == ShowOptional(raw)
    ensures DefaultKept(latest, e, text) <==> (RawEqual(l, raw) ==> ShowOptional(l) == ShowOptional(raw))
  {
    hide ToTerraform;
    SameMeaning(latest, l, raw, e);
  }

  lemma SameMeaning(latest: string, l: string, raw: string, e: string)
    requires RawEqual(latest, l) && RawEqual(e, raw)
    ensures RawEqual(latest, e) <==> RawEqual(l, raw)
  {
    hide RawEqual;
    RawEqualSymmetric(latest, l);
    RawEqualSymmetric(e, raw);
    if RawEqual(latest, e) {
      RawEqualTransitive(l, latest, e);
      RawEqualTransitive(l, e, raw);
    }
    if RawEqual(l, raw) {
      RawEqualTransitive(latest, l, raw);
      RawEqualTransitive(latest, raw, e);
    }
  }

  lemma {:induction false} LastOfParam(ps: seq<Param>, k: nat) returns (l: nat)
    requires k < |ps|
    ensures k <= l && LastParam(ps, l) && ps[l].name == ps[k].name
    decreases |ps| - k
  {
    if LastParam(ps, k) {
      l := k;
    } else {
      var j :| k < j < |ps| && ps[j].name == ps[k].name;
      l := LastOfParam(ps, j);
    }
  }

  lemma {:induction false} LastOfColumn(cs: seq<Column>, k: nat) returns (l: nat)
    requires k < |cs|
    ensures k <= l && LastColumn(cs, l) && cs[l].name == cs[k].name
    decreases |cs| - k
  {
    if LastColumn(cs, k) {
      l := k;
    } else {
      var j :| k < j < |cs| && cs[j].name == cs[k].name;
      l := LastOfColumn(cs, j);
    }
  }

  /** A parameter and the last one of its name that mean the same are spelled the same. */
  predicate ParamsAgree(s: seq<Param>) {
    forall k, l | 0 <= k < l < |s| && s[l].name == s[k].name && LastParam(s, l) ::
      (RawEqual(s[l].dataType, s[k].dataType) ==> ToTerraform(s[l].dataType) == ToTerraform(s[k].dataType)) &&
      (RawEqual(s[l].defaultValue, s[k].defaultValue) ==>
         ShowOptional(s[l].defaultValue) == ShowOptional(s[k].defaultValue))
  }

  predicate ColumnsAgree(s: seq<Column>) {
    forall k, l | 0 <= k < l < |s| && s[l].name == s[k].name && LastColumn(s, l) ::
      RawEqual(s[l].dataType, s[k].dataType) ==> ToTerraform(s[l].dataType) == ToTerraform(s[k].dataType)
  }

  lemma {:induction false} FreshParamsExactly(s: seq<Param>, n: seq<Param>, e: seq<Param>, o: seq<TFParam>)
    requires |s| == |n| == |e| == |o|
    requires forall k :: 0 <= k < |s| ==>
               n[k].name == s[k].name && ReadsBack(s[k].dataType, n[k].dataType) &&
               ReadsBack(s[k].dataType, e[k].dataType) && o[k].dataType == ToTerraform(s[k].dataType)
    requires forall k :: 0 <= k < |s| ==>
               DefaultReadsBack(s[k].defaultValue, n[k].defaultValue) &&
               DefaultReadsBack(s[k].defaultValue, e[k].defaultValue) &&
               o[k].defaultValue == ShowOptional(s[k].defaultValue)
    ensures ParamsKept(n, e, o) <==> ParamsAgree(s)
  {
    hide RawEqual, ToTerraform, ShowOptional, TypeKept, DefaultKept;
    forall k, l | 0 <= k < l < |s| && s[l].name == s[k].name && LastParam(s, l)
      ensures !LastParam(n, k)
      ensures TypeKept(LatestParam(n, k).dataType, e[k].dataType, o[k].dataType) <==>
              (RawEqual(s[l].dataType, s[k].dataType) ==> ToTerraform(s[l].dataType) == ToTerraform(s[k].dataType))
      ensures DefaultKept(LatestParam(n, k).defaultValue, e[k].defaultValue, o[k].defaultValue) <==>
              (RawEqual(s[l].defaultValue, s[k].defaultValue) ==>
                 ShowOptional(s[l].defaultValue) == ShowOptional(s[k].defaultValue))
    {
      assert n[l].name == n[k].name && LastParam(n, l);
      ParamFound(n, l);
      assert LatestParam(n, k) == n[l];
      KeptMeans(n[l].dataType, s[l].dataType, s[k].dataType, e[k].dataType, o[k].dataType);
      DefaultKeptMeans(n[l].defaultValue, s[l].defaultValue, s[k].defaultValue, e[k].defaultValue, o[k].defaultValue);
    }
    if ParamsAgree(s) {
      forall k | 0 <= k < |n| && !LastParam(n, k)
        ensures TypeKept(LatestParam(n, k).dataType, e[k].dataType, o[k].dataType)
        ensures DefaultKept(LatestParam(n, k).defaultValue, e[k].defaultValue, o[k].defaultValue)
      {
        var l := LastOfParam(s, k);
        assert l != k by { assert LastParam(s, k) <==> LastParam(n, k); }
      }
    }
  }

  lemma {:induction false} FreshColumnsExactly(s: seq<Column>, n: seq<Column>, e: seq<Column>, o: seq<TFColumn>)
    requires |s| == |n| == |e| == |o|
    requires forall k :: 0 <= k < |s| ==>
               n[k].name == s[k].name && ReadsBack(s[k].dataType, n[k].dataType) &&
               ReadsBack(s[k].dataType, e[k].dataType) && o[k].dataType == ToTerraform(s[k].dataType)
    ensures ColumnsKept(n, e, o) <==> ColumnsAgree(s)
  {
    hide RawEqual, ToTerraform, TypeKept;
    forall k, l | 0 <= k < l < |s| && s[l].name == s[k].name && LastColumn(s, l)
      ensures !LastColumn(n, k)
      ensures TypeKept(LatestColumn(n, k).dataType, e[k].dataType, o[k].dataType) <==>
              (RawEqual(s[l].dataType, s[k].dataType) ==> ToTerraform(s[l].dataType) == ToTerraform(s[k].dataType))
    {
      assert n[l].name == n[k].name && LastColumn(n, l);
      ColumnFound(n, l);
      assert LatestColumn(n, k) == n[l];
      KeptMeans(n[l].dataType, s[l].dataType, s[k].dataType, e[k].dataType, o[k].dataType);
    }
    if ColumnsAgree(s) {
      forall k | 0 <= k < |n| && !LastColumn(n, k)
        ensures TypeKept(LatestColumn(n, k).dataType, e[k].dataType, o[k].dataType)
      {
        var l := LastOfColumn(s, k);
        assert l != k by { assert LastColumn(s, k) <==> LastColumn(n, k); }
      }
    }
  }

  /** Every value of the definition reads back with its meaning and its text. */
  predicate AllReadBack(s: Definition, n: Definition) {
    |n.parameters| == |s.parameters| && |n.returnColumns| == |s.returnColumns| &&
    (forall k :: 0 <= k < |s.parameters| ==>
       ReadsBack(s.parameters[k].dataType, n.parameters[k].dataType) &&
       DefaultReadsBack(s.parameters[k].defaultValue, n.parameters[k].defaultValue)) &&
    (forall k :: 0 <= k < |s.returnColumns| ==> ReadsBack(s.returnColumns[k].dataType, n.returnColumns[k].dataType))
  }

  /** A definition that was new to the state and whose values read back is stable exactly if any two of its
      parameters, and any two of its return columns, of one name and one meaning are spelled alike, the later
      one being the last of the name. */
  lemma {:induction false} FreshStableExactly(s: Definition, next: Definition)
    requires UniqueRuntimes(s.impls) && ReadDefinition(ToObject(s, None, FromServer)) == Some(next) &&
             AllReadBack(s, next)
    ensures ToObject(Effective(Some(next), s), Some(next), FromServer) == ToObject(s, None, FromServer) <==>
            ParamsAgree(s.parameters) && ColumnsAgree(s.returnColumns)
  {
    hide ReadDefinition, ReadParams, ReadColumns, WireEqual, RawEqual, ToTerraform, ShowOptional, OrderedImpls,
      ParamsKept, ColumnsKept, ParamsAgree, ColumnsAgree, UniqueRuntimes, TypeFromTerraform, ReadOptional, PreferRaw;
    var o := ToObject(s, None, FromServer);
    var e := Effective(Some(next), s);
    ObjectStableExactly(s, None, next);
    ReadParts(o, next);
    FreshShown(s);
    FreshNames(s, o, next);
    EffectiveReadsBack(s, next);
    FreshParamsExactly(s.parameters, next.parameters, e.parameters, Items(o.parameters));
    FreshColumnsExactly(s.returnColumns, next.returnColumns, e.returnColumns, Items(o.returnColumns));
  }

  lemma {:induction false} FreshNames(s: Definition, o: TFDefinition, n: Definition)
    requires |Items(o.parameters)| == |s.parameters|
    requires forall k :: 0 <= k < |s.parameters| ==> Items(o.parameters)[k].name == s.parameters[k].name
    requires |Items(o.returnColumns)| == |s.returnColumns|
    requires forall k :: 0 <= k < |s.returnColumns| ==> Items(o.returnColumns)[k].name == s.returnColumns[k].name
    requires ReadParams(Items(o.parameters)) == Some(n.parameters) &&
             ReadColumns(Items(o.returnColumns)) == Some(n.returnColumns)
    ensures |n.parameters| == |s.parameters| && |n.returnColumns| == |s.returnColumns|
    ensures forall k :: 0 <= k < |s.parameters| ==> n.parameters[k].name == s.parameters[k].name
    ensures forall k :: 0 <= k < |s.returnColumns| ==> n.returnColumns[k].name == s.returnColumns[k].name
  {
    hide TypeFromTerraform, ReadOptional;
  }

  lemma {:induction false} FreshShown(s: Definition)
    ensures var o := ToObject(s, None, FromServer);
            && |Items(o.parameters)| == |s.parameters| && |Items(o.returnColumns)| == |s.returnColumns|
            && (forall k :: 0 <= k < |s.parameters| ==>
                  Items(o.parameters)[k] ==
                  TFParam(s.parameters[k].name, ToTerraform(s.parameters[k].dataType),
                          TextOrNull(s.parameters[k].comment),
                          ShowOptional(s.parameters[k].defaultValue)))
            && (forall k :: 0 <= k < |s.returnColumns| ==>
                  Items(o.returnColumns)[k] ==
                  TFColumn(s.returnColumns[k].name, ToTerraform(s.returnColumns[k].dataType),
                           TextOrNull(s.returnColumns[k].comment)))
  {
    hide ToTerraform, ShowOptional, OrderedImpls, PreferRaw;
  }

  lemma {:induction false} EffectiveReadsBack(s: Definition, n: Definition)
    requires AllReadBack(s, n)
    ensures AllReadBack(s, Effective(Some(n), s))
  {
    hide WireEqual, RawEqual, ToTerraform, ShowOptional;
    forall k | 0 <= k < |s.parameters|
      ensures RawEqual(s.parameters[k].dataType, s.parameters[k].dataType)
      ensures RawEqual(s.parameters[k].defaultValue, s.parameters[k].defaultValue)
    {
      Reflexive(n.parameters[k].dataType, s.parameters[k].dataType);
      Reflexive(n.parameters[k].defaultValue, s.parameters[k].defaultValue);
    }
    forall k | 0 <= k < |s.returnColumns| ensures RawEqual(s.returnColumns[k].dataType, s.returnColumns[k].dataType) {
      Reflexive(n.returnColumns[k].dataType, s.returnColumns[k].dataType);
    }
  }

  lemma Reflexive(n: string, s: string)
    requires RawEqual(n, s)
    ensures RawEqual(s, s)
  {
    RawEqualSymmetric(n, s);
    RawEqualTransitive(s, n, s);
  }
}
