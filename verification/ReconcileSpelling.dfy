/** The spelling of reconciled definitions: every shown value means what the server said, an equivalent
    answer keeps the configured spelling, and a second refresh changes nothing. */
module ReconcileSpelling {
  import opened Common
  import opened Json
  import opened JsonText
  import opened JsonCompact
  import opened RawJson
  import opened Functions
  import opened SignatureLaws
  import opened Reconcile
  import opened ReconcileImpls
  import opened TerraformFunctions

  // ----- Definitions that came from Terraform -----

  ghost predicate OptionalEncoded(raw: string) {
    raw == "" || Encoded(raw)
  }

  /** The form of every definition read from a Terraform value. */
  ghost predicate ReadForm(d: Definition) {
    (forall i :: 0 <= i < |d.parameters| ==>
       Encoded(d.parameters[i].dataType) && TypeText(ToTerraform(d.parameters[i].dataType)) &&
       OptionalEncoded(d.parameters[i].defaultValue)) &&
    OptionalEncoded(d.returnType) &&
    (forall i :: 0 <= i < |d.returnColumns| ==> Encoded(d.returnColumns[i].dataType)) &&
    UniqueRuntimes(d.impls)
  }

  lemma ReadEncodes(value: string)
    ensures RawFromTerraform(value).Some? ==> Encoded(RawFromTerraform(value).value)
    ensures TypeFromTerraform(value).Some? ==> RawFromTerraform(value) == TypeFromTerraform(value)
  {
    TrimFacts(value);
    if RawFromTerraform(value).Some? {
      assert EncodeExpression(Trim(value)) == Some(RawFromTerraform(value).value);
    }
  }

  lemma ReadOptionalEncodes(v: Option<string>)
    ensures ReadOptional(v).Some? ==> OptionalEncoded(ReadOptional(v).value)
    ensures ReadOptionalType(v).Some? ==> ReadOptional(v) == ReadOptionalType(v)
  {
    if v.Some? {
      ReadEncodes(v.value);
    }
  }

  lemma ReadParamsForm(tf: seq<TFParam>, ps: seq<Param>)
    requires ReadParams(tf) == Some(ps)
    ensures forall i :: 0 <= i < |ps| ==>
              Encoded(ps[i].dataType) && TypeText(ToTerraform(ps[i].dataType)) && OptionalEncoded(ps[i].defaultValue)
  {
    forall i | 0 <= i < |ps|
      ensures Encoded(ps[i].dataType) && TypeText(ToTerraform(ps[i].dataType)) && OptionalEncoded(ps[i].defaultValue)
    {
      ReadEncodes(tf[i].dataType);
      AcceptedTypeText(tf[i].dataType, ps[i].dataType);
      ReadOptionalEncodes(tf[i].defaultValue);
    }
  }

  lemma ReadColumnsForm(tf: seq<TFColumn>, cs: seq<Column>)
    requires ReadColumns(tf) == Some(cs)
    ensures forall i :: 0 <= i < |cs| ==> Encoded(cs[i].dataType)
  {
    forall i | 0 <= i < |cs| ensures Encoded(cs[i].dataType) {
      ReadEncodes(tf[i].dataType);
    }
  }

  lemma ReadHasForm(tf: TFDefinition, d: Definition)
    requires ReadDefinition(tf) == Some(d)
    ensures ReadForm(d)
  {
    ReadParts(tf, d);
    ReadParamsForm(Items(tf.parameters), d.parameters);
    ReadColumnsForm(Items(tf.returnColumns), d.returnColumns);
    ReadOptionalEncodes(tf.returnType);
  }

  lemma ReadParts(tf: TFDefinition, d: Definition)
    requires ReadDefinition(tf) == Some(d)
    ensures ReadParams(Items(tf.parameters)) == Some(d.parameters) &&
            ReadOptionalType(tf.returnType) == Some(d.returnType)
    ensures ReadColumns(Items(tf.returnColumns)) == Some(d.returnColumns)
    ensures d.impls == ReadEach(Items(tf.impls)) && UniqueRuntimes(d.impls)
  {
    hide ReadParams, ReadColumns, ReadOptionalType, CompleteImpl;
  }

  lemma EncodedIsJson(raw: string)
    requires Encoded(raw)
    ensures raw != "" && ParseText(raw).Some? && !ParseText(raw).value.JNull? && RawEqual(raw, raw)
  {
    var t: string :| t != "" && Trimmed(t) && EncodeExpression(t) == Some(raw);
    EncodeShows(t, raw);
  }

  // ----- Previous values by name -----

  predicate DistinctParams(ps: seq<Param>) {
    forall i, k :: 0 <= i < k < |ps| ==> ps[i].name != ps[k].name
  }

  predicate DistinctColumns(cs: seq<Column>) {
    forall i, k :: 0 <= i < k < |cs| ==> cs[i].name != cs[k].name
  }

  /** No parameter name and no return column name is used twice. */
  predicate DistinctNames(d: Definition) {
    DistinctParams(d.parameters) && DistinctColumns(d.returnColumns)
  }

  /** The last parameter of its name: the one a look-up by name finds. */
  predicate LastParam(ps: seq<Param>, k: nat) {
    k < |ps| && forall j :: k < j < |ps| ==> ps[j].name != ps[k].name
  }

  predicate LastColumn(cs: seq<Column>, k: nat) {
    k < |cs| && forall j :: k < j < |cs| ==> cs[j].name != cs[k].name
  }

  lemma {:induction false} ParamFound(ps: seq<Param>, k: nat)
    requires k < |ps|
    ensures ps[k].name in ParamsByName(ps) && ParamsByName(ps)[ps[k].name] in ps
    ensures ParamsByName(ps)[ps[k].name].name == ps[k].name
    ensures LastParam(ps, k) ==> ParamsByName(ps)[ps[k].name] == ps[k]
  {
    var n := |ps| - 1;
    if k < n {
      ParamFound(ps[..n], k);
      assert forall p :: p in ps[..n] ==> p in ps;
    }
  }

  lemma {:induction false} ColumnFound(cs: seq<Column>, k: nat)
    requires k < |cs|
    ensures cs[k].name in ColumnsByName(cs) && ColumnsByName(cs)[cs[k].name] in cs
    ensures ColumnsByName(cs)[cs[k].name].name == cs[k].name
    ensures LastColumn(cs, k) ==> ColumnsByName(cs)[cs[k].name] == cs[k]
  {
    var n := |cs| - 1;
    if k < n {
      ColumnFound(cs[..n], k);
      assert forall c :: c in cs[..n] ==> c in cs;
    }
  }

  /** The parameter a look-up by the name of another finds. */
  function LatestParam(ps: seq<Param>, k: nat): Param
    requires k < |ps|
  {
    ParamFound(ps, k);
    ParamsByName(ps)[ps[k].name]
  }

  function LatestColumn(cs: seq<Column>, k: nat): Column
    requires k < |cs|
  {
    ColumnFound(cs, k);
    ColumnsByName(cs)[cs[k].name]
  }

  lemma {:induction false} ParamsOf(ps: seq<Param>)
    ensures forall k :: k in ParamsByName(ps) ==> ParamsByName(ps)[k] in ps
  {
    if ps != [] {
      ParamsOf(ps[..|ps| - 1]);
      assert forall p :: p in ps[..|ps| - 1] ==> p in ps;
    }
  }

  lemma {:induction false} ColumnsOf(cs: seq<Column>)
    ensures forall k :: k in ColumnsByName(cs) ==> ColumnsByName(cs)[k] in cs
  {
    if cs != [] {
      ColumnsOf(cs[..|cs| - 1]);
      assert forall c :: c in cs[..|cs| - 1] ==> c in cs;
    }
  }

  // ----- The wire-equality shortcut does not change what is shown -----

  /** Two members that are equal on the wire: the previous one is preferred to both. */
  lemma WirePrefer(a: string, b: string)
    requires OptionalEncoded(a)
    requires (WireOptional(a).Some? && WireOptional(a) == WireOptional(b)) ||
             (Encoded(a) && WireRequired(a).Some? && WireRequired(a) == WireRequired(b))
    ensures PreferRaw(a, a) == a && PreferRaw(a, b) == a
  {
    if a != "" {
      EncodedIsJson(a);
      CompactKeepsMeaning(a);
      NotEmptyCompacted(a);
      if b != "" {
        CompactEqual(a, b);
      } else {
        NullText();
      }
    } else if b != "" {
      NotEmptyCompacted(b);
    }
  }

  lemma NullText()
    ensures ParseText("null") == Some(JNull)
  {
    LiteralValues("");
    assert "null" + "" == "null";
  }

  lemma NotEmptyCompacted(s: string)
    requires ParseText(s).Some?
    ensures CompactOut(s) != ""
  {
    SkipCompact(s);
  }

  lemma {:induction false} WireParamsAt(ps: seq<Param>)
    requires WireParams(ps).Some?
    ensures var w := WireParams(ps).value;
            |w| == |ps| && forall i :: 0 <= i < |ps| ==>
              w[i].name == ps[i].name && w[i].comment == ps[i].comment &&
              WireRequired(ps[i].dataType) == Some(w[i].dataType) &&
              WireOptional(ps[i].defaultValue) == Some(w[i].defaultValue)
  {
    hide WireRequired, WireOptional;
    if ps != [] {
      WireParamsAt(ps[1..]);
    }
  }

  lemma {:induction false} WireColumnsAt(cs: seq<Column>)
    requires WireColumns(cs).Some?
    ensures var w := WireColumns(cs).value;
            |w| == |cs| && forall i :: 0 <= i < |cs| ==>
              w[i].name == cs[i].name && w[i].comment == cs[i].comment &&
              WireRequired(cs[i].dataType) == Some(w[i].dataType)
  {
    hide WireRequired, WireOptional;
    if cs != [] {
      WireColumnsAt(cs[1..]);
    }
  }

  lemma WireParts(a: Definition, b: Definition)
    requires WireEqual(a, b)
    ensures WireParams(a.parameters).Some? && WireParams(a.parameters) == WireParams(b.parameters)
    ensures WireOptional(a.returnType).Some? && WireOptional(a.returnType) == WireOptional(b.returnType)
    ensures WireColumns(a.returnColumns).Some? && WireColumns(a.returnColumns) == WireColumns(b.returnColumns)
    ensures a.impls == b.impls
  {
  }

  /** What stands for a server definition: the previous one, when it is equal on the wire. */
  function Effective(previous: Option<Definition>, s: Definition): Definition {
    if previous.Some? && WireEqual(previous.value, s) then previous.value else s
  }

  /** A definition that is equal on the wire, member by member. */
  lemma WireMembers(a: Definition, b: Definition)
    requires WireEqual(a, b)
    ensures |a.parameters| == |b.parameters| && |a.returnColumns| == |b.returnColumns| && a.impls == b.impls
    ensures forall k :: 0 <= k < |a.parameters| ==>
              a.parameters[k].name == b.parameters[k].name && a.parameters[k].comment == b.parameters[k].comment &&
              WireRequired(a.parameters[k].dataType).Some? &&
              WireRequired(a.parameters[k].dataType) == WireRequired(b.parameters[k].dataType) &&
              WireOptional(a.parameters[k].defaultValue).Some? &&
              WireOptional(a.parameters[k].defaultValue) == WireOptional(b.parameters[k].defaultValue)
    ensures forall k :: 0 <= k < |a.returnColumns| ==>
              a.returnColumns[k].name == b.returnColumns[k].name &&
              a.returnColumns[k].comment == b.returnColumns[k].comment &&
              WireRequired(a.returnColumns[k].dataType).Some? &&
              WireRequired(a.returnColumns[k].dataType) == WireRequired(b.returnColumns[k].dataType)
    ensures WireOptional(a.returnType).Some? && WireOptional(a.returnType) == WireOptional(b.returnType)
  {
    hide WireRequired, WireOptional;
    WireParts(a, b);
    WireParamsAt(a.parameters);
    WireParamsAt(b.parameters);
    WireColumnsAt(a.returnColumns);
    WireColumnsAt(b.returnColumns);
  }

  /** Values that are equal on the wire mean the same. */
  lemma WireMeans(a: string, b: string)
    requires OptionalEncoded(a)
    requires (WireOptional(a).Some? && WireOptional(a) == WireOptional(b)) ||
             (Encoded(a) && WireRequired(a).Some? && WireRequired(a) == WireRequired(b))
    ensures RawEqual(a, b) && (a == "" <==> b == "")
  {
    WirePrefer(a, b);
    if a != "" {
      EncodedIsJson(a);
    } else if b != "" {
      NotEmptyCompacted(b);
    }
  }

  // ----- Faithfulness -----

  /** A shown text spells the raw value, or one that means the same. */
  ghost predicate ShowsValue(text: string, raw: string) {
    exists r :: text == ToTerraform(r) && (r == raw || RawEqual(r, raw))
  }

  ghost predicate ShowsOptional(text: Option<string>, raw: string) {
    if raw == "" then text == None else text.Some? && ShowsValue(text.value, raw)
  }

  /** A shown definition says what the server's says, member by member, with the same implementations. */
  ghost predicate Faithful(o: TFDefinition, s: Definition) {
    |Items(o.parameters)| == |s.parameters| &&
    (forall i :: 0 <= i < |s.parameters| ==>
       Items(o.parameters)[i].name == s.parameters[i].name &&
       Items(o.parameters)[i].comment == TextOrNull(s.parameters[i].comment) &&
       ShowsValue(Items(o.parameters)[i].dataType, s.parameters[i].dataType) &&
       ShowsOptional(Items(o.parameters)[i].defaultValue, s.parameters[i].defaultValue)) &&
    ShowsOptional(o.returnType, s.returnType) &&
    |Items(o.returnColumns)| == |s.returnColumns| &&
    (forall i :: 0 <= i < |s.returnColumns| ==>
       Items(o.returnColumns)[i].name == s.returnColumns[i].name &&
       Items(o.returnColumns)[i].comment == TextOrNull(s.returnColumns[i].comment) &&
       ShowsValue(Items(o.returnColumns)[i].dataType, s.returnColumns[i].dataType)) &&
    (forall x :: x in Items(o.impls) <==> exists y :: y in s.impls && x == ShowImpl(y)) &&
    UniqueShown(Items(o.impls))
  }

  lemma PreferShows(previous: string, raw: string)
    ensures ShowsValue(ToTerraform(PreferRaw(previous, raw)), raw)
    ensures ShowsOptional(ShowOptional(PreferRaw(previous, raw)), raw)
  {
    var r := PreferRaw(previous, raw);
    assert ToTerraform(r) == ToTerraform(r) && (r == raw || RawEqual(r, raw));
  }

  lemma ImplsFaithful(impls: seq<Impl>, previous: seq<Impl>)
    requires UniqueRuntimes(impls) && UniqueRuntimes(previous)
    ensures var shown := ShowImpls(OrderedImpls(impls, previous, FromServer));
            (forall x :: x in shown <==> exists y :: y in impls && x == ShowImpl(y)) && UniqueShown(shown)
  {
    var ordered := OrderedImpls(impls, previous, FromServer);
    var shown := ShowImpls(ordered);
    RefreshKeepsImpls(impls, previous);
    forall x | x in shown ensures exists y :: y in impls && x == ShowImpl(y) {
      var i :| 0 <= i < |shown| && shown[i] == x;
      assert ordered[i] in ordered;
    }
    forall y | y in impls ensures ShowImpl(y) in shown {
      assert y in ordered;
      var i :| 0 <= i < |ordered| && ordered[i] == y;
      assert shown[i] == ShowImpl(y);
    }
  }

  lemma ValueShows(latest: string, raw: string, s: string)
    requires RawEqual(raw, s) && (raw == "" <==> s == "")
    ensures ShowsValue(ToTerraform(PreferRaw(latest, raw)), s)
    ensures ShowsOptional(ShowOptional(PreferRaw(latest, raw)), s)
  {
    var r := PreferRaw(latest, raw);
    if r != raw {
      RawEqualTransitive(latest, raw, s);
    }
    assert ToTerraform(r) == ToTerraform(r) && RawEqual(r, s);
  }

  /** The members of what stands for a server definition mean what the server's mean. */
  lemma EffectiveMeans(previous: Option<Definition>, s: Definition)
    requires previous.Some? ==> ReadForm(previous.value)
    ensures var e := Effective(previous, s);
            && |e.parameters| == |s.parameters| && |e.returnColumns| == |s.returnColumns| && e.impls == s.impls
            && (forall k :: 0 <= k < |s.parameters| ==>
                  e.parameters[k].name == s.parameters[k].name && e.parameters[k].comment == s.parameters[k].comment &&
                  Alike(e.parameters[k].dataType, s.parameters[k].dataType) &&
                  Alike(e.parameters[k].defaultValue, s.parameters[k].defaultValue))
            && (forall k :: 0 <= k < |s.returnColumns| ==>
                  e.returnColumns[k].name == s.returnColumns[k].name &&
                  e.returnColumns[k].comment == s.returnColumns[k].comment &&
                  Alike(e.returnColumns[k].dataType, s.returnColumns[k].dataType))
            && Alike(e.returnType, s.returnType)
  {
    hide RawEqual, Encoded, WireRequired, WireOptional;
    var e := Effective(previous, s);
    if e != s {
      WireMembers(e, s);
      forall k | 0 <= k < |s.parameters|
        ensures Alike(e.parameters[k].dataType, s.parameters[k].dataType)
        ensures Alike(e.parameters[k].defaultValue, s.parameters[k].defaultValue)
      {
        WireMeans(e.parameters[k].dataType, s.parameters[k].dataType);
        WireMeans(e.parameters[k].defaultValue, s.parameters[k].defaultValue);
      }
      forall k | 0 <= k < |s.returnColumns| ensures Alike(e.returnColumns[k].dataType, s.returnColumns[k].dataType) {
        WireMeans(e.returnColumns[k].dataType, s.returnColumns[k].dataType);
      }
      WireMeans(e.returnType, s.returnType);
    }
  }

  /** Equal, or equal in meaning. */
  predicate Alike(a: string, b: string) {
    a == b || (RawEqual(a, b) && (a == "" <==> b == ""))
  }

  lemma AlikeShows(latest: string, raw: string, s: string)
    requires Alike(raw, s)
    ensures ShowsValue(ToTerraform(PreferRaw(latest, raw)), s)
    ensures ShowsOptional(ShowOptional(PreferRaw(latest, raw)), s)
  {
    if raw == s {
      PreferShows(latest, s);
    } else {
      ValueShows(latest, raw, s);
    }
  }

  /** What a refresh shows of one server definition is faithful to it, whatever the previous one was, and
      also when the previous one stands for it because it is equal on the wire. */
  lemma RefreshIsFaithful(server: Definition, previous: Option<Definition>)
    requires UniqueRuntimes(server.impls)
    requires previous.Some? ==> ReadForm(previous.value)
    ensures Faithful(ToObject(Effective(previous, server), previous, FromServer), server)
  {
    hide ShowsValue, ShowsOptional, Alike, PreferRaw, ToTerraform, ShowOptional, Effective, OrderedImpls;
    var p := if previous.Some? then previous.value else Definition([], "", [], []);
    var e := Effective(previous, server);
    var o := ToObject(e, previous, FromServer);
    EffectiveMeans(previous, server);
    forall i | 0 <= i < |server.parameters|
      ensures ShowsValue(Items(o.parameters)[i].dataType, server.parameters[i].dataType)
      ensures ShowsOptional(Items(o.parameters)[i].defaultValue, server.parameters[i].defaultValue)
    {
      ParamShows(e.parameters[i], ParamsByName(p.parameters), server.parameters[i]);
    }
    forall i | 0 <= i < |server.returnColumns|
      ensures ShowsValue(Items(o.returnColumns)[i].dataType, server.returnColumns[i].dataType)
    {
      ColumnShows(e.returnColumns[i], ColumnsByName(p.returnColumns), server.returnColumns[i]);
    }
    ReturnShows(p.returnType, e.returnType, server.returnType);
    ImplsFaithful(server.impls, p.impls);
  }

  lemma ParamShows(p: Param, previous: map<string, Param>, s: Param)
    requires Alike(p.dataType, s.dataType) && Alike(p.defaultValue, s.defaultValue)
    ensures var o := ShowParam(p, previous);
            ShowsValue(o.dataType, s.dataType) && ShowsOptional(o.defaultValue, s.defaultValue)
  {
    hide ShowsValue, ShowsOptional, Alike, RawEqual, ToTerraform, ShowOptional;
    var q := if p.name in previous then previous[p.name] else Param(p.name, "", "", "");
    AlikeShows(q.dataType, p.dataType, s.dataType);
    AlikeShows(q.defaultValue, p.defaultValue, s.defaultValue);
  }

  lemma ColumnShows(c: Column, previous: map<string, Column>, s: Column)
    requires Alike(c.dataType, s.dataType)
    ensures ShowsValue(ShowColumn(c, previous).dataType, s.dataType)
  {
    hide ShowsValue, ShowsOptional, Alike, RawEqual, ToTerraform, ShowOptional;
    AlikeShows(if c.name in previous then previous[c.name].dataType else "", c.dataType, s.dataType);
  }

  lemma ReturnShows(previous: string, raw: string, s: string)
    requires Alike(raw, s)
    ensures ShowsOptional(ShowOptional(if raw != "" then PreferRaw(previous, raw) else ""), s)
  {
    AlikeShows(previous, raw, s);
  }
}
