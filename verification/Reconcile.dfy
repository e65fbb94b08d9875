/** Reconciling the definitions of a server answer with those of a plan or of a previous state. */
module Reconcile {
  import opened Common
  import opened RawJson
  import opened Functions
  import opened FunctionUpdates
  import opened TerraformFunctions

  /** Which side is the reference. */
  datatype Mode = FromServer | FromPlan

  // ----- Values -----

  /** A raw member: null when it is empty. */
  function ShowOptional(raw: string): Option<string> {
    if raw == "" then None else Some(ToTerraform(raw))
  }

  // ----- Parameters and columns: previous values by name, the last one wins -----

  function ParamsByName(ps: seq<Param>): map<string, Param> {
    if ps == [] then map[]
    else ParamsByName(ps[..|ps| - 1])[ps[|ps| - 1].name := ps[|ps| - 1]]
  }

  function ColumnsByName(cs: seq<Column>): map<string, Column> {
    if cs == [] then map[]
    else ColumnsByName(cs[..|cs| - 1])[cs[|cs| - 1].name := cs[|cs| - 1]]
  }

  function ShowParam(p: Param, previous: map<string, Param>): TFParam {
    var dataType := if p.name in previous then PreferRaw(previous[p.name].dataType, p.dataType) else p.dataType;
    var defaultValue := if p.name in previous then PreferRaw(previous[p.name].defaultValue, p.defaultValue)
                        else p.defaultValue;
    TFParam(p.name, ToTerraform(dataType), TextOrNull(p.comment), ShowOptional(defaultValue))
  }

  function ShowColumn(c: Column, previous: map<string, Column>): TFColumn {
    var dataType := if c.name in previous then PreferRaw(previous[c.name].dataType, c.dataType) else c.dataType;
    TFColumn(c.name, ToTerraform(dataType), TextOrNull(c.comment))
  }

  function ShowParams(ps: seq<Param>, previous: map<string, Param>): (r: seq<TFParam>)
    ensures |r| == |ps| && forall i :: 0 <= i < |r| ==> r[i] == ShowParam(ps[i], previous)
  {
    seq(|ps|, i requires 0 <= i < |ps| => ShowParam(ps[i], previous))
  }

  function ShowColumns(cs: seq<Column>, previous: map<string, Column>): (r: seq<TFColumn>)
    ensures |r| == |cs| && forall i :: 0 <= i < |r| ==> r[i] == ShowColumn(cs[i], previous)
  {
    seq(|cs|, i requires 0 <= i < |cs| => ShowColumn(cs[i], previous))
  }

  // ----- Implementations -----

  /** The implementations of a server answer by runtime, the last one wins. */
  function ImplsByRuntime(impls: seq<Impl>): map<string, Impl> {
    if impls == [] then map[]
    else ImplsByRuntime(impls[..|impls| - 1])[impls[|impls| - 1].runtime := impls[|impls| - 1]]
  }

  /** The previous implementations the server still has, in previous order; a plan keeps the others. */
  function FromPrevious(previous: seq<Impl>, server: map<string, Impl>, mode: Mode): seq<Impl> {
    if previous == [] then []
    else
      var last := previous[|previous| - 1];
      FromPrevious(previous[..|previous| - 1], server, mode) +
      (if last.runtime in server then [server[last.runtime]] else if mode.FromPlan? then [last] else [])
  }

  /** The previous runtimes the server still has. */
  function Converted(previous: seq<Impl>, server: map<string, Impl>): set<string> {
    set i | 0 <= i < |previous| && previous[i].runtime in server :: previous[i].runtime
  }

  function Runtimes(impls: seq<Impl>): set<string> {
    set i | 0 <= i < |impls| :: impls[i].runtime
  }

  /** The server implementations that were not converted, each runtime once. */
  function Extras(impls: seq<Impl>, converted: set<string>): seq<Impl> {
    if impls == [] then []
    else
      var n := |impls| - 1;
      Extras(impls[..n], converted) +
      (if impls[n].runtime in converted || impls[n].runtime in Runtimes(impls[..n]) then [] else [impls[n]])
  }

  function OrderedImpls(impls: seq<Impl>, previous: seq<Impl>, mode: Mode): seq<Impl> {
    if previous == [] then impls
    else
      var server := ImplsByRuntime(impls);
      FromPrevious(previous, server, mode) +
      (if mode.FromServer? then Extras(impls, Converted(previous, server)) else [])
  }

  // ----- Definitions -----

  function ToObject(d: Definition, previous: Option<Definition>, mode: Mode): TFDefinition {
    var p := if previous.Some? then previous.value else Definition([], "", [], []);
    TFDefinition(
      ListOrNull(ShowParams(d.parameters, ParamsByName(p.parameters))),
      ShowOptional(if d.returnType != "" then PreferRaw(p.returnType, d.returnType) else ""),
      ListOrNull(ShowColumns(d.returnColumns, ColumnsByName(p.returnColumns))),
      ListOrNull(ShowImpls(OrderedImpls(d.impls, p.impls, mode))))
  }

  /** A definition to be shown, and the previous one its spelling follows. */
  datatype Pick = Pick(definition: Definition, previous: Option<Definition>)

  function Choose(previous: Definition, server: map<string, Definition>, mode: Mode): seq<Pick> {
    var key := Signature(previous);
    if key !in server then
      if mode.FromPlan? then [Pick(previous, Some(previous))] else []
    else if WireEqual(previous, server[key]) then [Pick(previous, Some(previous))]
    else [Pick(server[key], Some(previous))]
  }

  function ChosenFromPrevious(previous: seq<Definition>, server: map<string, Definition>, mode: Mode): seq<Pick> {
    if previous == [] then []
    else
      ChosenFromPrevious(previous[..|previous| - 1], server, mode) + Choose(previous[|previous| - 1], server, mode)
  }

  function Signatures(ds: seq<Definition>): set<string> {
    set i | 0 <= i < |ds| :: Signature(ds[i])
  }

  /** The signatures converted while walking the previous definitions. */
  function ConvertedSignatures(previous: seq<Definition>, server: map<string, Definition>, mode: Mode): set<string> {
    set i | 0 <= i < |previous| && (mode.FromPlan? || Signature(previous[i]) in server) :: Signature(previous[i])
  }

  /** The server definitions that were not converted, each signature once. */
  function ServerOnly(definitions: seq<Definition>, converted: set<string>): seq<Pick> {
    if definitions == [] then []
    else
      var n := |definitions| - 1;
      var key := Signature(definitions[n]);
      ServerOnly(definitions[..n], converted) +
      (if key in converted || key in Signatures(definitions[..n]) then [] else [Pick(definitions[n], None)])
  }

  function Picks(definitions: seq<Definition>, previous: seq<Definition>, mode: Mode): seq<Pick> {
    var server := IndexDefinitions(definitions);
    ChosenFromPrevious(previous, server, mode) +
    (if mode.FromServer? then ServerOnly(definitions, ConvertedSignatures(previous, server, mode)) else [])
  }

  function Show(p: Pick, mode: Mode): TFDefinition {
    ToObject(p.definition, p.previous, mode)
  }

  function ShowAll(ps: seq<Pick>, mode: Mode): (r: seq<TFDefinition>)
    ensures |r| == |ps| && forall i :: 0 <= i < |r| ==> r[i] == Show(ps[i], mode)
  {
    seq(|ps|, i requires 0 <= i < |ps| => Show(ps[i], mode))
  }

  function Mapped(definitions: seq<Definition>, previous: seq<Definition>, mode: Mode): seq<TFDefinition> {
    ShowAll(Picks(definitions, previous, mode), mode)
  }

  // ----- Back from Terraform -----

  function ReadOptional(v: Option<string>): Option<string> {
    if v.None? || v.value == "" then Some("") else RawFromTerraform(v.value)
  }

  function ReadOptionalType(v: Option<string>): Option<string> {
    if v.None? || v.value == "" then Some("") else TypeFromTerraform(v.value)
  }

  function ReadParams(ps: seq<TFParam>): (r: Option<seq<Param>>)
    ensures r.Some? ==> |r.value| == |ps| && forall i :: 0 <= i < |ps| ==>
              TypeFromTerraform(ps[i].dataType) == Some(r.value[i].dataType) &&
              ReadOptional(ps[i].defaultValue) == Some(r.value[i].defaultValue) &&
              r.value[i].name == ps[i].name && r.value[i].comment == Text(ps[i].comment)
  {
    if ps == [] then Some([])
    else
      var dataType :- TypeFromTerraform(ps[0].dataType);
      var defaultValue :- ReadOptional(ps[0].defaultValue);
      var rest :- ReadParams(ps[1..]);
      Some([Param(ps[0].name, dataType, Text(ps[0].comment), defaultValue)] + rest)
  }

  function ReadColumns(cs: seq<TFColumn>): (r: Option<seq<Column>>)
    ensures r.Some? ==> |r.value| == |cs| && forall i :: 0 <= i < |cs| ==>
              TypeFromTerraform(cs[i].dataType) == Some(r.value[i].dataType) &&
              r.value[i].name == cs[i].name && r.value[i].comment == Text(cs[i].comment)
  {
    if cs == [] then Some([])
    else
      var dataType :- TypeFromTerraform(cs[0].dataType);
      var rest :- ReadColumns(cs[1..]);
      Some([Column(cs[0].name, dataType, Text(cs[0].comment))] + rest)
  }

  /** What FunctionImplFromTF demands of an implementation. */
  predicate CompleteImpl(impl: Impl) {
    impl.runtime != "" &&
    ((impl.language == "SQL" && impl.sql != "") || (impl.language == "JAVA" && impl.className != "") ||
     impl.language == "PYTHON")
  }

  /** FunctionDefinitionFromTF: nothing when a type, a default value or an implementation is not
      acceptable, or when a runtime is used twice. */
  function ReadDefinition(d: TFDefinition): Option<Definition> {
    var parameters :- ReadParams(Items(d.parameters));
    var returnType :- ReadOptionalType(d.returnType);
    var returnColumns :- ReadColumns(Items(d.returnColumns));
    var impls := ReadEach(Items(d.impls));
    if (forall i :: 0 <= i < |impls| ==> CompleteImpl(impls[i])) && UniqueRuntimes(impls) then
      Some(Definition(parameters, returnType, returnColumns, impls))
    else None
  }

  function ReadDefinitions(ds: seq<TFDefinition>): (r: Option<seq<Definition>>)
    ensures r.Some? ==> |r.value| == |ds| && forall i :: 0 <= i < |ds| ==> ReadDefinition(ds[i]) == Some(r.value[i])
  {
    if ds == [] then Some([])
    else
      var d :- ReadDefinition(ds[0]);
      var rest :- ReadDefinitions(ds[1..]);
      Some([d] + rest)
  }

  // ----- The loops -----

  method ConvertImpls(impls: seq<Impl>, previous: seq<Impl>, mode: Mode) returns (ordered: seq<Impl>)
    ensures ordered == OrderedImpls(impls, previous, mode)
  {
    hide FromPrevious, Converted, Extras, Runtimes;
    ordered := impls;
    if |previous| > 0 {
      var serverImpls := map[];
      for i := 0 to |impls|
        invariant serverImpls == ImplsByRuntime(impls[..i])
      {
        assert impls[..i + 1][..i] == impls[..i];
        serverImpls := serverImpls[impls[i].runtime := impls[i]];
      }
      assert impls[..|impls|] == impls;
      ordered := [];
      var converted := {};
      NothingOrdered(serverImpls, mode);
      assert previous[..0] == [];
      for i := 0 to |previous|
        invariant ordered == FromPrevious(previous[..i], serverImpls, mode)
        invariant converted == Converted(previous[..i], serverImpls)
      {
        FromPreviousStep(previous, i, serverImpls, mode);
        var priorImpl := previous[i];
        var key := priorImpl.runtime;
        if key !in serverImpls {
          if mode.FromPlan? {
            ordered := ordered + [priorImpl];
          }
          continue;
        }
        var serverImpl := serverImpls[key];
        if priorImpl == serverImpl {
          serverImpl := priorImpl;
        }
        ordered := ordered + [serverImpl];
        converted := converted + {key};
      }
      assert previous[..|previous|] == previous;
      if mode.FromServer? {
        ghost var before := converted;
        ghost var front := ordered;
        NothingExtra(before, front);
        assert impls[..0] == [];
        for i := 0 to |impls|
          invariant ordered == front + Extras(impls[..i], before)
          invariant converted == before + Runtimes(impls[..i])
        {
          ExtrasStep(impls, i, before, front);
          var key := impls[i].runtime;
          if key in converted {
            continue;
          }
          ordered := ordered + [impls[i]];
          converted := converted + {key};
        }
        assert impls[..|impls|] == impls;
      }
    }
  }

  lemma NothingOrdered(server: map<string, Impl>, mode: Mode)
    ensures FromPrevious([], server, mode) == [] && Converted([], server) == {}
  {
  }

  lemma NothingExtra(converted: set<string>, front: seq<Impl>)
    ensures front + Extras([], converted) == front && converted + Runtimes([]) == converted
  {
  }

  lemma FromPreviousStep(previous: seq<Impl>, i: nat, server: map<string, Impl>, mode: Mode)
    requires i < |previous|
    ensures var before := FromPrevious(previous[..i], server, mode);
            var after := FromPrevious(previous[..i + 1], server, mode);
            var key := previous[i].runtime;
            after == if key in server then before + [server[key]]
                     else if mode.FromPlan? then before + [previous[i]] else before
    ensures Converted(previous[..i + 1], server) ==
            if previous[i].runtime in server then Converted(previous[..i], server) + {previous[i].runtime}
            else Converted(previous[..i], server)
  {
    var a, b := previous[..i], previous[..i + 1];
    assert b[..i] == a && b[i] == previous[i];
    assert forall k :: 0 <= k < i ==> a[k] == b[k];
  }

  lemma ExtrasStep(impls: seq<Impl>, i: nat, converted: set<string>, front: seq<Impl>)
    requires i < |impls|
    ensures var before, after := front + Extras(impls[..i], converted), front + Extras(impls[..i + 1], converted);
            var key := impls[i].runtime;
            after == if key in converted || key in Runtimes(impls[..i]) then before else before + [impls[i]]
    ensures Runtimes(impls[..i + 1]) == Runtimes(impls[..i]) + {impls[i].runtime}
  {
    var a, b := impls[..i], impls[..i + 1];
    assert b[..i] == a && b[i] == impls[i];
    assert forall k :: 0 <= k < i ==> a[k] == b[k];
  }

  method PreviousParameters(ps: seq<Param>) returns (byName: map<string, Param>)
    ensures byName == ParamsByName(ps)
  {
    byName := map[];
    for i := 0 to |ps|
      invariant byName == ParamsByName(ps[..i])
    {
      assert ps[..i + 1][..i] == ps[..i];
      byName := byName[ps[i].name := ps[i]];
    }
    assert ps[..|ps|] == ps;
  }

  method PreviousReturnColumns(cs: seq<Column>) returns (byName: map<string, Column>)
    ensures byName == ColumnsByName(cs)
  {
    byName := map[];
    for i := 0 to |cs|
      invariant byName == ColumnsByName(cs[..i])
    {
      assert cs[..i + 1][..i] == cs[..i];
      byName := byName[cs[i].name := cs[i]];
    }
    assert cs[..|cs|] == cs;
  }

  method ParamsToTF(ps: seq<Param>, previous: map<string, Param>) returns (list: Option<seq<TFParam>>)
    ensures list == ListOrNull(ShowParams(ps, previous))
  {
    hide PreferRaw, ToTerraform, TextOrNull;
    if |ps| == 0 {
      return None;
    }
    var items := [];
    for i := 0 to |ps|
      invariant items == ShowParams(ps, previous)[..i]
    {
      var dataType, defaultValue := ps[i].dataType, ps[i].defaultValue;
      if ps[i].name in previous {
        dataType := PreferRaw(previous[ps[i].name].dataType, dataType);
        defaultValue := PreferRaw(previous[ps[i].name].defaultValue, defaultValue);
      }
      var shown := None;
      if |defaultValue| > 0 {
        shown := Some(ToTerraform(defaultValue));
      }
      items := items + [TFParam(ps[i].name, ToTerraform(dataType), TextOrNull(ps[i].comment), shown)];
    }
    assert items == ShowParams(ps, previous);
    list := Some(items);
  }

  method ColumnsToTF(cs: seq<Column>, previous: map<string, Column>) returns (list: Option<seq<TFColumn>>)
    ensures list == ListOrNull(ShowColumns(cs, previous))
  {
    hide PreferRaw, ToTerraform, TextOrNull;
    if |cs| == 0 {
      return None;
    }
    var items := [];
    for i := 0 to |cs|
      invariant items == ShowColumns(cs, previous)[..i]
    {
      var dataType := cs[i].dataType;
      if cs[i].name in previous {
        dataType := PreferRaw(previous[cs[i].name].dataType, dataType);
      }
      items := items + [TFColumn(cs[i].name, ToTerraform(dataType), TextOrNull(cs[i].comment))];
    }
    assert items == ShowColumns(cs, previous);
    list := Some(items);
  }

  method ImplsToTF(impls: seq<Impl>, previous: seq<Impl>, mode: Mode) returns (list: Option<seq<TFImpl>>)
    ensures list == ListOrNull(ShowImpls(OrderedImpls(impls, previous, mode)))
  {
    hide OrderedImpls, ShowImpl;
    var ordered := ConvertImpls(impls, previous, mode);
    if |ordered| == 0 {
      return None;
    }
    var items := [];
    for i := 0 to |ordered|
      invariant items == ShowImpls(ordered)[..i]
    {
      items := items + [ShowImpl(ordered[i])];
    }
    assert items == ShowImpls(ordered);
    list := Some(items);
  }

  method FunctionDefinitionToObject(d: Definition, previous: Option<Definition>, mode: Mode)
    returns (item: TFDefinition)
    ensures item == ToObject(d, previous, mode)
  {
    hide RawEqual, ToTerraform, OrderedImpls, ParamsByName, ColumnsByName;
    var p := if previous.Some? then previous.value else Definition([], "", [], []);
    var paramsByName := PreviousParameters(p.parameters);
    var parameters := ParamsToTF(d.parameters, paramsByName);
    var columnsByName := PreviousReturnColumns(p.returnColumns);
    var returnColumns := ColumnsToTF(d.returnColumns, columnsByName);
    var impls := ImplsToTF(d.impls, p.impls, mode);
    var returnType := None;
    if |d.returnType| > 0 {
      var raw := d.returnType;
      if previous.Some? {
        raw := PreferRaw(previous.value.returnType, raw);
      }
      returnType := Some(ToTerraform(raw));
    }
    item := TFDefinition(parameters, returnType, returnColumns, impls);
  }

  /** The walk over the previous definitions. */
  method ConvertPrevious(previous: seq<Definition>, bySignature: map<string, Definition>, mode: Mode)
    returns (items: seq<TFDefinition>, converted: set<string>)
    ensures items == ShowAll(ChosenFromPrevious(previous, bySignature, mode), mode)
    ensures converted == ConvertedSignatures(previous, bySignature, mode)
  {
    hide Signature, ToObject, WireEqual;
    items := [];
    converted := {};
    ghost var picks := [];
    for i := 0 to |previous|
      invariant picks == ChosenFromPrevious(previous[..i], bySignature, mode)
      invariant items == ShowAll(picks, mode)
      invariant converted == ConvertedSignatures(previous[..i], bySignature, mode)
    {
      ChosenStep(previous, i, bySignature, mode);
      ConvertedStep(previous, i, bySignature, mode);
      var previousDefinition := previous[i];
      var signature := Signature(previousDefinition);
      var serverDefinition := previousDefinition;
      if signature !in bySignature {
        if mode.FromServer? {
          continue;
        }
      } else if !WireEqual(previousDefinition, bySignature[signature]) {
        serverDefinition := bySignature[signature];
      }
      var item := FunctionDefinitionToObject(serverDefinition, Some(previousDefinition), mode);
      ShowAllStep(picks, Pick(serverDefinition, Some(previousDefinition)), mode);
      picks := picks + [Pick(serverDefinition, Some(previousDefinition))];
      items := items + [item];
      converted := converted + {signature};
    }
    assert previous[..|previous|] == previous;
  }

  /** The walk over the server definitions that were not converted yet. */
  method ConvertServerOnly(definitions: seq<Definition>, before: set<string>) returns (items: seq<TFDefinition>)
    ensures items == ShowAll(ServerOnly(definitions, before), FromServer)
  {
    hide Signature, ToObject, ServerOnly, ShowAll, Signatures;
    NothingConverted(before);
    items := [];
    var converted := before;
    ghost var picks := [];
    assert definitions[..0] == [];
    for i := 0 to |definitions|
      invariant picks == ServerOnly(definitions[..i], before)
      invariant items == ShowAll(picks, FromServer)
      invariant converted == before + Signatures(definitions[..i])
    {
      ServerOnlyStep(definitions, i, before);
      SignaturesStep(definitions, i);
      var signature := Signature(definitions[i]);
      if signature in converted {
        continue;
      }
      var item := FunctionDefinitionToObject(definitions[i], None, FromServer);
      ShowAllStep(picks, Pick(definitions[i], None), FromServer);
      picks := picks + [Pick(definitions[i], None)];
      items := items + [item];
      converted := converted + {signature};
    }
    assert definitions[..|definitions|] == definitions;
  }

  lemma NothingConverted(before: set<string>)
    ensures ServerOnly([], before) == [] && ShowAll([], FromServer) == [] && Signatures([]) == {}
  {
  }

  method MapFunctionDefinitions(definitions: seq<Definition>, previous: seq<Definition>, mode: Mode)
    returns (items: seq<TFDefinition>)
    ensures items == Mapped(definitions, previous, mode)
  {
    var bySignature := BuildDefinitionIndex(definitions);
    var converted;
    items, converted := ConvertPrevious(previous, bySignature, mode);
    ghost var front := ChosenFromPrevious(previous, bySignature, mode);
    if mode.FromServer? {
      var serverOnly := ConvertServerOnly(definitions, converted);
      items := items + serverOnly;
      ShowAllConcat(front, ServerOnly(definitions, converted), mode);
    } else {
      assert front + [] == front;
    }
  }

  lemma ShowAllConcat(a: seq<Pick>, b: seq<Pick>, mode: Mode)
    ensures ShowAll(a + b, mode) == ShowAll(a, mode) + ShowAll(b, mode)
  {
    hide Show;
  }

  lemma ShowAllStep(ps: seq<Pick>, p: Pick, mode: Mode)
    ensures ShowAll(ps + [p], mode) == ShowAll(ps, mode) + [Show(p, mode)]
  {
    hide Show;
  }

  lemma ChosenStep(previous: seq<Definition>, i: nat, server: map<string, Definition>, mode: Mode)
    requires i < |previous|
    ensures ChosenFromPrevious(previous[..i + 1], server, mode) ==
            ChosenFromPrevious(previous[..i], server, mode) + Choose(previous[i], server, mode)
    ensures Choose(previous[i], server, mode) == [] ==>
              ChosenFromPrevious(previous[..i + 1], server, mode) == ChosenFromPrevious(previous[..i], server, mode)
  {
    assert previous[..i + 1][..i] == previous[..i];
  }

  lemma ConvertedStep(previous: seq<Definition>, i: nat, server: map<string, Definition>, mode: Mode)
    requires i < |previous|
    ensures ConvertedSignatures(previous[..i + 1], server, mode) ==
            if mode.FromPlan? || Signature(previous[i]) in server
            then ConvertedSignatures(previous[..i], server, mode) + {Signature(previous[i])}
            else ConvertedSignatures(previous[..i], server, mode)
  {
    hide Signature;
    var a, b := previous[..i], previous[..i + 1];
    assert b[i] == previous[i];
    assert forall k :: 0 <= k < i ==> a[k] == b[k];
  }

  lemma ServerOnlyStep(ds: seq<Definition>, i: nat, converted: set<string>)
    requires i < |ds|
    ensures var before, after := ServerOnly(ds[..i], converted), ServerOnly(ds[..i + 1], converted);
            var key := Signature(ds[i]);
            after == if key in converted || key in Signatures(ds[..i]) then before else before + [Pick(ds[i], None)]
  {
    assert ds[..i + 1][..i] == ds[..i];
  }

  lemma SignaturesStep(ds: seq<Definition>, i: nat)
    requires i < |ds|
    ensures Signatures(ds[..i + 1]) == Signatures(ds[..i]) + {Signature(ds[i])}
  {
    hide Signature;
    var a, b := ds[..i], ds[..i + 1];
    assert b[i] == ds[i];
    assert forall k :: 0 <= k < i ==> a[k] == b[k];
  }

  /** A Terraform implementation lacks its runtime, or what its language demands, or has no known language. */
  predicate Lacking(tf: TFImpl) {
    || tf.runtime == ""
    || tf.language !in {"SQL", "JAVA", "PYTHON"}
    || (tf.language == "SQL" && (tf.sql.None? || tf.sql.value == ""))
    || (tf.language == "JAVA" && (tf.className.None? || tf.className.value == ""))
  }

  lemma CompleteOrLacking(tf: TFImpl)
    ensures CompleteImpl(ReadImpl(tf)) <==> !Lacking(tf)
  {
  }

  /** FunctionDefinitionFromTF on implementations: they are refused exactly when one lacks something or a runtime
      is used twice. */
  method ReadImpls(impls: seq<TFImpl>) returns (r: Option<seq<Impl>>)
    ensures r.None? <==> (exists i :: 0 <= i < |impls| && Lacking(impls[i])) ||
                         (exists i, k :: 0 <= i < k < |impls| && impls[i].runtime == impls[k].runtime)
    ensures r.Some? ==> r.value == ReadEach(impls)
    ensures r.Some? <==> (forall i :: 0 <= i < |impls| ==> CompleteImpl(ReadImpl(impls[i]))) && UniqueShown(impls)
  {
    hide CompleteImpl, Lacking;
    var read := [];
    var runtimes := {};
    for i := 0 to |impls|
      invariant read == ReadEach(impls)[..i]
      invariant runtimes == set k | 0 <= k < i :: impls[k].runtime
      invariant forall k :: 0 <= k < i ==> CompleteImpl(ReadImpl(impls[k])) && !Lacking(impls[k])
      invariant forall j, k :: 0 <= j < k < i ==> impls[j].runtime != impls[k].runtime
    {
      var impl := ReadImpl(impls[i]);
      CompleteOrLacking(impls[i]);
      if !CompleteImpl(impl) {
        return None;
      }
      if impl.runtime in runtimes {
        return None;
      }
      runtimes := runtimes + {impl.runtime};
      read := read + [impl];
    }
    r := Some(read);
  }
}
