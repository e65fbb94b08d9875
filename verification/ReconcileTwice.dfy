/** The whole refresh: faithful to the server, and when a second one changes nothing. */
module ReconcileTwice {
  import opened Common
  import opened RawJson
  import opened Functions
  import opened FunctionUpdates
  import opened SignatureLaws
  import opened Reconcile
  import opened ReconcileForgotten
  import opened ReconcileLaws
  import opened ReconcilePicks
  import opened ReconcilePlain
  import opened ReconcileRepeats
  import opened ReconcileShown
  import opened ReconcileSpelling
  import opened ReconcileStable
  import opened TerraformFunctions

  // ----- Faithful -----

  /** A refresh is faithful: there is one server definition for each entry, each exactly once and in order,
      and the entry says what that definition says, value by value, whatever the state held before. If names
      keep their types, the entries also show the signatures of these definitions. */
  lemma {:induction false} RefreshFaithful(definitions: seq<Definition>, previous: seq<Definition>)
    returns (keys: seq<string>)
    requires forall d :: d in previous ==> ReadForm(d)
    requires forall d :: d in definitions ==> UniqueRuntimes(d.impls)
    ensures |keys| == |Mapped(definitions, previous, FromServer)|
    ensures Distinct(Keys(previous)) ==>
              (forall k :: k in keys <==> k in Keys(definitions)) &&
              InRankOrder(keys, Keys(previous), Keys(definitions))
    ensures forall i :: 0 <= i < |keys| ==>
              keys[i] in IndexDefinitions(definitions) &&
              Faithful(Mapped(definitions, previous, FromServer)[i], IndexDefinitions(definitions)[keys[i]])
    ensures AllNamesKeep(definitions, previous) ==> ShownKeys(Mapped(definitions, previous, FromServer)) == keys
  {
    hide ReadForm, ToObject, Signature, WireEqual, Faithful, Picks, UniqueRuntimes, AllNamesKeep, ShownSignature,
      Distinct, InRankOrder;
    var picks := Picks(definitions, previous, FromServer);
    keys := PickKeys(picks);
    AllPicks(definitions, previous);
    IndexedKeys(definitions);
    RefreshShowsPicks(definitions, previous);
    if Distinct(Keys(previous)) {
      PicksInOrder(definitions, previous);
    }
    forall i | 0 <= i < |keys|
      ensures keys[i] in IndexDefinitions(definitions)
      ensures Faithful(Mapped(definitions, previous, FromServer)[i], IndexDefinitions(definitions)[keys[i]])
    {
      assert picks[i] in picks;
      RefreshIsFaithful(IndexDefinitions(definitions)[keys[i]], picks[i].previous);
    }
  }

  // ----- The second refresh -----

  lemma {:induction false} AllChosen(next: seq<Definition>, server: map<string, Definition>)
    requires forall i :: 0 <= i < |next| ==> Signature(next[i]) in server
    ensures |ChosenFromPrevious(next, server, FromServer)| == |next|
    ensures forall i :: 0 <= i < |next| ==>
              ChosenFromPrevious(next, server, FromServer)[i] ==
              Pick(Effective(Some(next[i]), server[Signature(next[i])]), Some(next[i]))
  {
    hide Signature, WireEqual;
    if next != [] {
      var n := |next| - 1;
      AllChosen(next[..n], server);
      assert Choose(next[n], server, FromServer) ==
             [Pick(Effective(Some(next[n]), server[Signature(next[n])]), Some(next[n]))];
    }
  }

  lemma {:induction false} NothingNew(ds: seq<Definition>, converted: set<string>)
    requires forall k :: k in Keys(ds) ==> k in converted
    ensures ServerOnly(ds, converted) == []
  {
    hide Signature;
    if ds != [] {
      var n := |ds| - 1;
      KeysSnoc(ds);
      assert Keys(ds)[n] in Keys(ds);
      forall k | k in Keys(ds[..n]) ensures k in converted {
        assert k in Keys(ds);
      }
      NothingNew(ds[..n], converted);
    }
  }

  /** When the previous signatures are those of the server, every pick comes from a previous definition. */
  lemma SecondPicks(definitions: seq<Definition>, next: seq<Definition>)
    requires forall k :: k in Keys(next) <==> k in Keys(definitions)
    ensures Picks(definitions, next, FromServer) == ChosenFromPrevious(next, IndexDefinitions(definitions), FromServer)
  {
    var server := IndexDefinitions(definitions);
    ConvertedKeys(next, server);
    IndexedKeys(definitions);
    NothingNew(definitions, ConvertedSignatures(next, server, FromServer));
    var chosen := ChosenFromPrevious(next, server, FromServer);
    assert chosen + [] == chosen;
  }

  /** The second refresh, entry by entry. */
  lemma SecondShows(definitions: seq<Definition>, next: seq<Definition>)
    requires forall k :: k in Keys(next) <==> k in Keys(definitions)
    ensures var out := Mapped(definitions, next, FromServer);
            var server := IndexDefinitions(definitions);
            |out| == |next| && forall i :: 0 <= i < |next| ==>
              Signature(next[i]) in server &&
              out[i] == ToObject(Effective(Some(next[i]), server[Signature(next[i])]), Some(next[i]), FromServer)
  {
    hide Signature, WireEqual, ToObject, Picks;
    var server := IndexDefinitions(definitions);
    IndexedKeys(definitions);
    forall i | 0 <= i < |next| ensures Signature(next[i]) in server {
      assert Keys(next)[i] in Keys(next);
    }
    AllChosen(next, server);
    SecondPicks(definitions, next);
  }

  /** One entry of the first refresh and what it reads back to. */
  lemma FirstShows(definitions: seq<Definition>, previous: seq<Definition>, next: seq<Definition>, i: nat)
    returns (s: Definition, q: Option<Definition>)
    requires ReadDefinitions(Mapped(definitions, previous, FromServer)) == Some(next) && i < |next|
    ensures var server := IndexDefinitions(definitions);
            var picks := Picks(definitions, previous, FromServer);
            && |picks| == |next| && Signature(s) in server && server[Signature(s)] == s
            && PickKeys(picks)[i] == Signature(s) == Signature(Effective(q, s))
            && (q.Some? ==> q.value in previous && Signature(q.value) == Signature(s))
            && Mapped(definitions, previous, FromServer)[i] == ToObject(Effective(q, s), q, FromServer)
            && ReadDefinition(ToObject(Effective(q, s), q, FromServer)) == Some(next[i])
  {
    hide Signature, WireEqual, ToObject, Picks, ReadDefinition;
    var picks := Picks(definitions, previous, FromServer);
    assert picks[i] in picks;
    AllPicks(definitions, previous);
    IndexedKeys(definitions);
    s := IndexDefinitions(definitions)[Signature(picks[i].definition)];
    q := picks[i].previous;
  }

  /** Once every definition of the first refresh reads back to its signature, a second refresh from its own
      output against the same answer changes nothing if and only if in each definition the parameters and
      return columns whose name is used again later keep their text. */
  lemma {:induction false} RefreshIdempotentExactly(definitions: seq<Definition>, previous: seq<Definition>,
                                                    next: seq<Definition>)
    requires Distinct(Keys(previous)) && forall d :: d in previous ==> ReadForm(d)
    requires forall d :: d in definitions ==> UniqueRuntimes(d.impls)
    requires ReadDefinitions(Mapped(definitions, previous, FromServer)) == Some(next)
    requires Keys(next) == PickKeys(Picks(definitions, previous, FromServer))
    ensures var out := Mapped(definitions, previous, FromServer);
            var server := IndexDefinitions(definitions);
            && (forall i :: 0 <= i < |next| ==> Signature(next[i]) in server)
            && (Mapped(definitions, next, FromServer) == out <==>
                  forall i :: 0 <= i < |next| ==>
                    RepeatsKept(next[i], Effective(Some(next[i]), server[Signature(next[i])]), out[i]))
  {
    hide Signature, WireEqual, ToObject, Picks, Mapped, ReadDefinition, RepeatsKept, ReadForm, UniqueRuntimes, Distinct;
    PicksInOrder(definitions, previous);
    SecondShows(definitions, next);
    IndexedKeys(definitions);
    var out, again := Mapped(definitions, previous, FromServer), Mapped(definitions, next, FromServer);
    var server := IndexDefinitions(definitions);
    forall i | 0 <= i < |next|
      ensures again[i] == out[i] <==>
              RepeatsKept(next[i], Effective(Some(next[i]), server[Signature(next[i])]), out[i])
    {
      var s, q := FirstShows(definitions, previous, next, i);
      assert Keys(next)[i] == Signature(s);
      ObjectStableExactly(s, q, next[i]);
    }
    SameItems(again, out);
  }

  // ----- What is found again -----

  /** The parameter types are shown as texts that read back as they are. */
  predicate PlainTypes(d: Definition) {
    forall k :: 0 <= k < |d.parameters| ==> Plain(ToTerraform(d.parameters[k].dataType))
  }

  /** A shown definition reads back to the signature of the server's exactly if its types are plain. */
  lemma {:induction false} EntryRecovered(s: Definition, q: Option<Definition>, n: Definition)
    requires var e := Effective(q, s);
             Signature(e) == Signature(s) && NamesKeep(if q.Some? then q.value.parameters else [], e.parameters)
    requires TypesReadable(s) && (q.Some? ==> TypesReadable(q.value))
    requires ReadDefinition(ToObject(Effective(q, s), q, FromServer)) == Some(n)
    requires forall k :: 0 <= k < |s.parameters| && k < |Effective(q, s).parameters| ==>
               Effective(q, s).parameters[k].name == s.parameters[k].name
    requires |Effective(q, s).parameters| == |s.parameters|
    ensures Signature(n) == Signature(s) <==> PlainTypes(s)
  {
    hide NamesKeep, ToObject, ReadDefinition, ToTerraform, TypeFromTerraform, TypeText, Plain, Join, WireEqual,
      ReadParams;
    var e := Effective(q, s);
    var o := ToObject(e, q, FromServer);
    ReadParts(o, n);
    ShownSpelling(e, q, FromServer);
    SignatureJoins(s.parameters);
    SignatureJoins(e.parameters);
    SignatureJoins(n.parameters);
    SameNamesDecode(Spell(e.parameters), Spell(s.parameters));
    RereadTypes(Items(o.parameters), n.parameters);
    forall k | 0 <= k < |s.parameters|
      ensures SpellShown(Items(o.parameters))[k] == Spell(s.parameters)[k]
      ensures Spell(n.parameters)[k] == Spell(s.parameters)[k] <==> Plain(ToTerraform(s.parameters[k].dataType))
    {
      assert SpellShown(Items(o.parameters))[k] == Spell(e.parameters)[k];
    }
    SameItems(Spell(n.parameters), Spell(s.parameters));
    if Signature(n) == Signature(s) {
      SameNamesDecode(Spell(n.parameters), Spell(s.parameters));
    }
  }

  lemma {:induction false} RereadTypes(o: seq<TFParam>, n: seq<Param>)
    requires ReadParams(o) == Some(n)
    ensures |o| == |n| && forall k :: 0 <= k < |n| ==>
              n[k].name == o[k].name && TypeText(ToTerraform(n[k].dataType)) &&
              (ToTerraform(n[k].dataType) == o[k].dataType <==> Plain(o[k].dataType))
  {
    hide ToTerraform, TypeFromTerraform, TypeText, Plain, ReadOptional;
    forall k | 0 <= k < |n|
      ensures TypeText(ToTerraform(n[k].dataType)) &&
              (ToTerraform(n[k].dataType) == o[k].dataType <==> Plain(o[k].dataType))
    {
      TypeAsWritten(o[k].dataType, n[k].dataType);
    }
  }

  lemma EffectiveMembers(q: Option<Definition>, s: Definition)
    ensures var e := Effective(q, s);
            && |e.parameters| == |s.parameters| && |e.returnColumns| == |s.returnColumns|
            && (forall k :: 0 <= k < |s.parameters| ==> e.parameters[k].name == s.parameters[k].name)
            && (forall k :: 0 <= k < |s.returnColumns| ==> e.returnColumns[k].name == s.returnColumns[k].name)
  {
    hide WireEqual;
    if Effective(q, s) != s {
      WireMembers(q.value, s);
    }
  }

  /** Every definition reads back to the signature it shows exactly if the parameter types of the server are
      plain: blank space around a type name or a quoted type text loses the definition. */
  lemma {:induction false} RecoveredExactly(definitions: seq<Definition>, previous: seq<Definition>,
                                            next: seq<Definition>)
    requires AllNamesKeep(definitions, previous)
    requires forall d :: d in definitions + previous ==> TypesReadable(d)
    requires ReadDefinitions(Mapped(definitions, previous, FromServer)) == Some(next)
    ensures var out := Mapped(definitions, previous, FromServer);
            var server := IndexDefinitions(definitions);
            && ShownKeys(out) == PickKeys(Picks(definitions, previous, FromServer))
            && (Keys(next) == ShownKeys(out) <==> forall i :: 0 <= i < |out| ==>
                  ShownSignature(out[i]) in server && PlainTypes(server[ShownSignature(out[i])]))
  {
    hide AllNamesKeep, NamesKeep, TypesReadable, Signature, ShownSignature, WireEqual, ToObject, Picks, Mapped,
      ReadDefinition, PlainTypes;
    RefreshShowsPicks(definitions, previous);
    var out := Mapped(definitions, previous, FromServer);
    var server := IndexDefinitions(definitions);
    IndexedKeys(definitions);
    forall i | 0 <= i < |next|
      ensures ShownSignature(out[i]) in server
      ensures Keys(next)[i] == ShownKeys(out)[i] <==> PlainTypes(server[ShownSignature(out[i])])
    {
      var s, q := FirstShows(definitions, previous, next, i);
      assert ShownKeys(out)[i] == Signature(s);
      KeptFor(definitions, previous, s, q);
      EffectiveMembers(q, s);
      assert s in definitions + previous && (q.Some? ==> q.value in definitions + previous);
      EntryRecovered(s, q, next[i]);
    }
    SameItems(Keys(next), ShownKeys(out));
  }

  lemma KeptFor(definitions: seq<Definition>, previous: seq<Definition>, s: Definition, q: Option<Definition>)
    requires AllNamesKeep(definitions, previous)
    requires Signature(s) in IndexDefinitions(definitions) && IndexDefinitions(definitions)[Signature(s)] == s
    requires Signature(Effective(q, s)) == Signature(s) &&
             (q.Some? ==> q.value in previous && Signature(q.value) == Signature(s))
    ensures NamesKeep(if q.Some? then q.value.parameters else [], Effective(q, s).parameters)
  {
    hide NamesKeep, WireEqual, Signature;
    if q.None? {
      NothingKept(s.parameters);
    }
  }

  /** The second refresh shows the definitions in the same order exactly if they stand in the order in which
      the state reads back. */
  lemma {:induction false} SecondOrder(definitions: seq<Definition>, previous: seq<Definition>, next: seq<Definition>)
    requires Distinct(Keys(previous)) && AllNamesKeep(definitions, previous)
    requires Distinct(Keys(next)) && AllNamesKeep(definitions, next)
    ensures var shown := ShownKeys(Mapped(definitions, previous, FromServer));
            ShownKeys(Mapped(definitions, next, FromServer)) == shown <==>
                InRankOrder(shown, Keys(next), Keys(definitions))
  {
    hide AllNamesKeep, Mapped, InRankOrder, ShownSignature, Distinct;
    RefreshOrder(definitions, previous);
    RefreshOrder(definitions, next);
    var shown, again := ShownKeys(Mapped(definitions, previous, FromServer)),
      ShownKeys(Mapped(definitions, next, FromServer));
    if InRankOrder(shown, Keys(next), Keys(definitions)) {
      RankOrderUnique(shown, again, Keys(next), Keys(definitions));
    }
  }

  // ----- Also when a definition is not found again -----

  /** The previous definition of a signature. */
  function PriorOf(next: seq<Definition>, key: string): Option<Definition> {
    if next == [] then None
    else if Signature(next[0]) == key then Some(next[0])
    else PriorOf(next[1..], key)
  }

  lemma {:induction false} PriorFound(next: seq<Definition>, key: string)
    ensures PriorOf(next, key).None? ==> forall i :: 0 <= i < |next| ==> Signature(next[i]) != key
    ensures PriorOf(next, key).Some? ==> PriorOf(next, key).value in next && Signature(PriorOf(next, key).value) == key
  {
    hide Signature;
    if next != [] && Signature(next[0]) != key {
      PriorFound(next[1..], key);
      assert next == [next[0]] + next[1..];
    }
  }

  lemma {:induction false} PriorUnique(next: seq<Definition>, q: Definition)
    requires Distinct(Keys(next)) && q in next
    ensures PriorOf(next, Signature(q)) == Some(q)
  {
    hide Signature;
    PriorFound(next, Signature(q));
    var i :| 0 <= i < |next| && next[i] == q;
    var p := PriorOf(next, Signature(q)).value;
    var k :| 0 <= k < |next| && next[k] == p;
    assert Keys(next)[i] == Keys(next)[k];
  }

  lemma {:induction false} ChosenHavePrevious(previous: seq<Definition>, server: map<string, Definition>)
    ensures forall p :: p in ChosenFromPrevious(previous, server, FromServer) ==> p.previous.Some?
  {
    hide Signature, WireEqual;
    if previous != [] {
      ChosenHavePrevious(previous[..|previous| - 1], server);
    }
  }

  lemma {:induction false} ServerOnlyFresh(ds: seq<Definition>, converted: set<string>)
    ensures forall p :: p in ServerOnly(ds, converted) ==> p.previous == None && Signature(p.definition) !in converted
  {
    hide Signature;
    if ds != [] {
      ServerOnlyFresh(ds[..|ds| - 1], converted);
    }
  }

  /** A pick follows the previous definition of its signature, if there is one. */
  lemma {:induction false} PickPrior(definitions: seq<Definition>, next: seq<Definition>, p: Pick)
    requires Distinct(Keys(next)) && p in Picks(definitions, next, FromServer)
    ensures p.previous == PriorOf(next, Signature(p.definition))
  {
    hide Signature, WireEqual;
    var server := IndexDefinitions(definitions);
    AllPicks(definitions, next);
    if p.previous.Some? {
      PriorUnique(next, p.previous.value);
    } else {
      ChosenHavePrevious(next, server);
      ServerOnlyFresh(definitions, ConvertedSignatures(next, server, FromServer));
      PriorFound(next, Signature(p.definition));
    }
  }

  /** One entry of a refresh, by the signature it was picked for. */
  lemma {:induction false} EntryOf(definitions: seq<Definition>, next: seq<Definition>, j: nat)
    requires Distinct(Keys(next)) && j < |Picks(definitions, next, FromServer)|
    ensures var server := IndexDefinitions(definitions);
            var key := PickKeys(Picks(definitions, next, FromServer))[j];
            && key in server && |Mapped(definitions, next, FromServer)| == |Picks(definitions, next, FromServer)|
            && Mapped(definitions, next, FromServer)[j] == Entry(server[key], PriorOf(next, key))
  {
    hide Signature, WireEqual, ToObject, Picks, PriorOf;
    var p := Picks(definitions, next, FromServer)[j];
    assert p in Picks(definitions, next, FromServer);
    AllPicks(definitions, next);
    PickPrior(definitions, next, p);
  }

  /** What a refresh shows of a server definition after a previous one. */
  function Entry(s: Definition, previous: Option<Definition>): TFDefinition {
    ToObject(Effective(previous, s), previous, FromServer)
  }

  /** A second refresh from its own output against the same answer changes nothing if and only if the
      definitions stand in the order in which the state reads back, a definition that is found again by its
      own entry keeps the texts of repeated names, a definition that is not found again was shown with the
      server's texts and order, and one that is found by another entry is spelled the same after that one. */
  lemma {:induction false} SecondRefreshExactly(definitions: seq<Definition>, previous: seq<Definition>,
                                                next: seq<Definition>)
    requires Distinct(Keys(previous)) && AllNamesKeep(definitions, previous)
    requires Distinct(Keys(next)) && AllNamesKeep(definitions, next)
    requires forall d :: d in previous ==> ReadForm(d)
    requires forall d :: d in definitions ==> UniqueRuntimes(d.impls)
    requires ReadDefinitions(Mapped(definitions, previous, FromServer)) == Some(next)
    ensures var out := Mapped(definitions, previous, FromServer);
            var server := IndexDefinitions(definitions);
            && (forall j :: 0 <= j < |out| ==> ShownSignature(out[j]) in server)
            && (Mapped(definitions, next, FromServer) == out <==>
                  InRankOrder(ShownKeys(out), Keys(next), Keys(definitions)) &&
                  forall j :: 0 <= j < |out| ==> StaysAs(server[ShownSignature(out[j])], previous, next, j, out[j]))
  {
    hide AllNamesKeep, Mapped, Picks, InRankOrder, ShownSignature, Distinct, Signature, ToObject, WireEqual, PriorOf,
      StaysAs, ReadForm, UniqueRuntimes, ReadDefinition, Entry;
    SecondOrder(definitions, previous, next);
    RefreshShowsPicks(definitions, previous);
    RefreshShowsPicks(definitions, next);
    IndexedKeys(definitions);
    var out, again := Mapped(definitions, previous, FromServer), Mapped(definitions, next, FromServer);
    var server := IndexDefinitions(definitions);
    assert ShownKeys(out) == PickKeys(Picks(definitions, previous, FromServer));
    forall j | 0 <= j < |out| ensures ShownSignature(out[j]) in server {
      EntryOf(definitions, previous, j);
      assert ShownKeys(out)[j] == ShownSignature(out[j]);
    }
    if InRankOrder(ShownKeys(out), Keys(next), Keys(definitions)) {
      assert ShownKeys(again) == ShownKeys(out);
      forall j | 0 <= j < |out|
        ensures again[j] == out[j] <==> StaysAs(server[ShownSignature(out[j])], previous, next, j, out[j])
      {
        EntryOf(definitions, previous, j);
        EntryOf(definitions, next, j);
        var key := ShownSignature(out[j]);
        assert ShownKeys(out)[j] == key == ShownKeys(again)[j];
        PriorFound(previous, key);
        NextForm(out, next);
        StaysExactly(server[key], previous, next, j, out[j]);
      }
      SameItems(again, out);
    }
  }

  /** Entry j of a refresh shows the same again: found by what it reads back to, forgotten, or found by what
      another entry reads back to. */
  predicate StaysAs(s: Definition, previous: seq<Definition>, next: seq<Definition>, j: nat, o: TFDefinition)
    requires j < |next|
  {
    var key := Signature(s);
    if Signature(next[j]) == key then RepeatsKept(next[j], Effective(Some(next[j]), s), o)
    else if PriorOf(next, key).None? then LeavesAsIs(PriorOf(previous, key), s)
    else SpelledAs(PriorOf(next, key), s, o)
  }

  lemma NextForm(out: seq<TFDefinition>, next: seq<Definition>)
    requires ReadDefinitions(out) == Some(next)
    ensures forall d :: d in next ==> ReadForm(d)
  {
    hide ReadForm, ReadDefinition;
    forall d | d in next ensures ReadForm(d) {
      var i :| 0 <= i < |next| && next[i] == d;
      ReadHasForm(out[i], d);
    }
  }

  lemma {:induction false} StaysExactly(s: Definition, previous: seq<Definition>, next: seq<Definition>, j: nat,
                                        o: TFDefinition)
    requires j < |next| && Distinct(Keys(next)) && UniqueRuntimes(s.impls)
    requires (forall d :: d in previous ==> ReadForm(d)) && (forall d :: d in next ==> ReadForm(d))
    requires o == Entry(s, PriorOf(previous, Signature(s))) && ReadDefinition(o) == Some(next[j])
    ensures Entry(s, PriorOf(next, Signature(s))) == o <==> StaysAs(s, previous, next, j, o)
  {
    hide ToObject, Signature, WireEqual, PriorOf, ReadDefinition, ReadForm, UniqueRuntimes, RepeatsKept, Distinct,
      SpelledAs, LeavesAsIs;
    var q, r := PriorOf(previous, Signature(s)), PriorOf(next, Signature(s));
    PriorFound(previous, Signature(s));
    PriorFound(next, Signature(s));
    if Signature(next[j]) == Signature(s) {
      PriorUnique(next, next[j]);
      ObjectStableExactly(s, q, next[j]);
    } else if r.None? {
      ForgottenExactly(s, q);
    } else {
      SpelledExactly(s, q, r);
    }
  }

  /** For colon-free names and accepted types the last case does not arise: a definition that is not found by
      what it reads back to is not found at all. */
  lemma {:induction false} NoOtherEntry(definitions: seq<Definition>, previous: seq<Definition>, next: seq<Definition>,
                                        j: nat)
    requires forall d :: d in definitions + previous ==> Decodable(d)
    requires ReadDefinitions(Mapped(definitions, previous, FromServer)) == Some(next) && j < |next|
    requires var key := ShownSignature(Mapped(definitions, previous, FromServer)[j]);
             Signature(next[j]) != key
    ensures PriorOf(next, ShownSignature(Mapped(definitions, previous, FromServer)[j])) == None
  {
    hide Signature, WireEqual, ToObject, Picks, Mapped, ReadDefinition, ReadDefinitions, Decodable, PriorOf, Join,
      Readable, Plain;
    var out := Mapped(definitions, previous, FromServer);
    var key := ShownSignature(out[j]);
    PriorFound(next, key);
    var a := SpellShown(Items(out[j].parameters));
    EntryReadable(definitions, previous, next, j);
    SignatureSpells(next[j]);
    forall i | 0 <= i < |next| ensures Signature(next[i]) != key {
      EntryReadable(definitions, previous, next, i);
      SignatureSpells(next[i]);
      if Signature(next[i]) == key {
        PlainBySignature(a, Spell(next[i].parameters), Spell(next[j].parameters));
      }
    }
  }

  lemma SignatureSpells(d: Definition)
    ensures Signature(d) == Join(Spell(d.parameters))
  {
    SignatureJoins(d.parameters);
  }

  lemma {:induction false} PlainBySignature(a: seq<Spelled>, b: seq<Spelled>, c: seq<Spelled>)
    requires Join(a) == Join(b) && |a| == |c|
    requires forall k :: 0 <= k < |a| ==> Readable(a[k]) && (Plain(a[k].typ) ==> a[k] == c[k])
    requires forall k :: 0 <= k < |b| ==> Readable(b[k]) && Plain(b[k].typ)
    ensures a == c
  {
    hide Join, Plain, Readable;
    JoinDecodes(a, b);
    SameItems(a, c);
  }

  /** What is shown and what it reads back to can be decoded, and reads back to itself where it is plain. */
  lemma {:induction false} EntryReadable(definitions: seq<Definition>, previous: seq<Definition>, next: seq<Definition>,
                                         i: nat)
    requires forall d :: d in definitions + previous ==> Decodable(d)
    requires ReadDefinitions(Mapped(definitions, previous, FromServer)) == Some(next) && i < |next|
    ensures var a := SpellShown(Items(Mapped(definitions, previous, FromServer)[i].parameters));
            var b := Spell(next[i].parameters);
            && |a| == |b|
            && (forall k :: 0 <= k < |a| ==>
                  Readable(a[k]) && Readable(b[k]) && a[k].name == b[k].name && Plain(b[k].typ))
            && (forall k :: 0 <= k < |a| && Plain(a[k].typ) ==> a[k] == b[k])
  {
    hide Signature, WireEqual, ToObject, Picks, Mapped, ReadDefinition, TypeText, Plain, ToTerraform,
      TypeFromTerraform, ReadParams, ReadOptional;
    var s, q := FirstShows(definitions, previous, next, i);
    var e := Effective(q, s);
    var o := ToObject(e, q, FromServer);
    IndexedKeys(definitions);
    assert s in definitions + previous && (q.Some? ==> q.value in definitions + previous);
    assert Decodable(e);
    ShownReadable(e, q, FromServer);
    ReadParts(o, next[i]);
    RereadTypes(Items(o.parameters), next[i].parameters);
    forall k | 0 <= k < |next[i].parameters| ensures Plain(ToTerraform(next[i].parameters[k].dataType)) {
      assert TypeText(SpellShown(Items(o.parameters))[k].typ);
      RereadPlain(Items(o.parameters)[k].dataType, next[i].parameters[k].dataType);
    }
  }

  /** Refreshing again from its own output against the same answer changes nothing, for distinct names and
      plain types. */
  lemma {:induction false} RefreshIdempotent(definitions: seq<Definition>, previous: seq<Definition>,
                                             next: seq<Definition>)
    requires Distinct(Keys(previous)) && forall d :: d in previous ==> ReadForm(d)
    requires AllNamesKeep(definitions, previous)
    requires forall d :: d in definitions ==>
               DistinctNames(d) && UniqueRuntimes(d.impls) && TypesReadable(d) && PlainTypes(d)
    requires ReadDefinitions(Mapped(definitions, previous, FromServer)) == Some(next)
    ensures Mapped(definitions, next, FromServer) == Mapped(definitions, previous, FromServer)
  {
    hide Signature, WireEqual, ToObject, Picks, Mapped, ReadDefinition, RepeatsKept, UniqueRuntimes, Distinct,
      AllNamesKeep, TypesReadable, PlainTypes, DistinctNames, ReadForm;
    forall d | d in previous ensures TypesReadable(d) {
      FormReadable(d);
    }
    RecoveredExactly(definitions, previous, next);
    IndexedKeys(definitions);
    var out := Mapped(definitions, previous, FromServer);
    var server := IndexDefinitions(definitions);
    assert |out| == |next|;
    RefreshShowsPicks(definitions, previous);
    forall i | 0 <= i < |out| ensures ShownSignature(out[i]) in server && PlainTypes(server[ShownSignature(out[i])]) {
      var s, q := FirstShows(definitions, previous, next, i);
      assert ShownKeys(out)[i] == Signature(s);
    }
    RefreshIdempotentExactly(definitions, previous, next);
    forall i | 0 <= i < |next|
      ensures RepeatsKept(next[i], Effective(Some(next[i]), server[Signature(next[i])]), out[i])
    {
      var s, q := FirstShows(definitions, previous, next, i);
      assert Keys(next)[i] == Signature(s);
      EntryDistinct(s, q, next[i], out[i]);
    }
  }

  lemma FormReadable(d: Definition)
    requires ReadForm(d)
    ensures TypesReadable(d)
  {
    hide Encoded, OptionalEncoded, TypeText;
  }

  lemma {:induction false} EntryDistinct(s: Definition, q: Option<Definition>, n: Definition, o: TFDefinition)
    requires DistinctNames(s) && o == ToObject(Effective(q, s), q, FromServer) && ReadDefinition(o) == Some(n)
    ensures RepeatsKept(n, Effective(Some(n), s), o)
  {
    hide ReadDefinition, ReadParams, ReadColumns, WireEqual, ShowParam, ShowColumn, RepeatsKept, OrderedImpls;
    ReadParts(o, n);
    EffectiveMembers(q, s);
    EffectiveMembers(Some(n), s);
    ReadNames(Effective(q, s), o, n, ParamsByName(if q.Some? then q.value.parameters else []),
              ColumnsByName(if q.Some? then q.value.returnColumns else []));
    assert DistinctParams(n.parameters) && DistinctColumns(n.returnColumns);
    DistinctIsKept(n, Effective(Some(n), s), o);
  }

  lemma {:induction false} ReadNames(e: Definition, o: TFDefinition, n: Definition, ps: map<string, Param>,
                                     cs: map<string, Column>)
    requires Items(o.parameters) == ShowParams(e.parameters, ps) &&
             Items(o.returnColumns) == ShowColumns(e.returnColumns, cs)
    requires ReadParams(Items(o.parameters)) == Some(n.parameters) &&
             ReadColumns(Items(o.returnColumns)) == Some(n.returnColumns)
    ensures |n.parameters| == |e.parameters| == |Items(o.parameters)| &&
            |n.returnColumns| == |e.returnColumns| == |Items(o.returnColumns)|
    ensures forall k :: 0 <= k < |e.parameters| ==> n.parameters[k].name == e.parameters[k].name
    ensures forall k :: 0 <= k < |e.returnColumns| ==> n.returnColumns[k].name == e.returnColumns[k].name
  {
    hide PreferRaw, ToTerraform, ShowOptional, TypeFromTerraform, ReadOptional;
  }
}
