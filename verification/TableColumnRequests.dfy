/** Which requests a column diff holds, in which order, and the type a default value ends with: all in terms of
    the columns alone. */
module TableColumnRequests {
  import opened Common
  import opened DataTypes
  import opened TableColumns
  import opened TableColumnLaws

  // ----- Which requests -----

  /** What the diff asks of a column of the state that the plan has as well. */
  predicate AskedOf(p: Column, s: Column, r: Request) {
    match r
    case UpdateType(_, t) =>
      Parse(p.typ) == Some(t) && Parse(s.typ).Some? && String(t) != String(Parse(s.typ).value)
    case UpdateComment(_, text) => p.comment != s.comment && text == ValueString(p.comment)
    case UpdateNullability(_, nullable) => p.nullable != s.nullable && nullable == (p.nullable == Known(true))
    case UpdateDefault(_, None) => p.defaultValue != s.defaultValue && !p.defaultValue.Known?
    case UpdateDefault(_, Some(l)) =>
      p.defaultValue != s.defaultValue && p.defaultValue == Known(l.value) && Parse(p.typ) == Some(l.dataType)
    case UpdatePosition(_, _) => false
  }

  /** What the diff asks of the order. */
  predicate AskedOfOrder(plan: seq<Column>, state: seq<Column>, r: Request) {
    r.UpdatePosition? && Names(plan) != Names(state) &&
    exists i :: 0 <= i < |plan| && plan[i].name == r.name &&
                r.position == if i == 0 then First else After(plan[i - 1].name)
  }

  ghost predicate Asked(plan: seq<Column>, state: seq<Column>, r: Request) {
    AskedOfOrder(plan, state, r) ||
    exists p, s :: p in plan && s in state && p.name == s.name == r.name && AskedOf(p, s, r)
  }

  lemma ColumnAsks(p: Column, s: Column, r: Request)
    requires ColumnRequests(p, s).Some?
    ensures r in ColumnRequests(p, s).value <==> r.name == s.name && AskedOf(p, s, r)
  {
    hide Parse, String;
  }

  lemma {:induction false} AttributesAsk(planned: map<string, Column>, state: seq<Column>, r: Request)
    requires AttributeRequests(planned, state).Some?
    ensures r in AttributeRequests(planned, state).value <==>
            exists i :: 0 <= i < |state| && state[i].name == r.name && r.name in planned &&
                        AskedOf(planned[r.name], state[i], r)
  {
    hide AskedOf, ColumnRequests;
    if state != [] {
      var n := |state| - 1;
      var before := state[..n];
      AttributesAsk(planned, before, r);
      assert forall i :: 0 <= i < n ==> before[i] == state[i];
      if state[n].name in planned {
        ColumnAsks(planned[state[n].name], state[n], r);
      }
    }
  }

  lemma OrderAsks(plan: seq<Column>, state: seq<Column>, r: Request)
    ensures r in PositionRequests(Names(plan), Names(state)) <==> AskedOfOrder(plan, state, r)
  {
    hide Names;
    var rs := PositionRequests(Names(plan), Names(state));
    if r in rs {
      var i :| 0 <= i < |rs| && rs[i] == r;
      assert Names(plan) != Names(state) && r == UpdatePosition(Names(plan)[i], PositionOf(Names(plan), i));
      assert i > 0 ==> Names(plan)[i - 1] == plan[i - 1].name;
      assert plan[i].name == r.name && r.position == if i == 0 then First else After(plan[i - 1].name);
    }
    if AskedOfOrder(plan, state, r) {
      var i :| 0 <= i < |plan| && plan[i].name == r.name &&
               r.position == if i == 0 then First else After(plan[i - 1].name);
      assert rs[i] == UpdatePosition(Names(plan)[i], PositionOf(Names(plan), i)) == r;
    }
  }

  /** The diff holds a request exactly if the columns ask for it: a changed type, comment, nullability or
      default with the planned value, a default with the planned type, and every column behind its planned
      predecessor if the orders differ. */
  lemma RequestsExactly(plan: seq<Column>, state: seq<Column>, r: Request)
    requires Distinct(Names(plan)) && AllRequests(plan, state).Some?
    ensures r in AllRequests(plan, state).value <==> Asked(plan, state, r)
  {
    hide AskedOf, AskedOfOrder, AttributeRequests, PositionRequests, PlannedByName, Distinct;
    var planned := PlannedByName(plan);
    AttributesAsk(planned, state, r);
    OrderAsks(plan, state, r);
    PlannedKeys(plan);
    NamesIn(plan);
    if r.name in Names(plan) {
      PlannedColumn(plan, r.name);
      OnePlanned(plan, r.name);
    }
  }

  lemma OnePlanned(plan: seq<Column>, name: string)
    requires Distinct(Names(plan))
    ensures forall p, q :: p in plan && q in plan && p.name == q.name == name ==> p == q
  {
    forall p, q | p in plan && q in plan && p.name == q.name == name ensures p == q {
      var i :| 0 <= i < |plan| && plan[i] == p;
      var k :| 0 <= k < |plan| && plan[k] == q;
      assert Names(plan)[i] == Names(plan)[k];
    }
  }

  // ----- In which order -----

  /** Attributes before positions; of one column the type, the comment, the nullability, the default. */
  function Kind(r: Request): nat {
    match r
    case UpdateType(_, _) => 0
    case UpdateComment(_, _) => 1
    case UpdateNullability(_, _) => 2
    case UpdateDefault(_, _) => 3
    case UpdatePosition(_, _) => 4
  }

  /** r comes before q: its column stands before in the state, or it is the same and the kind comes before. */
  ghost predicate Before(state: seq<Column>, r: Request, q: Request) {
    if r.name == q.name then Kind(r) < Kind(q)
    else exists i, k :: 0 <= i < k < |state| && state[i].name == r.name && state[k].name == q.name
  }

  lemma ColumnOrder(p: Column, s: Column)
    requires ColumnRequests(p, s).Some?
    ensures var rs := ColumnRequests(p, s).value;
            && (forall i :: 0 <= i < |rs| ==> rs[i].name == s.name && !rs[i].UpdatePosition?)
            && (forall i, k :: 0 <= i < k < |rs| ==> Kind(rs[i]) < Kind(rs[k]))
  {
    hide Parse, String;
  }

  lemma {:induction false} AttributeOrder(planned: map<string, Column>, state: seq<Column>)
    requires Distinct(Names(state)) && AttributeRequests(planned, state).Some?
    ensures var rs := AttributeRequests(planned, state).value;
            && (forall i :: 0 <= i < |rs| ==> rs[i].name in Names(state) && !rs[i].UpdatePosition?)
            && (forall i, k :: 0 <= i < k < |rs| ==> Before(state, rs[i], rs[k]))
  {
    hide ColumnRequests, Before, Kind;
    if state != [] {
      var n := |state| - 1;
      var before := state[..n];
      assert Names(before) == Names(state)[..n] && Names(state)[n] == state[n].name;
      AttributeOrder(planned, before);
      var a := AttributeRequests(planned, before).value;
      forall i | 0 <= i < |a| ensures a[i].name in Names(state) && a[i].name != state[n].name {
        assert a[i].name in Names(before);
      }
      forall i, k | 0 <= i < k < |a| ensures Before(state, a[i], a[k]) {
        BeforeStays(state, a[i], a[k]);
      }
      if state[n].name in planned {
        ColumnOrder(planned[state[n].name], state[n]);
        var b := ColumnRequests(planned[state[n].name], state[n]).value;
        forall i, k | 0 <= i < |a| && 0 <= k < |b| ensures Before(state, a[i], b[k]) {
          BeforeLast(state, a[i], b[k]);
        }
        forall i, k | 0 <= i < k < |b| ensures Before(state, b[i], b[k]) {
          BeforeKind(state, b[i], b[k]);
        }
        assert AttributeRequests(planned, state).value == a + b;
      }
    }
  }

  lemma BeforeStays(state: seq<Column>, r: Request, q: Request)
    requires state != [] && Before(state[..|state| - 1], r, q)
    ensures Before(state, r, q)
  {
    var before := state[..|state| - 1];
    if r.name != q.name {
      var i, k :| 0 <= i < k < |before| && before[i].name == r.name && before[k].name == q.name;
      assert state[i].name == r.name && state[k].name == q.name;
    }
  }

  lemma BeforeLast(state: seq<Column>, r: Request, q: Request)
    requires state != [] && r.name in Names(state[..|state| - 1])
    requires q.name == state[|state| - 1].name && r.name != q.name
    ensures Before(state, r, q)
  {
    var before := state[..|state| - 1];
    var i :| 0 <= i < |before| && Names(before)[i] == r.name;
    assert state[i].name == r.name && state[|state| - 1].name == q.name;
  }

  lemma BeforeKind(state: seq<Column>, r: Request, q: Request)
    requires r.name == q.name && Kind(r) < Kind(q)
    ensures Before(state, r, q)
  {
  }

  /** The attribute requests come first, column by column in the order of the state and of one column in the
      order of their kinds, so each comes once; then the moves in the planned order. */
  lemma RequestsInOrder(plan: seq<Column>, state: seq<Column>) returns (n: nat)
    requires Distinct(Names(state)) && AllRequests(plan, state).Some?
    ensures var rs := AllRequests(plan, state).value;
            && n <= |rs|
            && (forall i, k :: 0 <= i < k < n ==> Before(state, rs[i], rs[k]) && !rs[i].UpdatePosition?)
            && (Names(plan) == Names(state) ==> n == |rs|)
            && (Names(plan) != Names(state) ==>
                  |rs| == n + |plan| &&
                  forall i :: 0 <= i < |plan| ==> rs[n + i].UpdatePosition? && rs[n + i].name == plan[i].name)
  {
    hide AttributeRequests, Before;
    AttributeOrder(PlannedByName(plan), state);
    n := |AttributeRequests(PlannedByName(plan), state).value|;
  }

  // ----- The type of a default -----

  /** What is held for the default of a planned column: the planned text with the type of the plan if the
      default changed, and of the state if it did not. */
  predicate DefaultHeld(held: Option<Literal>, p: Column, s: Column) {
    if p.defaultValue.Known? then
      held.Some? && held.value.value == p.defaultValue.value &&
      Parse(if p.defaultValue != s.defaultValue then p.typ else s.typ) == Some(held.value.dataType)
    else held == None
  }

  /** Where a default changed, the server ends with a literal of the planned text and the planned type, or with
      none; where it did not, with the literal it held. */
  lemma DefaultsReached(plan: seq<Column>, state: seq<Column>, p: Column, s: Column)
    requires forall c :: c in plan + state ==> Settled(c)
    requires Distinct(Names(plan)) && Distinct(Names(state)) && !ReplaceRequired(plan, state)
    requires p in plan && s in state && p.name == s.name
    ensures AllRequests(plan, state).Some?
    ensures var result := ExecuteAll(TableOf(state), AllRequests(plan, state).value);
            result.Some? && p.name in result.value.attributes &&
            DefaultHeld(result.value.attributes[p.name].default, p, s)
  {
    hide ExecuteAll, AllRequests, UpdatedAll, AttributeMap, PlannedByName, Settled, ReplaceRequired, Distinct, Updated,
      DefaultHeld;
    var planned := PlannedByName(plan);
    var u := DiffEnds(plan, state);
    PlannedHolds(plan);
    var k :| 0 <= k < |plan| && plan[k] == p;
    var i :| 0 <= i < |state| && state[i] == s;
    UpdatedAt(AttributeMap(state), planned, state, i);
    assert p in plan + state && s in plan + state;
    UpdatedDefault(p, s);
  }

  lemma UpdatedDefault(p: Column, s: Column)
    requires Settled(p) && Settled(s)
    ensures DefaultHeld(Updated(p, s).default, p, s)
  {
    hide Parse, String;
  }
}
