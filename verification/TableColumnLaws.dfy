/** Executing the column diff on the table of the state yields the planned columns. */
module TableColumnLaws {
  import opened Common
  import opened DataTypes
  import opened TableColumns

  predicate Distinct(names: seq<string>) {
    forall i, k :: 0 <= i < k < |names| ==> names[i] != names[k]
  }

  ghost predicate SameNames(a: seq<string>, b: seq<string>) {
    forall x :: x in a <==> x in b
  }

  // ----- Moving -----

  /** The order without the names of a list, everything else in place. */
  function WithoutAll(order: seq<string>, names: seq<string>): seq<string> {
    if order == [] then []
    else if order[0] in names then WithoutAll(order[1..], names)
    else [order[0]] + WithoutAll(order[1..], names)
  }

  lemma {:induction false} WithoutAllHolds(order: seq<string>, names: seq<string>)
    ensures forall x :: x in WithoutAll(order, names) <==> x in order && x !in names
  {
    if order != [] {
      WithoutAllHolds(order[1..], names);
      assert order == [order[0]] + order[1..];
    }
  }

  lemma {:induction false} WithoutNothing(order: seq<string>)
    ensures WithoutAll(order, []) == order
  {
    if order != [] {
      WithoutNothing(order[1..]);
    }
  }

  lemma {:induction false} WithoutEverything(order: seq<string>, names: seq<string>)
    requires forall x :: x in order ==> x in names
    ensures WithoutAll(order, names) == []
  {
    if order != [] {
      WithoutEverything(order[1..], names);
    }
  }

  lemma {:induction false} WithoutOneMore(order: seq<string>, names: seq<string>, x: string)
    ensures Without(WithoutAll(order, names), x) == WithoutAll(order, names + [x])
  {
    if order != [] {
      WithoutOneMore(order[1..], names, x);
      if order[0] !in names {
        assert WithoutAll(order, names)[1..] == WithoutAll(order[1..], names);
      }
    }
  }

  lemma {:induction false} WithoutConcat(a: seq<string>, b: seq<string>, x: string)
    requires x !in a
    ensures Without(a + b, x) == a + Without(b, x)
  {
    if a == [] {
      assert a + b == b;
    } else {
      assert a == [a[0]] + a[1..];
      WithoutConcat(a[1..], b, x);
      assert (a + b)[1..] == a[1..] + b;
    }
  }

  lemma {:induction false} InsertBehind(a: seq<string>, last: string, b: seq<string>, x: string)
    requires last !in a
    ensures InsertAfter(a + [last] + b, last, x) == a + [last, x] + b
  {
    if a == [] {
      assert a + [last] + b == [last] + b;
      assert ([last] + b)[1..] == b;
    } else {
      assert a == [a[0]] + a[1..];
      InsertBehind(a[1..], last, b, x);
      assert (a + [last] + b)[1..] == a[1..] + [last] + b;
    }
  }

  /** The order after the first i position requests: the first i planned columns, then the others in
      their old relative order. */
  function Arranged(plan: seq<string>, state: seq<string>, i: nat): seq<string>
    requires i <= |plan|
  {
    plan[..i] + WithoutAll(state, plan[..i])
  }

  lemma MoveToFront(rest: seq<string>, x: string)
    requires x in rest
    ensures Move([] + rest, x, First) == Some([] + [x] + Without(rest, x))
  {
    hide Without;
    assert [] + rest == rest && [] + [x] == [x];
  }

  lemma MoveBehind(a: seq<string>, last: string, rest: seq<string>, x: string)
    requires last !in a && x !in a + [last] && x in rest
    ensures Move(a + [last] + rest, x, After(last)) == Some(a + [last] + [x] + Without(rest, x))
  {
    hide Without, InsertAfter;
    WithoutConcat(a + [last], rest, x);
    InsertBehind(a, last, Without(rest, x), x);
    assert a + [last] + [x] == a + [last, x];
  }

  /** One request puts one more column in its place. */
  lemma MoveArranges(plan: seq<string>, state: seq<string>, i: nat)
    requires Distinct(plan) && SameNames(plan, state) && i < |plan|
    ensures Move(Arranged(plan, state, i), plan[i], PositionOf(plan, i)) == Some(Arranged(plan, state, i + 1))
  {
    hide Move, Without, WithoutAll;
    var front, x := plan[..i], plan[i];
    var rest := WithoutAll(state, front);
    WithoutAllHolds(state, front);
    WithoutOneMore(state, front, x);
    assert plan[..i + 1] == front + [x];
    assert x in plan && x !in front;
    if i > 0 {
      assert front == plan[..i - 1] + [plan[i - 1]];
      MoveBehind(plan[..i - 1], plan[i - 1], rest, x);
    } else {
      MoveToFront(rest, x);
    }
  }

  // ----- Executing position requests -----

  lemma ExecuteNothing(t: Table)
    ensures ExecuteAll(t, []) == Some(t)
  {
    hide Execute;
  }

  lemma ExecuteSnoc(t: Table, before: seq<Request>, r: Request)
    ensures ExecuteAll(t, before + [r]) ==
            if ExecuteAll(t, before).Some? then Execute(ExecuteAll(t, before).value, r) else None
  {
    hide Execute;
    assert (before + [r])[..|before|] == before;
  }

  lemma {:induction false} ExecuteConcat(t: Table, a: seq<Request>, b: seq<Request>)
    ensures ExecuteAll(t, a + b) ==
            if ExecuteAll(t, a).Some? then ExecuteAll(ExecuteAll(t, a).value, b) else None
  {
    hide Execute;
    if b == [] {
      assert a + b == a;
    } else {
      var n := |b| - 1;
      ExecuteConcat(t, a, b[..n]);
      assert (a + b)[..|a| + n] == a + b[..n];
    }
  }

  lemma NothingArranged(t: Table, plan: seq<string>)
    ensures ExecuteAll(t, []) == Some(t.(order := Arranged(plan, t.order, 0)))
  {
    WithoutNothing(t.order);
    assert plan[..0] == [] && [] + t.order == t.order;
  }

  /** After i requests the first i columns are the plan's and the tail keeps its relative order; no
      request is refused and no attribute changes. */
  lemma {:induction false} PositionsExecute(t: Table, plan: seq<string>, i: nat)
    requires Distinct(plan) && SameNames(plan, t.order) && i <= |plan| && plan != t.order
    requires forall x :: x in plan ==> x in t.attributes
    ensures ExecuteAll(t, PositionRequests(plan, t.order)[..i]) == Some(t.(order := Arranged(plan, t.order, i)))
  {
    hide ExecuteAll, Arranged, Move, PositionOf, SameNames, Distinct;
    var rs := PositionRequests(plan, t.order);
    if i == 0 {
      NothingArranged(t, plan);
      assert rs[..0] == [];
    } else {
      PositionsExecute(t, plan, i - 1);
      MoveArranges(plan, t.order, i - 1);
      assert plan[i - 1] in plan;
      assert rs[..i] == rs[..i - 1] + [rs[i - 1]];
      ExecuteSnoc(t, rs[..i - 1], rs[i - 1]);
    }
  }

  /** Executing the position requests yields exactly the planned order. */
  lemma PositionsReachPlan(t: Table, plan: seq<string>)
    requires Distinct(plan) && SameNames(plan, t.order)
    requires forall x :: x in plan ==> x in t.attributes
    ensures ExecuteAll(t, PositionRequests(plan, t.order)) == Some(t.(order := plan))
  {
    hide ExecuteAll, WithoutAll, SameNames;
    ExecuteNothing(t);
    if plan != t.order {
      PositionsExecute(t, plan, |plan|);
      assert PositionRequests(plan, t.order)[..|plan|] == PositionRequests(plan, t.order);
      EverythingArranged(plan, t.order);
    }
  }

  lemma EverythingArranged(plan: seq<string>, state: seq<string>)
    requires SameNames(plan, state)
    ensures Arranged(plan, state, |plan|) == plan
  {
    hide WithoutAll;
    assert plan[..|plan|] == plan;
    WithoutEverything(state, plan);
  }

  // ----- Executing attribute requests -----

  /** A column every value of which is known or null, with a type that parses. */
  predicate Settled(c: Column) {
    Parse(c.typ).Some? && !c.comment.Unknown? && !c.nullable.Unknown? && !c.defaultValue.Unknown?
  }

  /** What the server holds for a column of the state. */
  function AttributesOf(c: Column): Attributes
    requires Settled(c)
  {
    var dataType := Parse(c.typ).value;
    Attributes(dataType, ValueString(c.comment), ValueBool(c.nullable), ValueBool(c.autoIncrement),
               DefaultLiteral(c, dataType))
  }

  /** The server's attributes show what the plan asks for: the same canonical type text, comment,
      nullability and default text. */
  predicate Shows(a: Attributes, c: Column) {
    Parse(c.typ).Some? && String(a.dataType) == String(Parse(c.typ).value) &&
    a.comment == ValueString(c.comment) && a.nullable == ValueBool(c.nullable) &&
    if c.defaultValue.Known? then a.default.Some? && a.default.value.value == c.defaultValue.value
    else a.default == None
  }

  /** The attributes after the requests for one column. */
  function Updated(desired: Column, current: Column): Attributes
    requires Settled(desired) && Settled(current)
  {
    var a := WithNullability(WithComment(WithType(AttributesOf(current), desired), desired, current), desired, current);
    if desired.defaultValue != current.defaultValue
    then a.(default := DefaultLiteral(desired, Parse(desired.typ).value))
    else a
  }

  /** The updated attributes show the plan; auto_increment is never touched. */
  lemma UpdatedShows(desired: Column, current: Column)
    requires Settled(desired) && Settled(current)
    ensures Shows(Updated(desired, current), desired)
    ensures Updated(desired, current).autoIncrement == AttributesOf(current).autoIncrement
  {
    hide Parse, String;
  }

  function With(t: Table, name: string, a: Attributes): Table {
    t.(attributes := t.attributes[name := a])
  }

  /** At most one request on one column, applied to a table that holds it. */
  lemma OptionalExecutes(t: Table, name: string, before: seq<Request>, a: Attributes, rs: seq<Request>, b: Attributes)
    requires name in t.attributes && ExecuteAll(t, before) == Some(With(t, name, a))
    requires (rs == [] && a == b) || (|rs| == 1 && Execute(With(t, name, a), rs[0]) == Some(With(t, name, b)))
    ensures ExecuteAll(t, before + rs) == Some(With(t, name, b))
  {
    if rs == [] {
      assert before + rs == before;
    } else {
      assert rs == [rs[0]];
      ExecuteSnoc(t, before, rs[0]);
    }
  }

  lemma WithTwice(t: Table, name: string, a: Attributes, b: Attributes)
    ensures With(With(t, name, a), name, b) == With(t, name, b)
  {
  }

  /** The attributes with one more property brought up to date. */
  function WithType(a: Attributes, desired: Column): Attributes
    requires Settled(desired)
  {
    var desiredType := Parse(desired.typ).value;
    if String(desiredType) != String(a.dataType) then a.(dataType := desiredType) else a
  }

  function WithComment(a: Attributes, desired: Column, current: Column): Attributes {
    if desired.comment != current.comment then a.(comment := ValueString(desired.comment)) else a
  }

  function WithNullability(a: Attributes, desired: Column, current: Column): Attributes {
    if desired.nullable != current.nullable then a.(nullable := ValueBool(desired.nullable)) else a
  }

  /** Type and comment. */
  lemma FrontExecutes(t: Table, desired: Column, current: Column)
    requires Settled(desired) && Settled(current)
    requires current.name in t.attributes && t.attributes[current.name] == AttributesOf(current)
    ensures var a := AttributesOf(current);
            ExecuteAll(t, TypeRequests(desired, current, Parse(desired.typ).value, a.dataType) +
                          CommentRequests(desired, current)) ==
            Some(With(t, current.name, WithComment(WithType(a, desired), desired, current)))
  {
    var name, a := current.name, AttributesOf(current);
    hide Parse, String, ExecuteAll;
    var types := TypeRequests(desired, current, Parse(desired.typ).value, a.dataType);
    ExecuteNothing(t);
    var a1 := WithType(a, desired);
    assert With(t, name, a) == t;
    WithTwice(t, name, a, a1);
    OptionalExecutes(t, name, [], a, types, a1);
    assert [] + types == types;
    WithTwice(t, name, a1, WithComment(a1, desired, current));
    OptionalExecutes(t, name, types, a1, CommentRequests(desired, current), WithComment(a1, desired, current));
  }

  /** Nullability and default. */
  lemma BackExecutes(t: Table, desired: Column, current: Column, front: seq<Request>, a: Attributes, dataType: DataType)
    requires current.name in t.attributes && ExecuteAll(t, front) == Some(With(t, current.name, a))
    requires !desired.defaultValue.Unknown? && !current.defaultValue.Unknown?
    requires current.defaultValue.Known? ==> desired.defaultValue.Known?
    ensures var b := WithNullability(a, desired, current);
            ExecuteAll(t, front + NullabilityRequests(desired, current) +
                       DefaultRequests(desired, current, dataType)) ==
            Some(With(t, current.name, if desired.defaultValue != current.defaultValue
                                       then b.(default := DefaultLiteral(desired, dataType)) else b))
  {
    hide ExecuteAll;
    var name := current.name;
    var b := WithNullability(a, desired, current);
    var c := if desired.defaultValue != current.defaultValue then b.(default := DefaultLiteral(desired, dataType))
             else b;
    WithTwice(t, name, a, b);
    OptionalExecutes(t, name, front, a, NullabilityRequests(desired, current), b);
    WithTwice(t, name, b, c);
    OptionalExecutes(t, name, front + NullabilityRequests(desired, current), b,
                     DefaultRequests(desired, current, dataType), c);
  }

  /** The requests for one column are accepted and update exactly that column. */
  lemma ColumnExecutes(t: Table, desired: Column, current: Column)
    requires Settled(desired) && Settled(current)
    requires current.name in t.attributes && t.attributes[current.name] == AttributesOf(current)
    requires current.defaultValue.Known? ==> desired.defaultValue.Known?
    ensures ColumnRequests(desired, current).Some?
    ensures ExecuteAll(t, ColumnRequests(desired, current).value) ==
            Some(With(t, current.name, Updated(desired, current)))
  {
    hide ExecuteAll, Parse, String;
    var desiredType, currentType := Parse(desired.typ).value, Parse(current.typ).value;
    FrontExecutes(t, desired, current);
    BackExecutes(t, desired, current,
                 TypeRequests(desired, current, desiredType, currentType) + CommentRequests(desired, current),
                 WithComment(WithType(AttributesOf(current), desired), desired, current), desiredType);
  }

  /** The attributes of a table after the columns of the list have been brought up to date. */
  function UpdatedAll(attributes: map<string, Attributes>, planned: map<string, Column>, state: seq<Column>)
    : map<string, Attributes>
    requires forall c :: c in state ==> Settled(c) && c.name in planned && Settled(planned[c.name])
  {
    if state == [] then attributes
    else
      var n := |state| - 1;
      UpdatedAll(attributes, planned, state[..n])[state[n].name := Updated(planned[state[n].name], state[n])]
  }

  lemma {:induction false} UpdatedAt(attributes: map<string, Attributes>, planned: map<string, Column>,
                                     state: seq<Column>, i: nat)
    requires forall c :: c in state ==> Settled(c) && c.name in planned && Settled(planned[c.name])
    requires Distinct(Names(state)) && i < |state|
    ensures var u := UpdatedAll(attributes, planned, state);
            state[i] in state && state[i].name in u && u[state[i].name] == Updated(planned[state[i].name], state[i])
  {
    hide Settled, Updated;
    var n := |state| - 1;
    if i < n {
      assert Names(state)[i] != Names(state)[n];
      assert Names(state[..n]) == Names(state)[..n];
      UpdatedAt(attributes, planned, state[..n], i);
    }
  }

  lemma {:induction false} UpdatedElse(attributes: map<string, Attributes>, planned: map<string, Column>,
                                       state: seq<Column>, name: string)
    requires forall c :: c in state ==> Settled(c) && c.name in planned && Settled(planned[c.name])
    requires name !in Names(state) && name in attributes
    ensures var u := UpdatedAll(attributes, planned, state);
            name in u && u[name] == attributes[name]
  {
    hide Settled, Updated;
    if state != [] {
      var n := |state| - 1;
      assert Names(state)[n] == state[n].name;
      assert Names(state[..n]) == Names(state)[..n];
      UpdatedElse(attributes, planned, state[..n], name);
    }
  }

  lemma {:induction false} UpdatedKeys(attributes: map<string, Attributes>, planned: map<string, Column>,
                                       state: seq<Column>)
    requires forall c :: c in state ==> Settled(c) && c.name in planned && Settled(planned[c.name])
    requires forall c :: c in state ==> c.name in attributes
    ensures UpdatedAll(attributes, planned, state).Keys == attributes.Keys
  {
    hide Settled, Updated;
    if state != [] {
      UpdatedKeys(attributes, planned, state[..|state| - 1]);
      assert state[|state| - 1] in state;
    }
  }

  /** All attribute requests are accepted, in order, column by column. */
  lemma {:induction false} AttributesExecute(t: Table, planned: map<string, Column>, state: seq<Column>, n: nat)
    requires n <= |state| && Distinct(Names(state))
    requires forall c :: c in state ==> Settled(c) && c.name in planned && Settled(planned[c.name])
    requires forall c :: c in state ==> c.defaultValue.Known? ==> planned[c.name].defaultValue.Known?
    requires forall c :: c in state ==> c.name in t.attributes && t.attributes[c.name] == AttributesOf(c)
    ensures AttributeRequests(planned, state[..n]).Some?
    ensures ExecuteAll(t, AttributeRequests(planned, state[..n]).value) ==
            Some(t.(attributes := UpdatedAll(t.attributes, planned, state[..n])))
  {
    if n > 0 {
      var c := state[n - 1];
      assert c in state;
      AttributesExecute(t, planned, state, n - 1);
      AttributeStep(planned, state, n - 1);
      StillCurrent(t, planned, state, n - 1);
      var u := t.(attributes := UpdatedAll(t.attributes, planned, state[..n - 1]));
      ColumnExecutes(u, planned[c.name], c);
      UpdatedStep(t.attributes, planned, state, n);
      ExecuteTwo(t, AttributeRequests(planned, state[..n - 1]).value, u, ColumnRequests(planned[c.name], c).value,
                 With(u, c.name, Updated(planned[c.name], c)));
    }
  }

  lemma ExecuteTwo(t: Table, a: seq<Request>, u: Table, b: seq<Request>, v: Table)
    requires ExecuteAll(t, a) == Some(u) && ExecuteAll(u, b) == Some(v)
    ensures ExecuteAll(t, a + b) == Some(v)
  {
    ExecuteConcat(t, a, b);
  }

  lemma UpdatedStep(attributes: map<string, Attributes>, planned: map<string, Column>, state: seq<Column>, n: nat)
    requires 0 < n <= |state|
    requires forall c :: c in state ==> Settled(c) && c.name in planned && Settled(planned[c.name])
    ensures var c := state[n - 1];
            c in state &&
            UpdatedAll(attributes, planned, state[..n]) ==
            UpdatedAll(attributes, planned, state[..n - 1])[c.name := Updated(planned[c.name], c)]
  {
    assert state[..n][..n - 1] == state[..n - 1];
  }

  /** A column that was not reached yet still has the attributes of the state. */
  lemma StillCurrent(t: Table, planned: map<string, Column>, state: seq<Column>, i: nat)
    requires i < |state| && Distinct(Names(state))
    requires forall c :: c in state ==> Settled(c) && c.name in planned && Settled(planned[c.name])
    requires forall c :: c in state ==> c.name in t.attributes && t.attributes[c.name] == AttributesOf(c)
    ensures var u := UpdatedAll(t.attributes, planned, state[..i]);
            state[i].name in u && u[state[i].name] == AttributesOf(state[i])
  {
    var before := state[..i];
    assert Names(before) == Names(state)[..i];
    assert state[i] in state && Names(state)[i] == state[i].name;
    UpdatedElse(t.attributes, planned, before, state[i].name);
  }

  // ----- The whole diff -----

  function AttributeMap(state: seq<Column>): map<string, Attributes>
    requires forall c :: c in state ==> Settled(c)
  {
    if state == [] then map[]
    else
      var n := |state| - 1;
      AttributeMap(state[..n])[state[n].name := AttributesOf(state[n])]
  }

  /** The table the server holds for the columns of the state. */
  function TableOf(state: seq<Column>): Table
    requires forall c :: c in state ==> Settled(c)
  {
    Table(Names(state), AttributeMap(state))
  }

  lemma {:induction false} AttributeMapHolds(state: seq<Column>)
    requires Distinct(Names(state)) && forall c :: c in state ==> Settled(c)
    ensures forall c :: c in state ==> c.name in AttributeMap(state) && AttributeMap(state)[c.name] == AttributesOf(c)
    ensures forall k :: k in AttributeMap(state) ==> k in Names(state)
  {
    hide Settled, AttributesOf;
    if state != [] {
      var n := |state| - 1;
      assert Names(state) == Names(state[..n]) + [state[n].name];
      AttributeMapHolds(state[..n]);
      forall c | c in state && c != state[n] ensures c in state[..n] && c.name != state[n].name {
        var i :| 0 <= i < |state| && state[i] == c;
        assert Names(state)[i] != Names(state)[n];
      }
    }
  }

  lemma {:induction false} PlannedKeys(plan: seq<Column>)
    ensures forall k :: k in PlannedByName(plan) <==> k in Names(plan)
  {
    if plan != [] {
      var n := |plan| - 1;
      assert Names(plan) == Names(plan[..n]) + [plan[n].name];
      PlannedKeys(plan[..n]);
    }
  }

  lemma {:induction false} PlannedHolds(plan: seq<Column>)
    requires Distinct(Names(plan))
    ensures forall i :: 0 <= i < |plan| ==>
              plan[i].name in PlannedByName(plan) && PlannedByName(plan)[plan[i].name] == plan[i]
  {
    if plan != [] {
      var n := |plan| - 1;
      var before := plan[..n];
      assert forall i :: 0 <= i < n ==> Names(before)[i] == Names(plan)[i];
      PlannedHolds(before);
      forall i | 0 <= i < n ensures before[i] == plan[i] && plan[i].name != plan[n].name {
        assert Names(plan)[i] != Names(plan)[n];
      }
    }
  }

  lemma PlannedCount(plan: seq<Column>)
    requires Distinct(Names(plan))
    ensures |PlannedByName(plan)| == |plan|
  {
    PlannedKeys(plan);
    CountKeys(PlannedByName(plan), Names(plan));
  }

  lemma CountKeys(m: map<string, Column>, names: seq<string>)
    requires Distinct(names) && forall k :: k in m <==> k in names
    ensures |m| == |names|
  {
    DistinctCount(names);
    assert m.Keys == set x | x in names;
  }

  /** The planned column of a name is the one column of the plan with that name. */
  lemma PlannedColumn(plan: seq<Column>, name: string)
    requires Distinct(Names(plan)) && name in Names(plan)
    ensures name in PlannedByName(plan) && PlannedByName(plan)[name] in plan && PlannedByName(plan)[name].name == name
  {
    PlannedHolds(plan);
    var i :| 0 <= i < |plan| && Names(plan)[i] == name;
    assert plan[i] in plan;
  }

  lemma {:induction false} DistinctCount(names: seq<string>)
    requires Distinct(names)
    ensures |set x | x in names| == |names|
  {
    if names != [] {
      var n := |names| - 1;
      DistinctCount(names[..n]);
      assert names == names[..n] + [names[n]];
      assert (set x | x in names) == (set x | x in names[..n]) + {names[n]};
    }
  }

  lemma NamesIn(columns: seq<Column>)
    ensures forall x :: x in Names(columns) <==> exists c :: c in columns && c.name == x
  {
    forall x | x in Names(columns) ensures exists c :: c in columns && c.name == x {
      var i :| 0 <= i < |columns| && Names(columns)[i] == x;
      assert columns[i] in columns;
    }
    forall c | c in columns ensures c.name in Names(columns) {
      var i :| 0 <= i < |columns| && columns[i] == c;
      assert Names(columns)[i] == c.name;
    }
  }

  lemma {:induction false} SubsetOfSameSize(a: set<string>, b: set<string>)
    requires a <= b && |a| == |b|
    ensures a == b
  {
    if a != {} {
      var x :| x in a;
      SubsetOfSameSize(a - {x}, b - {x});
    }
  }

  lemma KeepsNames(plan: seq<Column>, state: seq<Column>)
    requires Distinct(Names(plan)) && Distinct(Names(state))
    ensures |PlannedByName(plan)| == |state| &&
            (forall i :: 0 <= i < |state| ==> state[i].name in PlannedByName(plan)) <==>
            SameNames(Names(plan), Names(state))
  {
    var a, b := set x | x in Names(state), set x | x in Names(plan);
    PlannedKeys(plan);
    PlannedCount(plan);
    DistinctCount(Names(plan));
    DistinctCount(Names(state));
    assert forall i :: 0 <= i < |state| ==> Names(state)[i] == state[i].name;
    if |PlannedByName(plan)| == |state| && forall i :: 0 <= i < |state| ==> state[i].name in PlannedByName(plan) {
      assert a <= b;
      SubsetOfSameSize(a, b);
      assert forall x :: (x in Names(plan) <==> x in b) && (x in Names(state) <==> x in a);
    }
    if SameNames(Names(plan), Names(state)) {
      assert a == b;
    }
  }

  /** No new table is needed exactly when the set of column names stays the same and no default value
      disappears. */
  lemma NoReplacement(plan: seq<Column>, state: seq<Column>)
    requires Distinct(Names(plan)) && Distinct(Names(state))
    ensures !ReplaceRequired(plan, state) <==>
            SameNames(Names(plan), Names(state)) &&
            forall i, k | 0 <= i < |state| && 0 <= k < |plan| && state[i].name == plan[k].name ::
              state[i].defaultValue.Known? ==> plan[k].defaultValue.Known?
  {
    KeepsNames(plan, state);
    PlannedHolds(plan);
    if SameNames(Names(plan), Names(state)) {
      forall i | 0 <= i < |state| ensures exists k :: 0 <= k < |plan| && plan[k].name == state[i].name {
        assert Names(state)[i] in Names(plan);
        var k :| 0 <= k < |plan| && Names(plan)[k] == state[i].name;
        assert plan[k].name == state[i].name;
      }
    }
  }

  /** The table after the whole diff: the columns of the state brought up to date, in the planned order. */
  lemma DiffEnds(plan: seq<Column>, state: seq<Column>) returns (u: Table)
    requires forall c :: c in plan + state ==> Settled(c)
    requires Distinct(Names(plan)) && Distinct(Names(state)) && !ReplaceRequired(plan, state)
    ensures forall c :: c in state ==>
              Settled(c) && c.name in PlannedByName(plan) && Settled(PlannedByName(plan)[c.name])
    ensures u == Table(Names(plan), UpdatedAll(AttributeMap(state), PlannedByName(plan), state))
    ensures AllRequests(plan, state).Some?
    ensures ExecuteAll(TableOf(state), AllRequests(plan, state).value) == Some(u)
  {
    hide ExecuteAll, AttributeRequests, PositionRequests, UpdatedAll, AttributeMap, PlannedByName, Shows, Settled,
      ReplaceRequired, Distinct, AttributesOf, DefaultLiteral, Parse;
    var t := TableOf(state);
    var planned := PlannedByName(plan);
    PlannedHolds(plan);
    NamesIn(plan);
    NamesIn(state);
    NoReplacement(plan, state);
    AttributeMapHolds(state);
    SettledPlan(plan, state);
    AttributesExecute(t, planned, state, |state|);
    assert state[..|state|] == state;
    UpdatedKeys(t.attributes, planned, state);
    var v := t.(attributes := UpdatedAll(t.attributes, planned, state));
    PositionsReachPlan(v, Names(plan));
    u := v.(order := Names(plan));
    ExecuteTwo(t, AttributeRequests(planned, state).value, v, PositionRequests(Names(plan), Names(state)), u);
  }

  /** Executing the whole column diff on the table of the state is accepted request by request and yields
      the planned columns: their names and order, and of each the canonical type, the comment, the
      nullability and the default text. auto_increment keeps its value. */
  lemma ColumnDiffReachesPlan(plan: seq<Column>, state: seq<Column>)
    requires forall c :: c in plan + state ==> Settled(c)
    requires Distinct(Names(plan)) && Distinct(Names(state)) && !ReplaceRequired(plan, state)
    ensures AllRequests(plan, state).Some?
    ensures var result := ExecuteAll(TableOf(state), AllRequests(plan, state).value);
            && result.Some?
            && result.value.order == Names(plan)
            && (forall c | c in plan ::
                  c.name in result.value.attributes && c.name in TableOf(state).attributes &&
                  Shows(result.value.attributes[c.name], c) &&
                  result.value.attributes[c.name].autoIncrement == TableOf(state).attributes[c.name].autoIncrement)
            && (forall k :: k in result.value.attributes ==> k in Names(plan))
  {
    hide ExecuteAll, AttributeRequests, PositionRequests, UpdatedAll, AttributeMap, PlannedByName, Shows, Settled,
      ReplaceRequired, Distinct, AttributesOf, DefaultLiteral, Parse;
    var t := TableOf(state);
    var planned := PlannedByName(plan);
    PlannedHolds(plan);
    NamesIn(plan);
    NamesIn(state);
    NoReplacement(plan, state);
    AttributeMapHolds(state);
    SettledPlan(plan, state);
    UpdatedKeys(t.attributes, planned, state);
    var u := DiffEnds(plan, state);
    forall c | c in plan
      ensures c.name in u.attributes && c.name in t.attributes && Shows(u.attributes[c.name], c) &&
              u.attributes[c.name].autoIncrement == t.attributes[c.name].autoIncrement
    {
      assert c in plan + state;
      ColumnUpdated(t.attributes, planned, state, c);
    }
  }

  /** Every column of the state has its planned counterpart. */
  lemma SettledPlan(plan: seq<Column>, state: seq<Column>)
    requires forall c :: c in plan + state ==> Settled(c)
    requires Distinct(Names(plan)) && SameNames(Names(plan), Names(state))
    ensures forall c :: c in state ==>
              Settled(c) && c.name in PlannedByName(plan) && PlannedByName(plan)[c.name] in plan &&
              PlannedByName(plan)[c.name].name == c.name && Settled(PlannedByName(plan)[c.name])
  {
    NamesIn(state);
    forall c | c in state
      ensures Settled(c) && c.name in PlannedByName(plan) && PlannedByName(plan)[c.name] in plan &&
              PlannedByName(plan)[c.name].name == c.name && Settled(PlannedByName(plan)[c.name])
    {
      PlannedColumn(plan, c.name);
      assert c in plan + state && PlannedByName(plan)[c.name] in plan + state;
    }
  }

  lemma ColumnUpdated(attributes: map<string, Attributes>, planned: map<string, Column>, state: seq<Column>, c: Column)
    requires forall d :: d in state ==> Settled(d) && d.name in planned && Settled(planned[d.name])
    requires Distinct(Names(state)) && c.name in Names(state) && c.name in planned && planned[c.name] == c && Settled(c)
    requires forall d :: d in state ==> d.name in attributes && attributes[d.name] == AttributesOf(d)
    ensures var u := UpdatedAll(attributes, planned, state);
            c.name in u && c.name in attributes && Shows(u[c.name], c) &&
            u[c.name].autoIncrement == attributes[c.name].autoIncrement
  {
    hide Updated, Shows;
    var i :| 0 <= i < |state| && Names(state)[i] == c.name;
    assert state[i] in state;
    UpdatedAt(attributes, planned, state, i);
    UpdatedShows(c, state[i]);
  }

  // ----- Nothing to do -----

  /** The plan asks nothing new of a column. */
  predicate Agrees(desired: Column, current: Column)
    requires Settled(desired) && Settled(current)
  {
    String(Parse(desired.typ).value) == String(Parse(current.typ).value) && desired.comment == current.comment &&
    desired.nullable == current.nullable && desired.defaultValue == current.defaultValue
  }

  lemma NoColumnRequests(desired: Column, current: Column)
    requires Settled(desired) && Settled(current)
    ensures ColumnRequests(desired, current).Some?
    ensures ColumnRequests(desired, current).value == [] <==> Agrees(desired, current)
  {
    hide Parse, String;
  }

  lemma {:induction false} NoAttributeRequests(planned: map<string, Column>, state: seq<Column>)
    requires forall c :: c in state ==> Settled(c) && c.name in planned && Settled(planned[c.name])
    ensures AttributeRequests(planned, state).Some?
    ensures AttributeRequests(planned, state).value == [] <==>
            forall c :: c in state ==> Agrees(planned[c.name], c)
  {
    hide Settled, Agrees, ColumnRequests;
    if state != [] {
      var n := |state| - 1;
      assert state == state[..n] + [state[n]];
      NoAttributeRequests(planned, state[..n]);
      NoColumnRequests(planned[state[n].name], state[n]);
    }
  }

  /** The list is empty exactly when order, canonical types, comments, nullability and defaults already
      agree. */
  lemma EmptyExactlyWhenAgreed(plan: seq<Column>, state: seq<Column>)
    requires forall c :: c in plan + state ==> Settled(c)
    requires Distinct(Names(plan)) && Distinct(Names(state)) && SameNames(Names(plan), Names(state))
    ensures AllRequests(plan, state) == Some([]) <==>
            Names(plan) == Names(state) &&
            forall i :: 0 <= i < |state| && i < |plan| ==>
              Settled(plan[i]) && Settled(state[i]) && Agrees(plan[i], state[i])
  {
    var planned := PlannedByName(plan);
    SettledPlan(plan, state);
    NoAttributeRequests(planned, state);
    NoPositionRequests(Names(plan), Names(state));
    if Names(plan) == Names(state) {
      assert |plan| == |Names(plan)| == |state|;
      PlannedHolds(plan);
      forall i | 0 <= i < |state|
        ensures planned[state[i].name] == plan[i] && plan[i] in plan + state && state[i] in plan + state
      {
        assert Names(plan)[i] == Names(state)[i];
        assert state[i] in state;
        assert (plan + state)[i] == plan[i] && (plan + state)[|plan| + i] == state[i];
      }
    }
  }

  lemma NoPositionRequests(plan: seq<string>, state: seq<string>)
    requires SameNames(plan, state)
    ensures PositionRequests(plan, state) == [] <==> plan == state
  {
    assert state != [] ==> state[0] in state;
  }
}
