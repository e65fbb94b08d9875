/** The diff of table columns into an ordered request list, and a server that executes it. */
module TableColumns {
  import opened Common
  import opened DataTypes

  datatype Column = Column(
    name: string,
    typ: string,
    comment: TF<string>,
    nullable: TF<bool>,
    autoIncrement: TF<bool>,
    defaultValue: TF<string>)

  datatype Literal = Literal(dataType: DataType, value: string)

  datatype Position = First | After(column: string)

  datatype Request =
    | UpdateType(name: string, newType: DataType)
    | UpdateComment(name: string, newComment: string)
    | UpdateNullability(name: string, nullable: bool)
    | UpdateDefault(name: string, newDefault: Option<Literal>)
    | UpdatePosition(name: string, position: Position)

  function Names(columns: seq<Column>): (r: seq<string>)
    ensures |r| == |columns| && forall i :: 0 <= i < |r| ==> r[i] == columns[i].name
  {
    seq(|columns|, i requires 0 <= i < |columns| => columns[i].name)
  }

  // ----- Positions -----

  function PositionOf(order: seq<string>, i: nat): Position
    requires i < |order|
  {
    if i == 0 then First else After(order[i - 1])
  }

  /** Every column after its predecessor, unless the order is right already. */
  function PositionRequests(plan: seq<string>, state: seq<string>): seq<Request> {
    if plan == state then []
    else seq(|plan|, i requires 0 <= i < |plan| => UpdatePosition(plan[i], PositionOf(plan, i)))
  }

  method ColumnNames(columns: seq<Column>) returns (order: seq<string>)
    ensures order == Names(columns)
  {
    order := [];
    for i := 0 to |columns|
      invariant order == Names(columns)[..i]
    {
      order := order + [columns[i].name];
    }
  }

  method TableColumnPositionUpdates(plan: seq<Column>, state: seq<Column>) returns (updates: seq<Request>)
    ensures updates == PositionRequests(Names(plan), Names(state))
  {
    var stateOrder := ColumnNames(state);
    var planOrder := ColumnNames(plan);
    updates := [];
    if stateOrder == planOrder {
      return;
    }
    for i := 0 to |planOrder|
      invariant updates == PositionRequests(planOrder, stateOrder)[..i]
    {
      if i == 0 {
        updates := updates + [UpdatePosition(planOrder[i], First)];
        continue;
      }
      updates := updates + [UpdatePosition(planOrder[i], After(planOrder[i - 1]))];
    }
  }

  // ----- Properties of one column -----

  /** ColumnDefaultValue: the default as a literal of the column type. */
  function DefaultLiteral(column: Column, dataType: DataType): Option<Literal> {
    if column.defaultValue.Known? then Some(Literal(dataType, column.defaultValue.value)) else None
  }

  function TypeRequests(desired: Column, current: Column, desiredType: DataType, currentType: DataType): seq<Request> {
    if String(desiredType) != String(currentType) then [UpdateType(current.name, desiredType)] else []
  }

  function CommentRequests(desired: Column, current: Column): seq<Request> {
    if desired.comment != current.comment then [UpdateComment(current.name, ValueString(desired.comment))] else []
  }

  function NullabilityRequests(desired: Column, current: Column): seq<Request> {
    if desired.nullable != current.nullable then [UpdateNullability(current.name, ValueBool(desired.nullable))] else []
  }

  function DefaultRequests(desired: Column, current: Column, desiredType: DataType): seq<Request> {
    if desired.defaultValue != current.defaultValue
    then [UpdateDefault(current.name, DefaultLiteral(desired, desiredType))]
    else []
  }

  /** The requests for one column; nothing when a type does not parse. */
  function ColumnRequests(desired: Column, current: Column): Option<seq<Request>> {
    var desiredType :- Parse(desired.typ);
    var currentType :- Parse(current.typ);
    Some(TypeRequests(desired, current, desiredType, currentType) + CommentRequests(desired, current) +
         NullabilityRequests(desired, current) + DefaultRequests(desired, current, desiredType))
  }

  /** The planned columns by name, the last one wins. */
  function PlannedByName(plan: seq<Column>): map<string, Column> {
    if plan == [] then map[]
    else PlannedByName(plan[..|plan| - 1])[plan[|plan| - 1].name := plan[|plan| - 1]]
  }

  function AttributeRequests(planned: map<string, Column>, state: seq<Column>): Option<seq<Request>> {
    if state == [] then Some([])
    else
      var n := |state| - 1;
      var before :- AttributeRequests(planned, state[..n]);
      if state[n].name in planned then
        var requests :- ColumnRequests(planned[state[n].name], state[n]);
        Some(before + requests)
      else Some(before)
  }

  function AllRequests(plan: seq<Column>, state: seq<Column>): Option<seq<Request>> {
    var attributes :- AttributeRequests(PlannedByName(plan), state);
    Some(attributes + PositionRequests(Names(plan), Names(state)))
  }

  lemma AttributeStep(planned: map<string, Column>, state: seq<Column>, i: nat)
    requires i < |state|
    ensures AttributeRequests(planned, state[..i + 1]) ==
            if AttributeRequests(planned, state[..i]).None? then None
            else if state[i].name !in planned then AttributeRequests(planned, state[..i])
            else if ColumnRequests(planned[state[i].name], state[i]).None? then None
            else Some(AttributeRequests(planned, state[..i]).value +
                      ColumnRequests(planned[state[i].name], state[i]).value)
  {
    assert state[..i + 1][..i] == state[..i];
  }

  /** A type that does not parse fails the whole diff. */
  lemma {:induction false} AttributeFailure(planned: map<string, Column>, state: seq<Column>, i: nat)
    requires i <= |state| && AttributeRequests(planned, state[..i]).None?
    ensures AttributeRequests(planned, state).None?
    decreases |state| - i
  {
    if i == |state| {
      assert state[..i] == state;
    } else {
      AttributeStep(planned, state, i);
      AttributeFailure(planned, state, i + 1);
    }
  }

  /** The body of the loop over the columns of the state. */
  method ColumnChanges(desired: Column, column: Column) returns (changes: Option<seq<Request>>)
    ensures changes == ColumnRequests(desired, column)
  {
    var desiredType := Parse(desired.typ);
    var currentType := Parse(column.typ);
    if desiredType.None? || currentType.None? {
      return None;
    }
    var updates := [];
    if String(desiredType.value) != String(currentType.value) {
      updates := updates + [UpdateType(column.name, desiredType.value)];
    }
    ghost var types := TypeRequests(desired, column, desiredType.value, currentType.value);
    assert updates == types;
    if desired.comment != column.comment {
      updates := updates + [UpdateComment(column.name, ValueString(desired.comment))];
    }
    ghost var comments := types + CommentRequests(desired, column);
    assert updates == comments;
    if desired.nullable != column.nullable {
      updates := updates + [UpdateNullability(column.name, ValueBool(desired.nullable))];
    }
    ghost var nullabilities := comments + NullabilityRequests(desired, column);
    assert updates == nullabilities;
    if desired.defaultValue != column.defaultValue {
      updates := updates + [UpdateDefault(column.name, DefaultLiteral(desired, desiredType.value))];
    }
    assert updates == nullabilities + DefaultRequests(desired, column, desiredType.value);
    changes := Some(updates);
  }

  method TableColumnUpdates(plan: seq<Column>, state: seq<Column>) returns (updates: Option<seq<Request>>)
    ensures updates == AllRequests(plan, state)
  {
    var planned := map[];
    for i := 0 to |plan|
      invariant planned == PlannedByName(plan[..i])
    {
      assert plan[..i + 1][..i] == plan[..i];
      planned := planned[plan[i].name := plan[i]];
    }
    assert plan[..|plan|] == plan;
    var requests := [];
    for i := 0 to |state|
      invariant AttributeRequests(planned, state[..i]) == Some(requests)
    {
      AttributeStep(planned, state, i);
      var column := state[i];
      var name := column.name;
      if name !in planned {
        continue;
      }
      var changes := ColumnChanges(planned[name], column);
      if changes.None? {
        AttributeFailure(planned, state, i + 1);
        return None;
      }
      requests := requests + changes.value;
    }
    assert state[..|state|] == state;
    var positions := TableColumnPositionUpdates(plan, state);
    updates := Some(requests + positions);
  }

  // ----- When a new table is needed -----

  /** The set of names changed, or a default value was removed. */
  predicate ReplaceRequired(plan: seq<Column>, state: seq<Column>) {
    var planned := PlannedByName(plan);
    |planned| != |state| ||
    exists i :: 0 <= i < |state| &&
      (state[i].name !in planned || (state[i].defaultValue.Known? && !planned[state[i].name].defaultValue.Known?))
  }

  method ColumnsReplaceRequired(plan: seq<Column>, state: seq<Column>) returns (required: bool)
    ensures required == ReplaceRequired(plan, state)
  {
    var planned := map[];
    for i := 0 to |plan|
      invariant planned == PlannedByName(plan[..i])
    {
      assert plan[..i + 1][..i] == plan[..i];
      planned := planned[plan[i].name := plan[i]];
    }
    assert plan[..|plan|] == plan;
    if |planned| != |state| {
      return true;
    }
    for i := 0 to |state|
      invariant forall k | 0 <= k < i ::
                  state[k].name in planned &&
                  (state[k].defaultValue.Known? ==> planned[state[k].name].defaultValue.Known?)
    {
      if state[i].name !in planned {
        return true;
      }
      if state[i].defaultValue.Known? && !planned[state[i].name].defaultValue.Known? {
        return true;
      }
    }
    required := false;
  }

  // ----- The server -----

  datatype Attributes = Attributes(
    dataType: DataType,
    comment: string,
    nullable: bool,
    autoIncrement: bool,
    default: Option<Literal>)

  /** The columns of a table: their order, and the attributes of each. */
  datatype Table = Table(order: seq<string>, attributes: map<string, Attributes>)

  function Without(order: seq<string>, name: string): seq<string> {
    if order == [] then []
    else if order[0] == name then Without(order[1..], name)
    else [order[0]] + Without(order[1..], name)
  }

  function InsertAfter(order: seq<string>, after: string, name: string): seq<string> {
    if order == [] then []
    else if order[0] == after then [order[0], name] + order[1..]
    else [order[0]] + InsertAfter(order[1..], after, name)
  }

  /** Moving a column to the front or directly behind another one; refused when a column is missing or a
      column is to follow itself. */
  function Move(order: seq<string>, name: string, position: Position): Option<seq<string>> {
    match position
    case First => if name in order then Some([name] + Without(order, name)) else None
    case After(other) =>
      if name in order && other in order && other != name then Some(InsertAfter(Without(order, name), other, name))
      else None
  }

  /** Executing one request; nothing when the server refuses it. A default value cannot be cleared. */
  function Execute(t: Table, r: Request): Option<Table> {
    if r.name !in t.attributes then None
    else
      var a := t.attributes[r.name];
      match r
      case UpdateType(name, newType) => Some(t.(attributes := t.attributes[name := a.(dataType := newType)]))
      case UpdateComment(name, comment) => Some(t.(attributes := t.attributes[name := a.(comment := comment)]))
      case UpdateNullability(name, nullable) => Some(t.(attributes := t.attributes[name := a.(nullable := nullable)]))
      case UpdateDefault(name, default) =>
        if default.None? then None else Some(t.(attributes := t.attributes[name := a.(default := default)]))
      case UpdatePosition(name, position) =>
        var order :- Move(t.order, name, position);
        Some(t.(order := order))
  }

  function ExecuteAll(t: Table, rs: seq<Request>): Option<Table> {
    if rs == [] then Some(t)
    else
      var n := |rs| - 1;
      var u :- ExecuteAll(t, rs[..n]);
      Execute(u, rs[n])
  }
}
