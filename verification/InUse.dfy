/** The in-use lifecycle of catalogs and metalakes: Update and Delete against a server whose requests can
    fail at any point, with or without having taken effect. */
module InUse {
  import opened Common
  import opened Properties

  datatype Kind = Catalog | Metalake

  /** The keys the property diff leaves out: a catalog relies on the validator of its schema. */
  function DiffReserved(kind: Kind): set<string> {
    if kind.Catalog? then {} else METALAKE_RESERVED
  }

  /** The keys that are not adopted from the server. */
  function AdoptReserved(kind: Kind): set<string> {
    if kind.Catalog? then {"in-use"} else METALAKE_RESERVED
  }

  datatype Model = Model(
    name: string,
    comment: TF<string>,
    properties: TF<PropertyMap>,
    inUse: TF<bool>,
    forceDestroy: TF<bool>)

  /** How a request ended for the caller. A failed request may have taken effect or not. */
  datatype Outcome = Accepted | NotFound | Failed

  /** The content of one PUT: the update requests of the diff. */
  datatype Changes = Changes(rename: Option<string>, comment: Option<string>, properties: seq<Request>)

  predicate Nonempty(c: Changes) {
    c.rename.Some? || c.comment.Some? || c.properties != []
  }

  /** A request as the server saw it, with the in-use flag at that moment. */
  datatype Event =
    | Patched(target: string, value: bool, outcome: Outcome)
    | Updated(target: string, enabled: bool, outcome: Outcome)
    | Dropped(target: string, force: bool, enabled: bool, outcome: Outcome)

  // ----- The server -----

  class Server {
    var present: bool
    var name: string
    var comment: string
    var properties: PropertyMap
    var inUse: bool
    ghost var log: seq<Event>

    constructor (name: string, comment: string, properties: PropertyMap, inUse: bool)
      ensures present && this.name == name && this.comment == comment && this.properties == properties
      ensures this.inUse == inUse && log == []
    {
      present, this.name, this.comment, this.properties := true, name, comment, properties;
      this.inUse, log := inUse, [];
    }

    predicate Knows(target: string)
      reads this
    {
      present && name == target
    }

    /** PATCH of the in-use flag. */
    method Patch(target: string, value: bool) returns (o: Outcome)
      modifies this`inUse, this`log
      ensures log == old(log) + [Patched(target, value, o)]
      ensures o.NotFound? ==> !Knows(target)
      ensures o.Accepted? ==> Knows(target) && inUse == value
      ensures !o.Accepted? ==> inUse == old(inUse) || (o.Failed? && Knows(target) && inUse == value)
    {
      o := Failed;
      var reaches: bool, answers: bool := *, *;
      if reaches {
        if !Knows(target) {
          o := if answers then NotFound else Failed;
        } else {
          inUse := value;
          o := if answers then Accepted else Failed;
        }
      }
      log := log + [Patched(target, value, o)];
    }

    ghost predicate Applied(c: Changes, name: string, comment: string, properties: PropertyMap)
      reads this
    {
      this.name == (if c.rename.Some? then c.rename.value else name) &&
      this.comment == (if c.comment.Some? then c.comment.value else comment) &&
      ExecuteAll(properties, c.properties) == Some(this.properties)
    }

    /** PUT of a list of changes: all of them or none. A disabled object refuses it. */
    method Put(target: string, c: Changes) returns (o: Outcome)
      modifies this`name, this`comment, this`properties, this`log
      ensures log == old(log) + [Updated(target, inUse, o)]
      ensures o.Accepted? ==>
                old(Knows(target)) && inUse && Applied(c, old(name), old(comment), old(properties))
      ensures !o.Accepted? ==>
                || (name == old(name) && comment == old(comment) && properties == old(properties))
                || (old(Knows(target)) && inUse && Applied(c, old(name), old(comment), old(properties)))
    {
      o := Failed;
      var reaches: bool, answers: bool := *, *;
      if reaches {
        var result := ExecuteAll(properties, c.properties);
        if !Knows(target) {
          o := if answers then NotFound else Failed;
        } else if inUse && result.Some? {
          name := if c.rename.Some? then c.rename.value else name;
          comment := if c.comment.Some? then c.comment.value else comment;
          properties := result.value;
          o := if answers then Accepted else Failed;
        }
      }
      log := log + [Updated(target, inUse, o)];
    }

    /** DELETE: refused while the object is in use or not empty, unless forced. An absent object is answered
        as not found, or accepted with nothing dropped. */
    method Drop(target: string, force: bool) returns (o: Outcome)
      modifies this`present, this`log
      ensures log == old(log) + [Dropped(target, force, inUse, o)]
      ensures !o.Failed? ==> !Knows(target)
      ensures o.NotFound? ==> !old(Knows(target))
      ensures present ==> old(present)
      ensures old(present) && !present ==> old(Knows(target)) && (force || !inUse)
    {
      o := Failed;
      var reaches: bool, answers: bool, empty: bool := *, *, *;
      if reaches {
        if !Knows(target) {
          var quiet: bool := *;
          o := if !answers then Failed else if quiet then Accepted else NotFound;
        } else if force || (!inUse && empty) {
          present := false;
          o := if answers then Accepted else Failed;
        }
      }
      log := log + [Dropped(target, force, inUse, o)];
    }
  }

  function KnownProperties(p: TF<PropertyMap>): PropertyMap {
    if p.Known? then p.value else map[]
  }

  /** The server holds what the state records, and the state knows what it records. */
  predicate Recorded(server: Server, state: Model, kind: Kind)
    reads server
  {
    server.Knows(state.name) && server.comment == ValueString(state.comment) &&
    !state.comment.Unknown? && !state.properties.Unknown? &&
    state.inUse == Known(server.inUse) &&
    Holds(server.properties, KnownProperties(state.properties), DiffReserved(kind))
  }

  // ----- Update -----

  /** The log went on, and none of the PUTs since then met a disabled object. */
  ghost predicate SafePuts(before: seq<Event>, after: seq<Event>) {
    before <= after && forall i :: |before| <= i < |after| && after[i].Updated? ==> after[i].enabled
  }

  lemma NoPuts(log: seq<Event>)
    ensures SafePuts(log, log)
  {
  }

  lemma SafePatch(before: seq<Event>, after: seq<Event>, e: Event)
    requires SafePuts(before, after) && !e.Updated?
    ensures SafePuts(before, after + [e])
  {
  }

  lemma SafeJoin(a: seq<Event>, b: seq<Event>, c: seq<Event>)
    requires SafePuts(a, b) && SafePuts(b, c)
    ensures SafePuts(a, c)
  {
    assert forall i :: 0 <= i < |b| ==> b[i] == c[i];
  }

  /** An update ends with a new state, or with the diagnostic of the step that failed; a failed PUT also
      with the outcome of the attempt to restore the flag, if there was one. */
  datatype UpdateResult =
    | Done(model: Model)
    | EnablingFailed
    | UpdatingFailed(restore: Option<Outcome>)
    | DisablingFailed

  /** The planned flag, taken from the state when the plan does not know it. */
  function PlannedInUse(plan: Model, state: Model): TF<bool> {
    if plan.inUse.Unknown? then state.inUse else plan.inUse
  }

  function ForceDestroy(plan: TF<bool>, state: TF<bool>): TF<bool> {
    if plan.Known? then plan else if state.Known? then state else Known(false)
  }

  /** Whether the plan asks for anything that takes a PUT. */
  predicate Alters(kind: Kind, plan: Model, state: Model) {
    plan.name != state.name || (!plan.comment.Unknown? && plan.comment != state.comment) ||
    (!plan.properties.Unknown? &&
     KnownProperties(plan.properties) - DiffReserved(kind) != KnownProperties(state.properties) - DiffReserved(kind))
  }

  method Diff(kind: Kind, plan: Model, state: Model) returns (c: Changes)
    ensures c.rename == (if plan.name != state.name then Some(plan.name) else None)
    ensures c.comment == (if !plan.comment.Unknown? && plan.comment != state.comment
                          then Some(ValueString(plan.comment)) else None)
    ensures plan.properties.Unknown? ==> c.properties == []
    ensures !plan.properties.Unknown? ==>
              IsDiff(c.properties, KnownProperties(plan.properties), KnownProperties(state.properties),
                     DiffReserved(kind))
    ensures Nonempty(c) <==> Alters(kind, plan, state)
  {
    var rename := if plan.name != state.name then Some(plan.name) else None;
    var comment := if !plan.comment.Unknown? && plan.comment != state.comment then Some(ValueString(plan.comment))
                   else None;
    var requests := [];
    if !plan.properties.Unknown? {
      var planned, current := KnownProperties(plan.properties), KnownProperties(state.properties);
      if kind.Catalog? {
        requests := PlannedThenDropped(planned, current, {});
      } else {
        requests := CurrentThenNew(planned, current, METALAKE_RESERVED);
      }
      EmptyExactlyWhenEqual(planned, current, DiffReserved(kind), requests);
    }
    c := Changes(rename, comment, requests);
  }

  /** Where the properties of the server end. */
  function Reached(kind: Kind, plan: Model, state: Model, server: PropertyMap): PropertyMap {
    if plan.properties.Unknown? then server
    else Target(server, KnownProperties(plan.properties), KnownProperties(state.properties), DiffReserved(kind))
  }

  lemma DiffReaches(kind: Kind, plan: Model, state: Model, server: PropertyMap, rs: seq<Request>)
    requires Holds(server, KnownProperties(state.properties), DiffReserved(kind))
    requires plan.properties.Unknown? ==> rs == []
    requires !plan.properties.Unknown? ==>
               IsDiff(rs, KnownProperties(plan.properties), KnownProperties(state.properties), DiffReserved(kind))
    ensures ExecuteAll(server, rs) == Some(Reached(kind, plan, state, server))
  {
    hide IsDiff, Target;
    if !plan.properties.Unknown? {
      DiffReachesTarget(server, KnownProperties(plan.properties), KnownProperties(state.properties),
                        DiffReserved(kind), rs);
    }
  }

  lemma NothingReached(kind: Kind, plan: Model, state: Model, server: PropertyMap)
    requires Holds(server, KnownProperties(state.properties), DiffReserved(kind)) && !Alters(kind, plan, state)
    ensures Reached(kind, plan, state, server) == server
  {
    if !plan.properties.Unknown? {
      var planned, current := KnownProperties(plan.properties), KnownProperties(state.properties);
      var reserved := DiffReserved(kind);
      forall k | k !in reserved
        ensures (k in planned <==> k in current) && (k in planned ==> planned[k] == current[k])
      {
        assert k in planned - reserved <==> k in current - reserved;
        assert k in planned ==> (planned - reserved)[k] == (current - reserved)[k];
      }
    }
  }

  /** commentFromServer of a metalake; a catalog takes the server's comment as it is. */
  function AdoptComment(kind: Kind, server: string, planned: TF<string>): TF<string> {
    if kind.Catalog? || server != "" then Known(server)
    else if planned.Known? then planned
    else Null
  }

  /** setStateFromCatalog and metalakeToState with an answer of the server. */
  method AdoptServer(kind: Kind, server: Server, plan: Model) returns (model: Model)
    ensures model.name == server.name && model.comment == AdoptComment(kind, server.comment, plan.comment)
    ensures model.properties == Merge(plan.properties, server.properties, AdoptReserved(kind))
    ensures model.inUse == if plan.inUse.Null? then Known(true) else plan.inUse
    ensures model.forceDestroy == if plan.forceDestroy.Null? then Known(false) else plan.forceDestroy
  {
    var merged := MergeProperties(plan.properties, server.properties, AdoptReserved(kind));
    model := Model(
      server.name,
      AdoptComment(kind, server.comment, plan.comment),
      merged,
      if plan.inUse.Null? then Known(true) else plan.inUse,
      if plan.forceDestroy.Null? then Known(false) else plan.forceDestroy);
  }

  /** What is shown for the properties is what the server holds. */
  lemma MergedHold(kind: Kind, plan: Model, state: Model, server: PropertyMap)
    requires Holds(server, KnownProperties(state.properties), DiffReserved(kind))
    ensures var reached := Reached(kind, plan, state, server);
            var merged := Merge(plan.properties, reached, AdoptReserved(kind));
            Holds(reached, KnownProperties(merged), DiffReserved(kind)) &&
            (plan.properties.Known? && plan.properties.value.Keys !! DiffReserved(kind) ==> merged == plan.properties)
  {
    var reached := Reached(kind, plan, state, server);
    if plan.properties.Known? && plan.properties.value.Keys !! DiffReserved(kind) {
      assert forall k :: k in plan.properties.value ==> k in reached && reached[k] == plan.properties.value[k];
      MergeKeepsPlan(plan.properties.value, reached, AdoptReserved(kind));
    }
  }

  /** Without a PUT the planned properties are those the server holds already. */
  lemma UnalteredHolds(kind: Kind, plan: Model, state: Model, server: PropertyMap)
    requires Holds(server, KnownProperties(state.properties), DiffReserved(kind)) && !Alters(kind, plan, state)
    ensures Holds(server, KnownProperties(plan.properties), DiffReserved(kind)) &&
            Holds(server, map[], DiffReserved(kind))
    ensures Merge(plan.properties, map[], AdoptReserved(kind)) ==
            if plan.properties.Known? then plan.properties else Null
  {
    if !plan.properties.Unknown? {
      var planned, current := KnownProperties(plan.properties), KnownProperties(state.properties);
      var reserved := DiffReserved(kind);
      forall k | k in planned && k !in reserved ensures k in current && planned[k] == current[k] {
        assert k in planned - reserved && (planned - reserved)[k] == (current - reserved)[k];
      }
    }
    var nothing: PropertyMap := map[];
    if plan.properties.Known? {
      MergeKeepsPlan(plan.properties.value, nothing, AdoptReserved(kind));
    } else {
      assert nothing - AdoptReserved(kind) == nothing;
    }
  }

  /** How the PUT of an update ended: with the model to record, or refused, with the outcome of the attempt
      to disable the object again. */
  datatype PutResult = Kept(model: Model) | Refused(restore: Option<Outcome>)

  /** The comment the server holds once the plan is applied. */
  function PlannedComment(plan: Model, server: string): string {
    if plan.comment.Unknown? then server else ValueString(plan.comment)
  }

  lemma CommentAdopted(kind: Kind, plan: Model, state: Model)
    ensures var comment := PlannedComment(plan, ValueString(state.comment));
            ValueString(AdoptComment(kind, comment, plan.comment)) == comment &&
            !AdoptComment(kind, comment, plan.comment).Unknown? &&
            (plan.comment.Known? ==> AdoptComment(kind, comment, plan.comment) == plan.comment)
  {
  }

  /** The middle of an update: the PUT, or the planned values as they are when there is nothing to send. */
  method SendChanges(kind: Kind, server: Server, plan: Model, state: Model, changes: Changes, temporarilyEnabled: bool)
    returns (r: PutResult)
    requires server.Knows(state.name) && server.comment == ValueString(state.comment)
    requires ExecuteAll(server.properties, changes.properties) == Some(Reached(kind, plan, state, server.properties))
    requires changes.rename == if plan.name != state.name then Some(plan.name) else None
    requires changes.comment == if !plan.comment.Unknown? && plan.comment != state.comment
                                then Some(ValueString(plan.comment)) else None
    requires if Nonempty(changes) then server.inUse else !temporarilyEnabled
    requires !Nonempty(changes) ==> Reached(kind, plan, state, server.properties) == server.properties
    modifies server
    ensures server.present && SafePuts(old(server.log), server.log)
    ensures r.Kept? ==>
              && server.name == plan.name == r.model.name && server.inUse == old(server.inUse)
              && server.comment == PlannedComment(plan, old(server.comment))
              && server.properties == Reached(kind, plan, state, old(server.properties))
    ensures r.Kept? ==>
              var held := if Nonempty(changes) then server.properties else map[];
              var merged := Merge(plan.properties, held, AdoptReserved(kind));
              r.model.properties == if Nonempty(changes) || kind.Catalog? then merged else plan.properties
    ensures r.Kept? ==>
              r.model.comment == if Nonempty(changes) then AdoptComment(kind, server.comment, plan.comment)
                                 else plan.comment
    ensures r.Kept? ==>
              r.model.inUse == if plan.inUse.Null? && (Nonempty(changes) || kind.Catalog?) then Known(true)
                               else plan.inUse
    ensures r.Kept? ==>
              r.model.forceDestroy ==
              if plan.forceDestroy.Null? && Nonempty(changes) then Known(false) else plan.forceDestroy
    ensures r.Kept? ==>
              server.log == old(server.log) + if Nonempty(changes) then [Updated(state.name, true, Accepted)] else []
    ensures r.Refused? ==> Nonempty(changes) && (r.restore.Some? <==> temporarilyEnabled)
    ensures r.Refused? && r.restore.None? ==> server.inUse
    ensures r.Refused? && r.restore == Some(Accepted) ==> !server.inUse && server.name == state.name
  {
    hide ExecuteAll, Reached, Merge, AdoptReserved, AdoptComment;
    if Nonempty(changes) {
      var o := server.Put(state.name, changes);
      if !o.Accepted? {
        if temporarilyEnabled {
          var restore := server.Patch(state.name, false);
          return Refused(Some(restore));
        }
        return Refused(None);
      }
      var model := AdoptServer(kind, server, plan);
      return Kept(model);
    }
    if kind.Catalog? {
      var merged := MergeProperties(plan.properties, map[], AdoptReserved(kind));
      return Kept(plan.(properties := merged, inUse := if plan.inUse.Null? then Known(true) else plan.inUse));
    }
    r := Kept(plan);
  }

  lemma MergeKnows(plan: TF<PropertyMap>, server: PropertyMap, reserved: set<string>)
    ensures !Merge(plan, server, reserved).Unknown?
  {
  }

  /** The recorded properties and comment after a successful update. */
  lemma RecordsServer(kind: Kind, plan: Model, state: Model, server: PropertyMap, model: Model, sent: bool)
    requires Holds(server, KnownProperties(state.properties), DiffReserved(kind))
    requires sent <==> Alters(kind, plan, state)
    requires var reached := Reached(kind, plan, state, server);
             var merged := Merge(plan.properties, if sent then reached else map[], AdoptReserved(kind));
             model.properties == if sent || kind.Catalog? then merged else plan.properties
    requires var comment := PlannedComment(plan, ValueString(state.comment));
             model.comment == if sent then AdoptComment(kind, comment, plan.comment) else plan.comment
    ensures Holds(Reached(kind, plan, state, server), KnownProperties(model.properties), DiffReserved(kind))
    ensures plan.properties.Known? && plan.properties.value.Keys !! DiffReserved(kind) ==>
              model.properties == plan.properties
    ensures plan.comment.Known? ==> model.comment == plan.comment
    ensures model.comment.Unknown? <==> plan.comment.Unknown? && !sent
    ensures model.properties.Unknown? <==> plan.properties.Unknown? && !sent && kind.Metalake?
    ensures !model.comment.Unknown? ==> ValueString(model.comment) == PlannedComment(plan, ValueString(state.comment))
  {
    MergeKnows(plan.properties, if sent then Reached(kind, plan, state, server) else map[], AdoptReserved(kind));
    hide Holds, Reached, Merge, AdoptReserved, DiffReserved, AdoptComment, Alters;
    CommentAdopted(kind, plan, state);
    if sent {
      MergedHold(kind, plan, state, server);
    } else {
      NothingReached(kind, plan, state, server);
      UnalteredHolds(kind, plan, state, server);
    }
  }

  /** The metadata part of an update: altered, perhaps inside of a temporary enable, or stopped by the step
      that failed. */
  datatype AlterResult =
    | Altered(model: Model, temporarilyEnabled: bool)
    | NotEnabled
    | Unaltered(restore: Option<Outcome>)

  /** The metadata part of an update. A disabled object is enabled for the PUT; the model to record agrees with
      the server. */
  method Alter(kind: Kind, server: Server, plan: Model, state: Model, inUseChanged: bool) returns (r: AlterResult)
    requires server.Knows(state.name) && server.comment == ValueString(state.comment)
    requires Holds(server.properties, KnownProperties(state.properties), DiffReserved(kind))
    requires inUseChanged || ValueBool(plan.inUse) ==> server.inUse
    modifies server
    ensures server.present && SafePuts(old(server.log), server.log)
    ensures r.NotEnabled? ==>
              server.name == state.name && server.comment == old(server.comment) &&
              server.properties == old(server.properties)
    ensures r.Unaltered? ==> (r.restore.None? <==> inUseChanged || ValueBool(plan.inUse))
    ensures r.Unaltered? && r.restore.None? ==> server.inUse
    ensures r.Unaltered? && r.restore == Some(Accepted) ==> !server.inUse && server.name == state.name
    ensures r.Altered? ==>
              && server.name == plan.name == r.model.name
              && server.comment == PlannedComment(plan, old(server.comment))
              && server.properties == Reached(kind, plan, state, old(server.properties))
              && r.temporarilyEnabled == (!inUseChanged && !ValueBool(plan.inUse) && Alters(kind, plan, state))
              && server.inUse == (old(server.inUse) || r.temporarilyEnabled)
    ensures r.Altered? ==> Holds(server.properties, KnownProperties(r.model.properties), DiffReserved(kind))
    ensures r.Altered? && plan.properties.Known? && plan.properties.value.Keys !! DiffReserved(kind) ==>
              r.model.properties == plan.properties
    ensures r.Altered? && plan.comment.Known? ==> r.model.comment == plan.comment
    ensures r.Altered? ==> (r.model.comment.Unknown? <==> plan.comment.Unknown? && !Alters(kind, plan, state))
    ensures r.Altered? ==>
              (r.model.properties.Unknown? <==>
                 plan.properties.Unknown? && !Alters(kind, plan, state) && kind.Metalake?)
    ensures r.Altered? && !r.model.comment.Unknown? ==> server.comment == ValueString(r.model.comment)
    ensures r.Altered? && !plan.forceDestroy.Null? ==> r.model.forceDestroy == plan.forceDestroy
    ensures r.Altered? ==>
              server.log == old(server.log) +
                            (if r.temporarilyEnabled then [Patched(state.name, true, Accepted)] else []) +
                            (if Alters(kind, plan, state) then [Updated(state.name, true, Accepted)] else [])
    ensures r.Altered? ==>
              r.model.inUse ==
              if plan.inUse.Null? && (Alters(kind, plan, state) || kind.Catalog?) then Known(true) else plan.inUse
  {
    hide ExecuteAll, IsDiff, Merge, Holds, Reached, Alters, AdoptReserved, DiffReserved, KnownProperties, AdoptComment,
      Nonempty, SafePuts;
    ghost var start := server.log;
    NoPuts(start);
    var changes := Diff(kind, plan, state);
    var temporarilyEnabled := !inUseChanged && !ValueBool(plan.inUse) && Nonempty(changes);
    if temporarilyEnabled {
      var o := server.Patch(state.name, true);
      SafePatch(start, start, Patched(state.name, true, o));
      if !o.Accepted? {
        return NotEnabled;
      }
    }
    DiffReaches(kind, plan, state, server.properties, changes.properties);
    if !Nonempty(changes) {
      NothingReached(kind, plan, state, server.properties);
    }
    ghost var before, log := server.properties, server.log;
    var sent := SendChanges(kind, server, plan, state, changes, temporarilyEnabled);
    SafeJoin(start, log, server.log);
    if sent.Refused? {
      return Unaltered(sent.restore);
    }
    RecordsServer(kind, plan, state, before, sent.model, Nonempty(changes));
    r := Altered(sent.model, temporarilyEnabled);
  }

  /** The requests of a successful update: a PATCH that enables, if the plan does or something alters while the
      object is disabled and stays so; the PUT, if something alters; and a PATCH that disables, under the
      planned name, if the plan does or to take the first one back. */
  function Requests(plan: Model, state: Model, alters: bool): seq<Event> {
    var used := state.inUse == Known(true);
    var wanted := if plan.inUse.Unknown? then used else plan.inUse == Known(true);
    var untouched := plan.inUse.Null? || wanted == used;
    var enables := if untouched then !wanted && alters else wanted;
    var disables := if untouched then !wanted && alters else !wanted;
    (if enables then [Patched(state.name, true, Accepted)] else []) +
    (if alters then [Updated(state.name, true, Accepted)] else []) +
    (if disables then [Patched(plan.name, false, Accepted)] else [])
  }

  /** Update. No PUT ever meets a disabled object. Success leaves the server with the planned name,
      comment, properties and in-use flag, and the new state records exactly what the server holds, so that
      the next update starts where this one ended, unless the plan left a comment or properties unknown that
      no PUT resolved. A failed PUT after a temporary enable whose restore
      succeeds, and a failed PUT without one, leave the flag as it was, unless the plan itself enables. */
  method Update(kind: Kind, server: Server, plan: Model, state: Model) returns (r: UpdateResult)
    requires Recorded(server, state, kind)
    modifies server
    ensures server.present && SafePuts(old(server.log), server.log)
    ensures r.Done? ==>
              && server.name == plan.name == r.model.name
              && server.comment == (if plan.comment.Unknown? then old(server.comment) else ValueString(plan.comment))
              && server.properties == Reached(kind, plan, state, old(server.properties))
    ensures r.Done? && !plan.inUse.Null? ==>
              server.inUse == if plan.inUse.Known? then plan.inUse.value else old(server.inUse)
    ensures r.Done? ==>
              r.model.forceDestroy ==
              if plan.forceDestroy.Known? then plan.forceDestroy
              else if state.forceDestroy.Known? then state.forceDestroy
              else Known(false)
    ensures r.Done? ==> server.log == old(server.log) + Requests(plan, state, Alters(kind, plan, state))
    ensures r.Done? && plan.comment.Known? ==> r.model.comment == plan.comment
    ensures r.Done? && plan.properties.Known? && plan.properties.value.Keys !! DiffReserved(kind) ==>
              r.model.properties == plan.properties
    ensures r.Done? && !plan.inUse.Null? ==>
              (Recorded(server, r.model, kind) <==>
                 (plan.comment.Unknown? ==> Alters(kind, plan, state)) &&
                 (plan.properties.Unknown? ==> Alters(kind, plan, state) || kind.Catalog?))
    ensures r.Done? && plan.inUse.Null? ==>
              (r.model.inUse == Known(server.inUse) <==>
                 kind.Catalog? && old(server.inUse) && !Alters(kind, plan, state))
    ensures r.UpdatingFailed? && r.restore.None? ==> server.inUse == (plan.inUse == Known(true) || old(server.inUse))
    ensures r.UpdatingFailed? && r.restore == Some(Accepted) ==>
              server.inUse == (old(server.inUse) && !plan.inUse.Null?) && server.name == state.name
    ensures r.EnablingFailed? ==>
              server.name == state.name && server.comment == old(server.comment) &&
              server.properties == old(server.properties)
  {
    hide Holds, Reached, Alters, DiffReserved, ForceDestroy, KnownProperties, SafePuts, PlannedComment, Requests;
    ghost var start := server.log;
    NoPuts(start);
    var forceDestroy := ForceDestroy(plan.forceDestroy, state.forceDestroy);
    var model := plan.(inUse := PlannedInUse(plan, state), forceDestroy := forceDestroy);
    var inUseChanged := !model.inUse.Null? && model.inUse != state.inUse;
    SameChanges(kind, plan, model, state, server.properties);
    SameComment(plan, model, server.comment);
    Forced(plan.forceDestroy, state.forceDestroy);
    if inUseChanged && ValueBool(model.inUse) {
      var o := server.Patch(state.name, true);
      SafePatch(start, start, Patched(state.name, true, o));
      if !o.Accepted? {
        return EnablingFailed;
      }
    }
    ghost var log := server.log;
    var altered := Alter(kind, server, model, state, inUseChanged);
    SafeJoin(start, log, server.log);
    match altered
    case NotEnabled =>
      return EnablingFailed;
    case Unaltered(restore) =>
      return UpdatingFailed(restore);
    case Altered(resolved, temporarilyEnabled) =>
      model := resolved;
      ghost var sent := server.log;
      if (inUseChanged && !ValueBool(model.inUse)) || temporarilyEnabled {
        var o := server.Patch(model.name, false);
        SafePatch(start, sent, Patched(model.name, false, o));
        if !o.Accepted? {
          return DisablingFailed;
        }
      }
      RequestsJoin(plan, state, Alters(kind, plan, state), inUseChanged && ValueBool(PlannedInUse(plan, state)),
                   temporarilyEnabled, (inUseChanged && !ValueBool(model.inUse)) || temporarilyEnabled, start, log,
                   sent, server.log);
      return Done(model);
  }

  lemma SameComment(plan: Model, model: Model, comment: string)
    requires model.comment == plan.comment
    ensures PlannedComment(model, comment) == if plan.comment.Unknown? then comment else ValueString(plan.comment)
  {
  }

  /** The three parts of the log are the requests of a successful update. */
  lemma RequestsJoin(plan: Model, state: Model, alters: bool, enabled: bool, temporary: bool, disabled: bool,
                     a: seq<Event>, b: seq<Event>, c: seq<Event>, d: seq<Event>)
    requires !state.inUse.Null? && !state.inUse.Unknown?
    requires var inUse := PlannedInUse(plan, state);
             var changed := !inUse.Null? && inUse != state.inUse;
             && enabled == (changed && ValueBool(inUse))
             && temporary == (!changed && !ValueBool(inUse) && alters)
             && disabled == ((changed && !ValueBool(inUse)) || temporary)
    requires b == a + if enabled then [Patched(state.name, true, Accepted)] else []
    requires c == b + (if temporary then [Patched(state.name, true, Accepted)] else []) +
                  (if alters then [Updated(state.name, true, Accepted)] else [])
    requires d == c + if disabled then [Patched(plan.name, false, Accepted)] else []
    ensures d == a + Requests(plan, state, alters)
  {
    var on, off := [Patched(state.name, true, Accepted)], [Patched(plan.name, false, Accepted)];
    var first := if enabled || temporary then on else [];
    var put := if alters then [Updated(state.name, true, Accepted)] else [];
    var last := if disabled then off else [];
    var used := state.inUse == Known(true);
    var wanted := if plan.inUse.Unknown? then used else plan.inUse == Known(true);
    var untouched := plan.inUse.Null? || wanted == used;
    assert used == state.inUse.value;
    assert plan.inUse.Known? ==> wanted == plan.inUse.value;
    assert enabled || temporary <==> if untouched then !wanted && alters else wanted;
    assert disabled <==> if untouched then !wanted && alters else !wanted;
    assert Requests(plan, state, alters) == first + put + last;
    assert c == a + first + put;
    assert d == a + (first + put + last);
  }

  lemma Forced(plan: TF<bool>, state: TF<bool>)
    ensures ForceDestroy(plan, state) ==
            if plan.Known? then plan else if state.Known? then state else Known(false)
  {
  }

  /** The two flags have no part in the PUT. */
  lemma SameChanges(kind: Kind, plan: Model, model: Model, state: Model, server: PropertyMap)
    requires model == plan.(inUse := model.inUse, forceDestroy := model.forceDestroy)
    ensures Alters(kind, model, state) == Alters(kind, plan, state)
    ensures Reached(kind, model, state, server) == Reached(kind, plan, state, server)
  {
  }

  // ----- Key by key -----

  /** The keys Gravitino manages itself: a metalake leaves them out of its requests, a catalog does not. */
  predicate Managed(kind: Kind, k: string) {
    kind.Metalake? && (k == "in-use" || k == "gravitino.identifier")
  }

  /** Where a property of the server ends: planned ones at the plan, dropped ones gone, all others and managed
      ones untouched. */
  lemma ReachedAt(kind: Kind, plan: Model, state: Model, server: PropertyMap, k: string)
    requires Holds(server, KnownProperties(state.properties), DiffReserved(kind))
    ensures var reached := Reached(kind, plan, state, server);
            var planned := plan.properties.Known? && k in plan.properties.value;
            var recorded := state.properties.Known? && k in state.properties.value;
            if !plan.properties.Unknown? && !Managed(kind, k) && planned
            then k in reached && reached[k] == plan.properties.value[k]
            else if !plan.properties.Unknown? && !Managed(kind, k) && recorded then k !in reached
            else (k in reached <==> k in server) && (k in server ==> reached[k] == server[k])
  {
  }

  /** What an answer is recorded as without planned properties: everything the server has but the in-use key,
      and for a metalake its identifier; null if that is nothing. */
  lemma RecordedAt(kind: Kind, server: PropertyMap, k: string)
    ensures var recorded := Merge(Null, server, AdoptReserved(kind));
            && recorded != Known(map[]) && !recorded.Unknown?
            && (k in KnownProperties(recorded) <==>
                  k in server && k != "in-use" && !(kind.Metalake? && k == "gravitino.identifier"))
            && (k in KnownProperties(recorded) ==> KnownProperties(recorded)[k] == server[k])
  {
    assert k in server - AdoptReserved(kind) <==> k in server && k !in AdoptReserved(kind);
  }

  /** The comment recorded after a PUT: the one the server answers, but an empty one of a metalake gives way to a
      known planned one, and is null without one. */
  lemma CommentRecorded(kind: Kind, server: string, planned: TF<string>)
    ensures AdoptComment(kind, server, planned) ==
            if kind.Metalake? && server == "" && !planned.Known? then Null
            else if kind.Metalake? && server == "" then planned
            else Known(server)
  {
  }

  // ----- Delete -----

  datatype DeleteResult = Deleted | DisableFailed | DropFailed(restore: Option<Outcome>)

  /** Delete. A drop that is not forced only meets a disabled object, and a forced one is never preceded by
      a PATCH. A missing object at either step is success, and success means the object is gone. A refused
      drop whose restore succeeds, and one that needs none, leave the flag as recorded before the attempt. */
  method Delete(server: Server, state: Model) returns (r: DeleteResult)
    requires server.Knows(state.name) ==> state.inUse == Known(server.inUse)
    modifies server`present, server`inUse, server`log
    ensures old(server.log) <= server.log
    ensures forall i :: |old(server.log)| <= i < |server.log| && server.log[i].Dropped? ==>
              server.log[i].force == ValueBool(state.forceDestroy) && (server.log[i].force || !server.log[i].enabled)
    ensures ValueBool(state.forceDestroy) ==>
              forall i :: |old(server.log)| <= i < |server.log| ==> server.log[i].Dropped?
    ensures r.Deleted? ==> !server.Knows(state.name)
    ensures |old(server.log)| < |server.log|
    ensures var last := server.log[|server.log| - 1];
            r.Deleted? <==> (last.Dropped? && !last.outcome.Failed?) ||
                            (last.Patched? && !last.value && last.outcome.NotFound?)
    ensures r.DropFailed? && r.restore == Some(Accepted) ==> server.present && server.inUse == old(server.inUse)
    ensures r.DropFailed? && r.restore.None? ==> server.inUse == old(server.inUse)
  {
    var forceDestroy := ValueBool(state.forceDestroy);
    var disabled := false;
    if !forceDestroy {
      var o := server.Patch(state.name, false);
      if o.NotFound? {
        return Deleted;
      }
      if o.Failed? {
        return DisableFailed;
      }
      disabled := true;
    }
    var o := server.Drop(state.name, forceDestroy);
    if !o.Accepted? {
      if o.NotFound? {
        return Deleted;
      }
      if disabled && ValueBool(state.inUse) {
        var restore := server.Patch(state.name, true);
        return DropFailed(Some(restore));
      }
      return DropFailed(None);
    }
    r := Deleted;
  }
}
