/** The token cache of the client-credentials provider, used by any number of goroutines at once: a clock,
    two mutexes and one step at a time of whichever goroutine the scheduler picks. */
module OAuth {
  import opened Common
  import opened Numbers

  // ----- How long a token is used -----

  /** The lifetime of a token in nanoseconds; an hour when the server's answer, multiplied out in 64 bits, is
      not positive. */
  function Lifetime(expiresIn: int): int {
    var duration := Wrap64(expiresIn * SECOND);
    if duration <= 0 then 3600 * SECOND else duration
  }

  /** Nine tenths of the lifetime. */
  function RefreshAfter(expiresIn: int): int {
    Lifetime(expiresIn) * 9 / 10
  }

  /** Whatever number the server sends, the token is used for a while and not for its whole lifetime: also a
      product that overflowed is a multiple of 512 nanoseconds. */
  lemma RefreshBeforeExpiry(expiresIn: int)
    ensures 0 < RefreshAfter(expiresIn) < Lifetime(expiresIn)
  {
    assert expiresIn * SECOND == 512 * (expiresIn * 1953125);
    WrapKeepsDivisor(expiresIn * SECOND);
  }

  // ----- The state -----

  /** Where a goroutine stands in Header and refresh. */
  datatype Place =
    | Idle        // not in Header
    | Check       // about to look at the cache
    | Wait        // about to lock refreshMu
    | Recheck     // holds refreshMu, about to look again
    | Request     // waits for the token endpoint
    | Store       // has a token, about to lock mu
    | Write       // holds mu, about to write the token
    | Written     // about to write the expiry
    | LeaveOk     // about to release refreshMu
    | LeaveErr    // about to release refreshMu and to fail
    | Read        // about to read the cached token

  /** A goroutine with its local variables: when the call began, when it last knew of a valid token, and the
      token it fetched. */
  datatype Thread = Thread(at: Place, called: int, seen: int, token: string, lifetime: int)

  /** What happens at the token endpoint: a request is sent, and refused or granted. */
  datatype Event =
    | Sent(time: int)
    | Denied(time: int)
    | Granted(time: int, token: string, expiry: int)

  /** A successful Header: the token, when the call began, when a valid token was last known, when the call
      ended, and until when the token is valid. */
  datatype Answer = Answer(token: string, called: int, seen: int, ended: int, expiry: int)

  datatype State = State(
    clock: int,
    token: string,
    expiry: int,
    mu: Option<nat>,
    refreshMu: Option<nat>,
    threads: seq<Thread>,
    events: seq<Event>,
    answers: seq<Answer>)

  datatype Grant = Grant(accessToken: string, expiresIn: int)

  /** The answer of the endpoint; no body when it is no JSON. */
  datatype Reply = Lost | Reply(status: int, body: Option<Grant>)

  function Accepted(r: Reply): Option<Grant> {
    if r.Reply? && r.status < 400 && r.body.Some? && r.body.value.accessToken != "" then r.body else None
  }

  // ----- The steps -----

  datatype Action =
    | Call | LookFirst | LockRefresh | LookAgain | Receive(reply: Reply) | LockWrite | WriteToken | WriteExpiry
    | Unlock | ReadToken

  datatype Step = Tick(elapsed: nat) | Act(thread: nat, action: Action)

  /** tokenValid. */
  predicate Valid(s: State) {
    s.token != "" && s.clock < s.expiry
  }

  function Move(s: State, t: nat, th: Thread): State
    requires t < |s.threads|
  {
    s.(threads := s.threads[t := th])
  }

  /** One step of one goroutine; nothing when it cannot take it now. Readers of the cache only need mu to be
      free of its writer. */
  function Take(s: State, t: nat, action: Action): Option<State>
    requires t < |s.threads|
  {
    var th := s.threads[t];
    match action
    case Call =>
      if th.at.Idle? then Some(Move(s, t, th.(at := Check, called := s.clock))) else None
    case LookFirst =>
      if th.at.Check? && s.mu.None? then
        Some(Move(s, t, if Valid(s) then th.(at := Read, seen := s.clock) else th.(at := Wait)))
      else None
    case LockRefresh =>
      if th.at.Wait? && s.refreshMu.None? then Some(Move(s, t, th.(at := Recheck)).(refreshMu := Some(t))) else None
    case LookAgain =>
      if th.at.Recheck? && s.mu.None? then
        Some(if Valid(s) then Move(s, t, th.(at := LeaveOk, seen := s.clock))
             else Move(s, t, th.(at := Request)).(events := s.events + [Sent(s.clock)]))
      else None
    case Receive(reply) =>
      if th.at.Request? then
        var grant := Accepted(reply);
        Some(if grant.Some? then
               Move(s, t, th.(at := Store, token := grant.value.accessToken,
                              lifetime := RefreshAfter(grant.value.expiresIn)))
             else Move(s, t, th.(at := LeaveErr)).(events := s.events + [Denied(s.clock)]))
      else None
    case LockWrite =>
      if th.at.Store? && s.mu.None? then Some(Move(s, t, th.(at := Write)).(mu := Some(t))) else None
    case WriteToken =>
      if th.at.Write? then Some(Move(s, t, th.(at := Written)).(token := th.token)) else None
    case WriteExpiry =>
      if th.at.Written? then
        var expiry := s.clock + th.lifetime;
        Some(Move(s, t, th.(at := LeaveOk, seen := s.clock))
             .(expiry := expiry, mu := None, events := s.events + [Granted(s.clock, th.token, expiry)]))
      else None
    case Unlock =>
      if th.at.LeaveOk? then Some(Move(s, t, th.(at := Read)).(refreshMu := None))
      else if th.at.LeaveErr? then Some(Move(s, t, th.(at := Idle)).(refreshMu := None))
      else None
    case ReadToken =>
      if th.at.Read? && s.mu.None? then
        var answer := Answer(s.token, th.called, th.seen, s.clock, s.expiry);
        Some(Move(s, t, th.(at := Idle)).(answers := s.answers + [answer]))
      else None
  }

  function Next(s: State, step: Step): Option<State> {
    match step
    case Tick(elapsed) => Some(s.(clock := s.clock + elapsed))
    case Act(t, action) => if t < |s.threads| then Take(s, t, action) else None
  }

  /** Nobody called yet; the zero expiry lies in the past. */
  predicate Initial(s: State) {
    s.token == "" && s.expiry <= s.clock && s.mu.None? && s.refreshMu.None? && s.events == [] && s.answers == [] &&
    forall t :: 0 <= t < |s.threads| ==> s.threads[t].at.Idle?
  }

  function Run(s: State, steps: seq<Step>): Option<State> {
    if steps == [] then Some(s)
    else
      var n := |steps| - 1;
      var r :- Run(s, steps[..n]);
      Next(r, steps[n])
  }

  // ----- What every run keeps -----

  predicate HoldsRefreshMu(p: Place) {
    p.Recheck? || p.LeaveOk? || p.LeaveErr? || Fetching(p)
  }

  predicate HoldsMu(p: Place) {
    p.Write? || p.Written?
  }

  /** A request was sent and its outcome is not recorded yet. */
  predicate Fetching(p: Place) {
    p.Request? || p.Store? || HoldsMu(p)
  }

  predicate Owns(owner: Option<nat>, t: nat) {
    owner == Some(t)
  }

  /** The mutexes are held exactly by the goroutines that stand between lock and unlock. */
  predicate Locks(s: State) {
    (s.refreshMu.Some? ==> s.refreshMu.value < |s.threads|) && (s.mu.Some? ==> s.mu.value < |s.threads|) &&
    forall t :: 0 <= t < |s.threads| ==>
      (HoldsRefreshMu(s.threads[t].at) <==> Owns(s.refreshMu, t)) && (HoldsMu(s.threads[t].at) <==> Owns(s.mu, t))
  }

  /** Requests do not overlap, and none is sent before every token granted so far has expired. */
  predicate History(events: seq<Event>, clock: int) {
    && (forall i :: 0 <= i < |events| ==> (events[i].Sent? <==> i % 2 == 0))
    && (forall i :: 0 <= i < |events| ==> events[i].time <= clock)
    && (forall i, k :: 0 <= i < k < |events| ==> events[i].time <= events[k].time)
    && (forall i, k :: 0 <= i < k < |events| && events[i].Granted? && events[k].Sent? ==>
          events[i].expiry <= events[k].time)
    && (forall i :: 0 <= i < |events| && events[i].Granted? ==>
          events[i].token != "" && events[i].time < events[i].expiry)
  }

  /** No token was granted for longer than until the given moment. */
  predicate ExpiresBy(events: seq<Event>, expiry: int) {
    forall i :: 0 <= i < |events| && events[i].Granted? ==> events[i].expiry <= expiry
  }

  /** The grant of a token, not later than a moment. */
  predicate IsGrant(e: Event, token: string, expiry: int, until: int) {
    e.Granted? && e.token == token && e.expiry == expiry && e.time <= until
  }

  predicate WasGranted(events: seq<Event>, token: string, expiry: int, until: int) {
    exists i :: 0 <= i < |events| && IsGrant(events[i], token, expiry, until)
  }

  /** The cache is what a grant made it, except between the two writes under mu; the latest expiry is cached. */
  predicate Cache(s: State) {
    && ExpiresBy(s.events, s.expiry)
    && (s.mu.None? && s.token != "" ==> WasGranted(s.events, s.token, s.expiry, s.clock))
    && (s.token == "" ==> s.expiry <= s.clock)
  }

  /** The local variables of a goroutine. */
  predicate Local(s: State, th: Thread) {
    && (!th.at.Idle? ==> th.called <= s.clock)
    && (Fetching(th.at) ==> |s.events| % 2 == 1 && s.expiry <= s.clock)
    && (Fetching(th.at) && !th.at.Request? ==> th.token != "" && th.lifetime > 0)
    && (th.at.Written? ==> s.token == th.token)
    && (th.at.LeaveOk? || th.at.Read? ==> th.called <= th.seen <= s.clock && th.seen < s.expiry && s.token != "")
  }

  predicate Locals(s: State) {
    forall t :: 0 <= t < |s.threads| ==> Local(s, s.threads[t])
  }

  /** Without a request under way every request has its outcome. */
  predicate Settled(s: State) {
    (forall t :: 0 <= t < |s.threads| ==> !Fetching(s.threads[t].at)) ==> |s.events| % 2 == 0
  }

  predicate Backed(events: seq<Event>, r: Answer) {
    r.token != "" && r.called <= r.seen <= r.ended && r.seen < r.expiry &&
    WasGranted(events, r.token, r.expiry, r.ended)
  }

  /** Every token that was handed out comes from a grant and was valid at some moment of its call. */
  predicate AllBacked(events: seq<Event>, answers: seq<Answer>) {
    forall i :: 0 <= i < |answers| ==> Backed(events, answers[i])
  }

  predicate Invariant(s: State) {
    Locks(s) && History(s.events, s.clock) && Cache(s) && Settled(s) && Locals(s) && AllBacked(s.events, s.answers)
  }

  // ----- Every step keeps it -----

  lemma InitialHolds(s: State)
    requires Initial(s)
    ensures Invariant(s)
  {
  }

  lemma TickKeeps(s: State, elapsed: nat)
    requires Invariant(s)
    ensures Invariant(s.(clock := s.clock + elapsed))
  {
  }

  /** A step that takes no lock, sends nothing and changes only the goroutine itself. */
  lemma MoveKeeps(s: State, t: nat, th: Thread)
    requires Invariant(s) && t < |s.threads| && Local(s, th)
    requires var p := s.threads[t].at;
             HoldsRefreshMu(p) == HoldsRefreshMu(th.at) && HoldsMu(p) == HoldsMu(th.at) &&
             Fetching(p) == Fetching(th.at)
    ensures Invariant(Move(s, t, th))
  {
    var s' := Move(s, t, th);
    hide History, WasGranted, AllBacked;
    if forall u :: 0 <= u < |s'.threads| ==> !Fetching(s'.threads[u].at) {
      assert forall u :: 0 <= u < |s.threads| ==> Fetching(s.threads[u].at) == Fetching(s'.threads[u].at);
    }
  }

  /** Only one goroutine at a time is between locking and unlocking. */
  lemma OneHolder(s: State, t: nat, u: nat)
    requires Locks(s) && t < |s.threads| && u < |s.threads|
    requires HoldsRefreshMu(s.threads[t].at) && HoldsRefreshMu(s.threads[u].at)
    ensures t == u
  {
  }

  lemma LockRefreshKeeps(s: State, t: nat)
    requires Invariant(s) && t < |s.threads| && Take(s, t, LockRefresh).Some?
    ensures Invariant(Take(s, t, LockRefresh).value)
  {
    hide History, WasGranted, AllBacked;
    var s' := Take(s, t, LockRefresh).value;
    assert forall u :: 0 <= u < |s.threads| ==> Fetching(s.threads[u].at) == Fetching(s'.threads[u].at);
  }

  lemma UnlockKeeps(s: State, t: nat)
    requires Invariant(s) && t < |s.threads| && Take(s, t, Unlock).Some?
    ensures Invariant(Take(s, t, Unlock).value)
  {
    hide History, WasGranted, AllBacked;
    var s' := Take(s, t, Unlock).value;
    assert forall u :: 0 <= u < |s.threads| ==> Fetching(s.threads[u].at) == Fetching(s'.threads[u].at);
  }

  lemma LockWriteKeeps(s: State, t: nat)
    requires Invariant(s) && t < |s.threads| && Take(s, t, LockWrite).Some?
    ensures Invariant(Take(s, t, LockWrite).value)
  {
    hide History, WasGranted, AllBacked;
    var s' := Take(s, t, LockWrite).value;
    assert forall u :: 0 <= u < |s.threads| ==> Fetching(s.threads[u].at) == Fetching(s'.threads[u].at);
  }

  lemma WriteTokenKeeps(s: State, t: nat)
    requires Invariant(s) && t < |s.threads| && Take(s, t, WriteToken).Some?
    ensures Invariant(Take(s, t, WriteToken).value)
  {
    hide History, WasGranted, AllBacked;
    var s' := Take(s, t, WriteToken).value;
    assert forall u :: 0 <= u < |s.threads| ==> Fetching(s.threads[u].at) == Fetching(s'.threads[u].at);
  }

  lemma ReadTokenKeeps(s: State, t: nat)
    requires Invariant(s) && t < |s.threads| && Take(s, t, ReadToken).Some?
    ensures Invariant(Take(s, t, ReadToken).value)
  {
    hide History, WasGranted;
    var th := s.threads[t];
    MoveKeeps(s, t, th.(at := Idle));
    assert Backed(s.events, Answer(s.token, th.called, th.seen, s.clock, s.expiry));
  }

  /** The log with one more entry. */
  lemma HistorySnoc(events: seq<Event>, clock: int, e: Event)
    requires History(events, clock) && e.time == clock && (e.Sent? <==> |events| % 2 == 0)
    requires e.Sent? ==> ExpiresBy(events, clock)
    requires e.Granted? ==> e.token != "" && clock < e.expiry
    ensures History(events + [e], clock)
  {
    var all := events + [e];
    assert forall i :: 0 <= i < |events| ==> all[i] == events[i];
  }

  lemma GrantedSnoc(events: seq<Event>, e: Event, token: string, expiry: int, until: int)
    ensures WasGranted(events, token, expiry, until) ==> WasGranted(events + [e], token, expiry, until)
    ensures e.Granted? ==> WasGranted(events + [e], e.token, e.expiry, e.time)
  {
    var all := events + [e];
    assert all[|events|] == e;
    assert forall i :: 0 <= i < |events| ==> all[i] == events[i];
  }

  lemma BackedSnoc(events: seq<Event>, e: Event, answers: seq<Answer>)
    requires AllBacked(events, answers)
    ensures AllBacked(events + [e], answers)
  {
    hide WasGranted;
    forall i | 0 <= i < |answers| ensures Backed(events + [e], answers[i]) {
      assert Backed(events, answers[i]);
      GrantedSnoc(events, e, answers[i].token, answers[i].expiry, answers[i].ended);
    }
  }

  lemma SendKeeps(s: State, t: nat)
    requires Invariant(s) && t < |s.threads| && Take(s, t, LookAgain).Some? && !Valid(s)
    ensures Invariant(Take(s, t, LookAgain).value)
  {
    hide History, WasGranted, AllBacked;
    var s' := Take(s, t, LookAgain).value;
    forall u | 0 <= u < |s.threads| ensures !Fetching(s.threads[u].at) {
      if Fetching(s.threads[u].at) {
        OneHolder(s, t, u);
      }
    }
    HistorySnoc(s.events, s.clock, Sent(s.clock));
    BackedSnoc(s.events, Sent(s.clock), s.answers);
    GrantedSnoc(s.events, Sent(s.clock), s.token, s.expiry, s.clock);
    assert Fetching(s'.threads[t].at);
  }

  lemma DeniedKeeps(s: State, t: nat, reply: Reply)
    requires Invariant(s) && t < |s.threads| && Take(s, t, Receive(reply)).Some? && Accepted(reply).None?
    ensures Invariant(Take(s, t, Receive(reply)).value)
  {
    hide History, WasGranted, AllBacked;
    var s' := Take(s, t, Receive(reply)).value;
    OnlyFetcher(s, t);
    HistorySnoc(s.events, s.clock, Denied(s.clock));
    BackedSnoc(s.events, Denied(s.clock), s.answers);
    GrantedSnoc(s.events, Denied(s.clock), s.token, s.expiry, s.clock);
  }

  lemma OnlyFetcher(s: State, t: nat)
    requires Locks(s) && t < |s.threads| && Fetching(s.threads[t].at)
    ensures forall u :: 0 <= u < |s.threads| && Fetching(s.threads[u].at) ==> u == t
  {
    forall u | 0 <= u < |s.threads| && Fetching(s.threads[u].at) ensures u == t {
      OneHolder(s, t, u);
    }
  }

  lemma WriteExpiryKeeps(s: State, t: nat)
    requires Invariant(s) && t < |s.threads| && Take(s, t, WriteExpiry).Some?
    ensures Invariant(Take(s, t, WriteExpiry).value)
  {
    hide History, WasGranted, AllBacked;
    var th := s.threads[t];
    var e := Granted(s.clock, th.token, s.clock + th.lifetime);
    OnlyFetcher(s, t);
    HistorySnoc(s.events, s.clock, e);
    BackedSnoc(s.events, e, s.answers);
    GrantedSnoc(s.events, e, s.token, s.expiry, s.clock);
  }

  lemma ActKeeps(s: State, t: nat, action: Action)
    requires Invariant(s) && t < |s.threads| && Take(s, t, action).Some?
    ensures Invariant(Take(s, t, action).value)
  {
    hide Invariant, Locks;
    var th := s.threads[t];
    match action
    case Call =>
      LocalHolds(s, t);
      MoveKeeps(s, t, th.(at := Check, called := s.clock));
    case LookFirst =>
      LocalHolds(s, t);
      MoveKeeps(s, t, if Valid(s) then th.(at := Read, seen := s.clock) else th.(at := Wait));
    case LockRefresh => LockRefreshKeeps(s, t);
    case LookAgain =>
      LocalHolds(s, t);
      if Valid(s) {
        MoveKeeps(s, t, th.(at := LeaveOk, seen := s.clock));
      } else {
        SendKeeps(s, t);
      }
    case Receive(reply) =>
      LocalHolds(s, t);
      var grant := Accepted(reply);
      if grant.Some? {
        RefreshBeforeExpiry(grant.value.expiresIn);
        MoveKeeps(s, t,
                  th.(at := Store, token := grant.value.accessToken, lifetime := RefreshAfter(grant.value.expiresIn)));
      } else {
        DeniedKeeps(s, t, reply);
      }
    case LockWrite => LockWriteKeeps(s, t);
    case WriteToken => WriteTokenKeeps(s, t);
    case WriteExpiry => WriteExpiryKeeps(s, t);
    case Unlock => UnlockKeeps(s, t);
    case ReadToken => ReadTokenKeeps(s, t);
  }

  lemma LocalHolds(s: State, t: nat)
    requires Invariant(s) && t < |s.threads|
    ensures Local(s, s.threads[t])
  {
  }

  /** The invariant holds in every reachable state, whatever the scheduler and the endpoint do. */
  lemma {:induction false} EveryRun(s: State, steps: seq<Step>)
    requires Initial(s) && Run(s, steps).Some?
    ensures Invariant(Run(s, steps).value)
  {
    if steps == [] {
      InitialHolds(s);
    } else {
      hide Invariant, Initial, Take;
      var n := |steps| - 1;
      EveryRun(s, steps[..n]);
      var r := Run(s, steps[..n]).value;
      match steps[n]
      case Tick(elapsed) => TickKeeps(r, elapsed);
      case Act(t, action) => ActKeeps(r, t, action);
    }
  }

  // ----- What follows for every run -----

  /** At most one token request is under way, and it belongs to the holder of refreshMu. */
  lemma OneRequestInFlight(s: State, steps: seq<Step>, t: nat, u: nat)
    requires Initial(s) && Run(s, steps).Some?
    requires var r := Run(s, steps).value;
             t < |r.threads| && u < |r.threads| && Fetching(r.threads[t].at) && Fetching(r.threads[u].at)
    ensures t == u && Run(s, steps).value.refreshMu == Some(t)
  {
    hide Invariant, Initial, Take, Next, Run;
    EveryRun(s, steps);
    LocksHold(Run(s, steps).value);
    OneHolder(Run(s, steps).value, t, u);
  }

  lemma LocksHold(s: State)
    requires Invariant(s)
    ensures Locks(s) && History(s.events, s.clock) && AllBacked(s.events, s.answers)
  {
  }

  /** Two granted tokens never overlap: the later one was requested only after the earlier one had expired,
      and its request directly precedes it in the log of the endpoint. */
  lemma OneGrantPerWindow(s: State, steps: seq<Step>, i: nat, k: nat)
    requires Initial(s) && Run(s, steps).Some?
    requires var e := Run(s, steps).value.events; i < k < |e| && e[i].Granted? && e[k].Granted?
    ensures var e := Run(s, steps).value.events;
            i < k - 1 && e[k - 1].Sent? && e[i].time < e[i].expiry <= e[k - 1].time <= e[k].time
  {
    hide Initial, Take, Next, Run, Locks, Cache, Settled, Locals, AllBacked;
    EveryRun(s, steps);
    var e := Run(s, steps).value.events;
    assert e[k - 1].Sent?;
  }

  /** No request is sent while a granted token is still valid: whoever waited for refreshMu uses the token
      that was fetched meanwhile. */
  lemma NoNeedlessRequest(s: State, steps: seq<Step>, i: nat, k: nat)
    requires Initial(s) && Run(s, steps).Some?
    requires var e := Run(s, steps).value.events; i < k < |e| && e[i].Granted? && e[k].Sent?
    ensures var e := Run(s, steps).value.events; e[i].expiry <= e[k].time
  {
    hide Initial, Take, Next, Run, Locks, Cache, Settled, Locals, AllBacked;
    EveryRun(s, steps);
  }

  /** As long as a call is under way, some goroutine can take its next step. */
  lemma NoDeadlock(s: State, caller: nat) returns (t: nat, action: Action)
    requires Invariant(s) && caller < |s.threads| && !s.threads[caller].at.Idle?
    ensures t < |s.threads| && Take(s, t, action).Some?
  {
    hide History, Cache, AllBacked, Settled, Local;
    t := if s.mu.Some? then s.mu.value else if s.refreshMu.Some? then s.refreshMu.value else caller;
    action :=
      match s.threads[t].at
      case Check => LookFirst
      case Wait => LockRefresh
      case Recheck => LookAgain
      case Request => Receive(Lost)
      case Store => LockWrite
      case Write => WriteToken
      case Written => WriteExpiry
      case Read => ReadToken
      case _ => Unlock;
  }

  /** A successful Header returns a non-empty token that a refresh stored before the call ended, and that was
      granted and not expired at some moment of the call. */
  lemma EveryAnswerIsBacked(s: State, steps: seq<Step>, i: nat) returns (g: nat, moment: int)
    requires Initial(s) && Run(s, steps).Some? && i < |Run(s, steps).value.answers|
    ensures var r := Run(s, steps).value;
            && r.answers[i].token != ""
            && g < |r.events| && r.events[g].Granted? && r.events[g].token == r.answers[i].token
            && r.answers[i].called <= moment <= r.answers[i].ended
            && r.events[g].time <= moment < r.events[g].expiry
  {
    hide Invariant, Initial, Take, Next, Run;
    EveryRun(s, steps);
    var r := Run(s, steps).value;
    LocksHold(r);
    var a := r.answers[i];
    assert Backed(r.events, a);
    g :| 0 <= g < |r.events| && IsGrant(r.events[g], a.token, a.expiry, a.ended);
    moment := if a.seen < r.events[g].time then r.events[g].time else a.seen;
    assert r.events[g].time < r.events[g].expiry;
  }
}
