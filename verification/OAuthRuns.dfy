/** What a call of Header comes to when nothing goes wrong, and what every reply of the endpoint leads to. */
module OAuthRuns {
  import opened Common
  import opened Numbers
  import opened OAuth

  lemma RunStep(s: State, steps: seq<Step>, step: Step)
    ensures Run(s, steps + [step]) == if Run(s, steps).Some? then Next(Run(s, steps).value, step) else None
  {
    assert (steps + [step])[..|steps|] == steps;
  }

  /** How long a token of so many seconds is used: nine tenths of them, and of an hour if the number is not
      positive. */
  lemma UseTime(expiresIn: int)
    requires expiresIn <= 9_223_372_036 && expiresIn >= -9_223_372_036
    ensures RefreshAfter(expiresIn) == if expiresIn > 0 then expiresIn * 900_000_000 else 3_240_000_000_000
  {
    assert Wrap64(expiresIn * SECOND) == expiresIn * SECOND;
    assert expiresIn * SECOND * 9 == expiresIn * 900_000_000 * 10;
  }

  /** A reply with a status below 400 and a token that is not empty is taken; any other one is refused, is logged
      as such and fails the call. */
  lemma ReplyExactly(s: State, t: nat, reply: Reply)
    requires t < |s.threads| && s.threads[t].at.Request?
    ensures var taken := reply.Reply? && reply.status < 400 && reply.body.Some? && reply.body.value.accessToken != "";
            Take(s, t, Receive(reply)).Some? &&
            var r := Take(s, t, Receive(reply)).value;
            && r.threads[t].at == (if taken then Store else LeaveErr)
            && (taken ==> r.threads[t].token == reply.body.value.accessToken && r.events == s.events)
            && (!taken ==> r.events == s.events + [Denied(s.clock)])
            && r.token == s.token && r.expiry == s.expiry
  {
  }

  function Steps(t: nat, actions: seq<Action>): (r: seq<Step>)
    ensures |r| == |actions|
  {
    seq(|actions|, i requires 0 <= i < |actions| => Act(t, actions[i]))
  }

  lemma {:induction false} ActionsRun(s: State, t: nat, actions: seq<Action>, a: Action)
    requires t < |s.threads| && Run(s, Steps(t, actions)).Some? && t < |Run(s, Steps(t, actions)).value.threads|
    ensures Run(s, Steps(t, actions + [a])) == Take(Run(s, Steps(t, actions)).value, t, a)
  {
    hide Take;
    assert Steps(t, actions + [a]) == Steps(t, actions) + [Act(t, a)];
    RunStep(s, Steps(t, actions), Act(t, a));
  }

  /** The first call: a request, and the granted token as the answer, cached for nine tenths of its time. */
  lemma FirstCall(s: State, t: nat, status: int, token: string, expiresIn: int)
    requires Initial(s) && t < |s.threads| && status < 400 && token != "" && 0 < expiresIn <= 9_223_372_036
    ensures var run := Run(s, Steps(t, [Call, LookFirst, LockRefresh, LookAgain,
                                        Receive(Reply(status, Some(Grant(token, expiresIn)))),
                                        LockWrite, WriteToken, WriteExpiry, Unlock, ReadToken]));
            var expiry := s.clock + expiresIn * 900_000_000;
            && run.Some?
            && run.value.events == [Sent(s.clock), Granted(s.clock, token, expiry)]
            && run.value.answers == [Answer(token, s.clock, s.clock, s.clock, expiry)]
            && run.value.token == token && run.value.expiry == expiry
            && run.value.mu.None? && run.value.refreshMu.None? && run.value.threads[t].at.Idle?
  {
    hide Run, Steps, RefreshAfter, Initial, Take;
    var reply := Reply(status, Some(Grant(token, expiresIn)));
    var a := Requested(s, t);
    var r := Run(s, Steps(t, a)).value;
    Stored(r, t, reply);
    a := Taken(s, t, a, Receive(reply));
    a := Taken(s, t, a, LockWrite);
    a := Taken(s, t, a, WriteToken);
    a := Taken(s, t, a, WriteExpiry);
    a := Taken(s, t, a, Unlock);
    a := Taken(s, t, a, ReadToken);
    assert a == [Call, LookFirst, LockRefresh, LookAgain, Receive(reply), LockWrite, WriteToken, WriteExpiry, Unlock,
                 ReadToken];
  }

  /** Up to the request. */
  lemma Requested(s: State, t: nat) returns (a: seq<Action>)
    requires Initial(s) && t < |s.threads|
    ensures a == [Call, LookFirst, LockRefresh, LookAgain] && Run(s, Steps(t, a)).Some?
    ensures var r := Run(s, Steps(t, a)).value;
            && r == s.(threads := r.threads, refreshMu := Some(t), events := [Sent(s.clock)])
            && |r.threads| == |s.threads| && r.threads[t].at == Request && r.threads[t].called == s.clock
            && r.mu.None? && r.answers == []
  {
    hide Run, Steps;
    NothingRun(s, t);
    a := Taken(s, t, [], Call);
    a := Taken(s, t, a, LookFirst);
    a := Taken(s, t, a, LockRefresh);
    a := Taken(s, t, a, LookAgain);
  }

  /** From a good reply to the answer. */
  lemma Stored(r: State, t: nat, reply: Reply)
    requires t < |r.threads| && r.threads[t].at == Request && r.mu.None? && r.refreshMu == Some(t)
    requires reply.Reply? && reply.status < 400 && reply.body.Some? && reply.body.value.accessToken != ""
    requires 0 < reply.body.value.expiresIn <= 9_223_372_036
    ensures Take(r, t, Receive(reply)).Some?
    ensures var a := Take(r, t, Receive(reply)).value;
            && t < |a.threads| && Take(a, t, LockWrite).Some?
            && var b := Take(a, t, LockWrite).value;
            && t < |b.threads| && Take(b, t, WriteToken).Some?
            && var c := Take(b, t, WriteToken).value;
            && t < |c.threads| && Take(c, t, WriteExpiry).Some?
            && var d := Take(c, t, WriteExpiry).value;
            && t < |d.threads| && Take(d, t, Unlock).Some?
            && var e := Take(d, t, Unlock).value;
            && t < |e.threads| && Take(e, t, ReadToken).Some?
            && var f := Take(e, t, ReadToken).value;
            var token, expiry := reply.body.value.accessToken, r.clock + reply.body.value.expiresIn * 900_000_000;
            && f.events == r.events + [Granted(r.clock, token, expiry)]
            && f.answers == r.answers + [Answer(token, r.threads[t].called, r.clock, r.clock, expiry)]
            && f.token == token && f.expiry == expiry && f.mu.None? && f.refreshMu.None?
            && t < |f.threads| && f.threads[t].at.Idle?
  {
    hide RefreshAfter;
    UseTime(reply.body.value.expiresIn);
  }

  lemma NothingRun(s: State, t: nat)
    ensures Run(s, Steps(t, [])) == Some(s)
  {
  }

  lemma Taken(s: State, t: nat, actions: seq<Action>, a: Action) returns (next: seq<Action>)
    requires t < |s.threads| && Run(s, Steps(t, actions)).Some? && t < |Run(s, Steps(t, actions)).value.threads|
    ensures next == actions + [a] && Run(s, Steps(t, next)) == Take(Run(s, Steps(t, actions)).value, t, a)
  {
    hide Take, Run, Steps;
    ActionsRun(s, t, actions, a);
    next := actions + [a];
  }

  /** A call while the cached token is valid answers it without a request. */
  lemma CachedCall(s: State, t: nat)
    requires t < |s.threads| && s.threads[t].at.Idle? && s.mu.None? && s.token != "" && s.clock < s.expiry
    ensures var run := Run(s, Steps(t, [Call, LookFirst, ReadToken]));
            && run.Some? && run.value.events == s.events
            && run.value.answers == s.answers + [Answer(s.token, s.clock, s.clock, s.clock, s.expiry)]
  {
    hide Run, Steps;
    NothingRun(s, t);
    var a := [];
    a := Taken(s, t, a, Call);
    a := Taken(s, t, a, LookFirst);
    a := Taken(s, t, a, ReadToken);
    assert a == [Call, LookFirst, ReadToken];
  }
}
