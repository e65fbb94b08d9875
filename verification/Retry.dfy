/** The retry loop of the client and its delays. */
module Retry {
  import opened Common
  import opened Numbers

  /** At most so many retries after the first attempt; the delays are nanoseconds. */
  datatype Policy = Policy(maxRetries: nat, baseDelay: int, maxDelay: int)

  const DEFAULT_POLICY := Policy(3, 100_000_000, 2_000_000_000)

  /** Delays for which doubling stays in 64 bits. */
  predicate Sound(p: Policy) {
    0 < p.baseDelay <= MAX_INT && 0 <= p.maxDelay <= 0x4000_0000_0000_0000
  }

  function Min(a: int, b: int): int {
    if a < b then a else b
  }

  function Pow2(n: nat): nat {
    if n == 0 then 1 else 2 * Pow2(n - 1)
  }

  // ----- Backoff -----

  /** The delay before jitter. */
  function Exponential(p: Policy, attempt: nat): int {
    Min(p.baseDelay * Pow2(attempt), p.maxDelay)
  }

  /** Half of the delay fixed, half random. */
  function Jittered(full: int, random: nat): (delay: int)
    requires 0 <= full
    ensures full / 2 <= delay <= full
  {
    full / 2 + random % (full / 2 + 1)
  }

  function Delay(p: Policy, attempt: nat, retryAfter: Option<int>, random: nat): int
    requires Sound(p)
  {
    if retryAfter.Some? then Min(retryAfter.value, p.maxDelay)
    else
      DelayRange(p, attempt);
      Jittered(Exponential(p, attempt), random)
  }

  lemma DelayRange(p: Policy, attempt: nat)
    requires Sound(p)
    ensures 0 <= Exponential(p, attempt) <= p.maxDelay
  {
  }

  lemma {:induction false} DoublingGrows(base: int, i: nat, k: nat)
    requires 0 < base && i <= k
    ensures base * Pow2(i) <= base * Pow2(k)
  {
    if i < k {
      DoublingGrows(base, i, k - 1);
      assert base * Pow2(k) == 2 * (base * Pow2(k - 1));
    }
  }

  /** The doubling loop stops early and in 64 bits, and yet gives the capped exponential. */
  method Backoff(p: Policy, attempt: nat, retryAfter: Option<int>, random: nat) returns (delay: int)
    requires Sound(p)
    ensures delay == Delay(p, attempt, retryAfter, random)
    ensures delay <= p.maxDelay
  {
    if retryAfter.Some? {
      if retryAfter.value > p.maxDelay {
        return p.maxDelay;
      }
      return retryAfter.value;
    }
    delay := p.baseDelay;
    var i := 0;
    while i < attempt && delay < p.maxDelay
      invariant i <= attempt && delay == p.baseDelay * Pow2(i)
      invariant 0 < delay <= MAX_INT
    {
      assert p.baseDelay * Pow2(i + 1) == 2 * (p.baseDelay * Pow2(i));
      delay := Wrap64(delay * 2);
      i := i + 1;
    }
    DoublingGrows(p.baseDelay, i, attempt);
    if delay > p.maxDelay || delay <= 0 {
      delay := p.maxDelay;
    }
    assert delay == Exponential(p, attempt);
    var half := delay / 2;
    delay := half + random % (half + 1);
  }

  // ----- Retry-After -----

  /** parseRetryAfter of RFC 9110, section 10.2.3: seconds or a date. The date is given as the time from now
      until then, if the text is one. */
  function ParseRetryAfter(text: string, date: Option<int>): Option<int> {
    var value := Trim(text);
    if value == "" then None
    else if Atoi(value).Some? then
      if Atoi(value).value < 0 then None else Some(Wrap64(Atoi(value).value * SECOND))
    else if date.Some? then Some(if date.value < 0 then 0 else date.value)
    else None
  }

  /** A header that spells a number of seconds. */
  predicate Seconds(text: string, n: int) {
    0 <= n && Atoi(Trim(text)) == Some(n)
  }

  /** Every number in range is spelled by its digits. */
  lemma DigitsAreSeconds(n: nat)
    requires n <= MAX_INT
    ensures Seconds(Digits(n), n)
  {
    DigitsStay(Digits(n));
    AtoiDigits(n);
  }

  /** The wait after a header of n seconds is the one the server asked for, up to the cap, exactly when the
      product in 64 bits did not overflow or the overflowed product is beyond the cap as well. */
  lemma SecondsHonoured(p: Policy, attempt: nat, text: string, n: int, date: Option<int>, random: nat)
    requires Sound(p) && Seconds(text, n)
    ensures Delay(p, attempt, ParseRetryAfter(text, date), random) == Min(n * SECOND, p.maxDelay) <==>
            n * SECOND <= MAX_INT || Wrap64(n * SECOND) >= p.maxDelay
  {
    hide Atoi, Trim, Exponential, Jittered;
    NothingIsNoNumber();
    if n * SECOND <= MAX_INT {
      assert Wrap64(n * SECOND) == n * SECOND;
    }
  }

  lemma NothingIsNoNumber()
    ensures Atoi("").None?
  {
  }

  /** Up to 9223372036 seconds nothing overflows. */
  lemma ReasonableSecondsHonoured(p: Policy, attempt: nat, text: string, n: int, date: Option<int>, random: nat)
    requires Sound(p) && Seconds(text, n) && n <= 9_223_372_036
    ensures Delay(p, attempt, ParseRetryAfter(text, date), random) == Min(n * SECOND, p.maxDelay)
  {
    SecondsHonoured(p, attempt, text, n, date, random);
  }

  /** A date is waited for up to the cap, and a past one not at all. */
  lemma DateHonoured(p: Policy, attempt: nat, text: string, date: int, random: nat)
    requires Sound(p) && Trim(text) != "" && Atoi(Trim(text)).None?
    ensures Delay(p, attempt, ParseRetryAfter(text, Some(date)), random) ==
            if date <= 0 then 0 else Min(date, p.maxDelay)
  {
    hide Atoi, Trim;
  }

  /** Without a header, with a negative number, and with a text that is neither a number nor a date, the client
      waits as it does without one. */
  lemma HeaderIgnored(p: Policy, attempt: nat, text: string, date: Option<int>, random: nat)
    requires Sound(p)
    requires Trim(text) == "" || (Atoi(Trim(text)).Some? && Atoi(Trim(text)).value < 0) ||
             (Atoi(Trim(text)).None? && date.None?)
    ensures Delay(p, attempt, ParseRetryAfter(text, date), random) == Delay(p, attempt, None, random)
  {
    hide Atoi, Trim;
  }

  /** The delays of the client without a header: half to all of 100, 200 and 400 milliseconds, three times; with
      one, never more than two seconds. */
  lemma DefaultDelays(attempt: nat, header: int, random: nat)
    ensures DEFAULT_POLICY.maxRetries == 3
    ensures attempt < 3 ==>
              var full := if attempt == 0 then 100_000_000 else if attempt == 1 then 200_000_000 else 400_000_000;
              full / 2 <= Delay(DEFAULT_POLICY, attempt, None, random) <= full
    ensures Delay(DEFAULT_POLICY, attempt, Some(header), random) ==
            if header < 2_000_000_000 then header else 2_000_000_000
  {
    assert Pow2(0) == 1 && Pow2(1) == 2 && Pow2(2) == 4;
  }

  /** Without a header the wait is any time from half of the capped exponential to all of it, and no other. */
  lemma JitterExactly(p: Policy, attempt: nat, delay: int)
    requires Sound(p)
    ensures var half := Min(p.baseDelay * Pow2(attempt), p.maxDelay) / 2;
            half <= delay <= 2 * half <==> exists random: nat :: Delay(p, attempt, None, random) == delay
  {
    DelayRange(p, attempt);
    hide Pow2, Jittered;
    var full := Exponential(p, attempt);
    forall random: nat ensures full / 2 <= Delay(p, attempt, None, random) <= 2 * (full / 2) {
      JitterRange(full, random);
    }
    if full / 2 <= delay <= 2 * (full / 2) {
      JitterReaches(full, delay);
      assert Delay(p, attempt, None, delay - full / 2) == delay;
    }
  }

  lemma JitterRange(full: nat, random: nat)
    ensures full / 2 <= Jittered(full, random) <= 2 * (full / 2)
  {
  }

  lemma JitterReaches(full: nat, delay: nat)
    requires full / 2 <= delay <= 2 * (full / 2)
    ensures Jittered(full, delay - full / 2) == delay
  {
    var half := full / 2;
    assert (delay - half) % (half + 1) == delay - half;
  }

  // ----- The loop -----

  predicate RetryableStatus(status: int) {
    status == 429 || status == 500 || status == 502 || status == 503 || status == 504
  }

  /** What becomes of an attempt: it cannot be built or authorised, the transport fails, or a response comes
      back, with its Retry-After header. */
  datatype Attempt = Unsendable | Reset | Broken | Response(status: int, retryAfter: string, date: Option<int>)

  /** Everything a request meets, attempt by attempt: how it ends, whether the caller gave up meanwhile,
      whether the wait after it is interrupted, and the random source. */
  datatype World = World(attempt: nat -> Attempt, cancelled: nat -> bool, interrupted: nat -> bool, random: nat -> nat)

  datatype Result = Got(status: int) | Error

  /** An attempt worth repeating. */
  predicate Transient(w: World, i: nat) {
    match w.attempt(i)
    case Reset => !w.cancelled(i)
    case Response(status, _, _) => RetryableStatus(status)
    case _ => false
  }

  /** An attempt after which the client waits. */
  predicate Waits(p: Policy, retryable: bool, w: World, i: nat) {
    retryable && i < p.maxRetries && Transient(w, i)
  }

  function Wait(p: Policy, w: World, i: nat): int
    requires Sound(p)
  {
    match w.attempt(i)
    case Response(_, text, date) => Delay(p, i, ParseRetryAfter(text, date), w.random(i))
    case _ => Delay(p, i, None, w.random(i))
  }

  /** A wait that is not positive ends at once, whatever became of the caller. */
  predicate Continues(p: Policy, retryable: bool, w: World, i: nat)
    requires Sound(p)
  {
    Waits(p, retryable, w, i) && (Wait(p, w, i) > 0 ==> !w.interrupted(i))
  }

  /** The time slept after the first n attempts, each wait in full; a negative delay is none. */
  function Slept(p: Policy, w: World, n: nat): nat
    requires Sound(p)
  {
    if n == 0 then 0 else Slept(p, w, n - 1) + (if Wait(p, w, n - 1) > 0 then Wait(p, w, n - 1) else 0)
  }

  lemma {:induction false} SleptBound(p: Policy, w: World, n: nat)
    requires Sound(p)
    ensures Slept(p, w, n) <= n * p.maxDelay
  {
    if n > 0 {
      SleptBound(p, w, n - 1);
      DelayRange(p, n - 1);
      assert (n - 1) * p.maxDelay + p.maxDelay == n * p.maxDelay;
    }
  }

  /** How the request ends that is not repeated after the given attempt: with the response of that attempt,
      unless the wait for a repetition was interrupted. */
  function Final(p: Policy, retryable: bool, w: World, last: nat): Result
    requires Sound(p)
  {
    match w.attempt(last)
    case Response(status, _, _) =>
      if Waits(p, retryable, w, last) && !Continues(p, retryable, w, last) then Error else Got(status)
    case _ => Error
  }

  /** doRequest. The attempts before the last are exactly those worth repeating, the last is not repeated, and
      its response is the result. */
  method DoRequest(p: Policy, retryable: bool, w: World) returns (r: Result, last: nat, sends: nat, slept: nat)
    requires Sound(p)
    ensures forall i :: 0 <= i < last ==> Continues(p, retryable, w, i)
    ensures !Continues(p, retryable, w, last)
    ensures forall i :: 0 <= i < last ==>
              match w.attempt(i)
              case Reset => !w.cancelled(i)
              case Response(status, _, _) => status in {429, 500, 502, 503, 504}
              case _ => false
    ensures retryable && last < p.maxRetries ==>
              match w.attempt(last)
              case Reset => w.cancelled(last) || w.interrupted(last)
              case Response(status, _, _) =>
                status in {429, 500, 502, 503, 504} ==> w.interrupted(last) && r == Error
              case _ => true
    ensures w.attempt(last).Response? && w.attempt(last).status !in {429, 500, 502, 503, 504} ==>
              r == Got(w.attempt(last).status)
    ensures r == Final(p, retryable, w, last)
    ensures sends == if w.attempt(last).Unsendable? then last else last + 1
    ensures slept == Slept(p, w, if Waits(p, retryable, w, last) then last + 1 else last)
  {
    hide Delay, ParseRetryAfter;
    last, sends, slept := 0, 0, 0;
    while true
      invariant last <= p.maxRetries && sends == last
      invariant forall i :: 0 <= i < last ==> Continues(p, retryable, w, i)
      invariant forall i :: 0 <= i < last ==>
        match w.attempt(i)
        case Reset => !w.cancelled(i)
        case Response(status, _, _) => status in {429, 500, 502, 503, 504}
        case _ => false
      invariant slept == Slept(p, w, last)
      decreases p.maxRetries - last
    {
      var delay: int;
      match w.attempt(last) {
        case Unsendable => return Error, last, sends, slept;
        case Broken => return Error, last, sends + 1, slept;
        case Reset =>
          sends := sends + 1;
          if w.cancelled(last) || !retryable || last >= p.maxRetries {
            return Error, last, sends, slept;
          }
          delay := Backoff(p, last, None, w.random(last));
        case Response(status, text, date) =>
          sends := sends + 1;
          if !retryable || last >= p.maxRetries || !RetryableStatus(status) {
            return Got(status), last, sends, slept;
          }
          delay := Backoff(p, last, ParseRetryAfter(text, date), w.random(last));
      }
      if delay > 0 {
        slept := slept + delay;
        if w.interrupted(last) {
          return Error, last, sends, slept;
        }
      }
      last := last + 1;
    }
  }

  /** One second more, and the client repeats the request without any wait. */
  lemma OneSecondMore(w: World, text: string, date: Option<int>)
    requires w.attempt(0) == Response(503, text, date) && Seconds(text, 9_223_372_037)
    ensures Wait(DEFAULT_POLICY, w, 0) < 0 && Slept(DEFAULT_POLICY, w, 1) == 0 && Continues(DEFAULT_POLICY, true, w, 0)
  {
    hide Atoi, Trim, Exponential, Jittered;
    NothingIsNoNumber();
    assert Wrap64(9_223_372_037 * SECOND) < 0;
    assert Slept(DEFAULT_POLICY, w, 0) == 0;
  }

  datatype Verb = Get | Post | PostIdempotent | Put | Delete | Patch

  /** Only a plain POST is never repeated. */
  predicate Repeatable(v: Verb) {
    !v.Post?
  }

  lemma SleptNothing(p: Policy, w: World)
    requires Sound(p)
    ensures Slept(p, w, 0) == 0
  {
  }

  lemma Scaled(a: nat, b: nat, x: nat)
    requires a <= b
    ensures a * x <= b * x
  {
    assert b * x == a * x + (b - a) * x;
  }

  /** A request of any verb is sent at most 1 + maxRetries times, a plain POST at most once, and a response
      comes at the cost of at least one request; the time slept is at most maxRetries times the cap. */
  method Send(p: Policy, v: Verb, w: World) returns (r: Result, sends: nat, slept: nat)
    requires Sound(p)
    ensures sends <= 1 + p.maxRetries && slept <= p.maxRetries * p.maxDelay
    ensures r.Got? ==> 1 <= sends
    ensures v.Post? ==> sends <= 1 && slept == 0
    ensures r.Got? && r.status in {429, 500, 502, 503, 504} ==> v.Post? || sends == 1 + p.maxRetries
    ensures !v.Post? && p.maxRetries > 0 && !w.interrupted(0) && !w.attempt(1).Unsendable? ==>
              match w.attempt(0)
              case Reset => w.cancelled(0) || sends >= 2
              case Response(status, _, _) => status in {429, 500, 502, 503, 504} ==> sends >= 2
              case _ => true
  {
    hide Slept;
    var last;
    r, last, sends, slept := DoRequest(p, Repeatable(v), w);
    assert last > 0 ==> Continues(p, Repeatable(v), w, last - 1);
    var waits := if Waits(p, Repeatable(v), w, last) then last + 1 else last;
    SleptBound(p, w, waits);
    SleptNothing(p, w);
    Scaled(waits, p.maxRetries, p.maxDelay);
  }
}
