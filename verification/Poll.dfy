/** atomefin/payment/payment.go: polling by re-submission, on a virtual clock. */
module Poll {
  import opened Wrappers
  import opened Int64

  // ---------- Options ----------

  const SECOND := 1_000_000_000
  const MILLISECOND := 1_000_000

  /** Durations are in nanoseconds. */
  datatype PollOptions = PollOptions(maxWait: Int64, initialDelay: Int64, maxDelay: Int64, multiplier: real)

  function WithDefaults(p: PollOptions): (o: PollOptions)
    ensures Usable(o)
    ensures Usable(p) ==> o == p
  {
    PollOptions(
      if p.maxWait <= 0 then 30 * SECOND else p.maxWait,
      if p.initialDelay <= 0 then 250 * MILLISECOND else p.initialDelay,
      if p.maxDelay <= 0 then 8 * SECOND else p.maxDelay,
      if p.multiplier < 1.0 then 2.0 else p.multiplier)
  }

  /** 30 seconds, 250 milliseconds, 8 seconds and doubling stand in for what is
      missing or out of range, option by option. */
  lemma DefaultsAre(p: PollOptions)
    ensures var o := WithDefaults(p);
            && o.maxWait == (if p.maxWait > 0 then p.maxWait else 30_000_000_000)
            && o.initialDelay == (if p.initialDelay > 0 then p.initialDelay else 250_000_000)
            && o.maxDelay == (if p.maxDelay > 0 then p.maxDelay else 8_000_000_000)
            && o.multiplier == (if p.multiplier >= 1.0 then p.multiplier else 2.0)
  {
  }

  predicate Usable(o: PollOptions) {
    o.maxWait > 0 && o.initialDelay > 0 && o.maxDelay > 0 && o.multiplier >= 1.0
  }

  // ---------- Responses ----------

  /** The parts of a decoded response the loop looks at; `status` is empty when
      there is no data object. */
  datatype Envelope = Envelope(code: string, message: string, status: string)

  predicate IsTerminal(status: string) {
    status == "SUCCESS" || status == "FAILED"
  }

  predicate IsSyncRejection(code: string, status: string) {
    code != "" && code != "SUCCESS" && status == ""
  }

  datatype RoundResult<E> = Got(resp: Option<Envelope>) | Fails(err: E)

  datatype PollError<E> =
    | CallerDone(rounds: nat)
    | MaxWaitExceeded
    | RequestFailed(err: E)
    | BusinessRejection(code: string, message: string)

  datatype PollOutcome<E> = PollOutcome(resp: Option<Envelope>, err: Option<PollError<E>>)

  // ---------- Time ----------

  /** How time passes: round r's call takes `took(r) + 1`, its sleep overshoots
      by `lag(r)`, and the caller's context ends at `callerDone`, if ever. */
  datatype Clock = Clock(took: nat -> nat, lag: nat -> nat, callerDone: Option<nat>)

  predicate CallerEnded(c: Clock, t: nat) {
    c.callerDone.Some? && c.callerDone.value <= t
  }

  /** `pollCtx.Err() != nil` at time t. */
  predicate Expired(c: Clock, o: PollOptions, t: nat) {
    t >= o.maxWait || CallerEnded(c, t)
  }

  /** The moment the poll context ends. */
  function ExpiresAt(c: Clock, o: PollOptions): nat
    requires o.maxWait > 0
  {
    if c.callerDone.Some? && c.callerDone.value < o.maxWait then c.callerDone.value else o.maxWait
  }

  function StopError<E>(c: Clock, t: nat, rounds: nat): PollError<E> {
    if CallerEnded(c, t) then CallerDone(rounds) else MaxWaitExceeded
  }

  // ---------- Delays ----------

  function Grown(d: Int64, multiplier: real): real {
    d as real * multiplier
  }

  function NextDelay(o: PollOptions, d: Int64): Int64 {
    Capped(o, Grown(d, o.multiplier))
  }

  function Capped(o: PollOptions, grown: real): Int64 {
    var next := Convert(grown);
    if next > o.maxDelay then o.maxDelay else next
  }

  /** Multiplying the delay stays below 2^63. */
  predicate Fits(o: PollOptions, d: Int64) {
    Grown(d, o.multiplier) < TWO_63 as real
  }

  /** A positive delay never shrinks below the smaller of itself and MaxDelay,
      exactly as long as the product fits int64. */
  lemma NextDelayKeepsUpIff(o: PollOptions, d: Int64)
    requires Usable(o) && d > 0
    ensures NextDelay(o, d) >= Min(d, o.maxDelay) <==> Fits(o, d)
    ensures NextDelay(o, d) <= o.maxDelay
  {
    hide Grown, Capped;
    GrowsFrom(d, o.multiplier);
    CappedKeepsUpIff(o, d, Grown(d, o.multiplier));
  }

  lemma CappedKeepsUpIff(o: PollOptions, d: Int64, grown: real)
    requires Usable(o) && d > 0 && grown >= d as real
    ensures Capped(o, grown) >= Min(d, o.maxDelay) <==> grown < TWO_63 as real
    ensures Capped(o, grown) <= o.maxDelay
  {
  }

  lemma GrowsFrom(d: Int64, multiplier: real)
    requires d >= 0 && multiplier >= 1.0
    ensures Grown(d, multiplier) >= d as real
  {
    ProductGrows(d as real, multiplier);
  }

  lemma ProductGrows(x: real, m: real)
    requires x >= 0.0 && m >= 1.0
    ensures x * m >= x
  {
  }

  /** As long as it fits, the next delay is the product without its fraction, or
      MaxDelay if that is less. */
  lemma NextDelayIs(o: PollOptions, d: Int64, next: int)
    requires Usable(o) && d > 0 && d as real * o.multiplier < 9223372036854775808.0
    requires next as real <= d as real * o.multiplier < next as real + 1.0
    ensures NextDelay(o, d) == Min(next, o.maxDelay)
  {
    GrowsFrom(d, o.multiplier);
    assert Grown(d, o.multiplier) == d as real * o.multiplier;
    hide Grown;
    CappedIs(o, d as real * o.multiplier, next);
  }

  lemma CappedIs(o: PollOptions, grown: real, next: int)
    requires 0.0 <= grown < 9223372036854775808.0 && next as real <= grown < next as real + 1.0
    ensures Capped(o, grown) == Min(next, o.maxDelay)
  {
    TruncTowardZero(grown);
    ConvertIff(grown);
  }

  /** Once a product has overflowed the delay is negative for good: the loop
      stops waiting between rounds. */
  lemma OverflowNeverWaits(o: PollOptions, d: Int64)
    requires Usable(o) && d > 0 && !Fits(o, d)
    ensures NextDelay(o, d) < 0 && NextDelay(o, NextDelay(o, d)) == NextDelay(o, d)
  {
    ProductGrows(TWO_63 as real, o.multiplier);
    assert -(TWO_63 as real) * o.multiplier == -(TWO_63 as real * o.multiplier);
  }

  /** For instance with a multiplier of 10^11 and otherwise default options, from
      the second sleep on. */
  lemma HugeMultiplierStopsWaiting()
    ensures var o := PollOptions(30 * SECOND, 250 * MILLISECOND, 8 * SECOND, 100_000_000_000.0);
            Usable(o) && !Fits(o, o.initialDelay) && NextDelay(o, o.initialDelay) < 0
  {
    var o := PollOptions(30 * SECOND, 250 * MILLISECOND, 8 * SECOND, 100_000_000_000.0);
    OverflowNeverWaits(o, o.initialDelay);
  }

  /** Neither the first delay nor a capped one overflows when multiplied. */
  predicate Multipliable(o: PollOptions) {
    Fits(o, o.initialDelay) && Fits(o, o.maxDelay)
  }

  lemma DelayStep(o: PollOptions, d: Int64)
    requires Usable(o) && Multipliable(o) && d > 0 && Fits(o, d)
    ensures Min(d, o.maxDelay) <= NextDelay(o, d) <= o.maxDelay && Fits(o, NextDelay(o, d))
  {
    NextDelayKeepsUpIff(o, d);
    ProductMonotone(NextDelay(o, d) as real, o.maxDelay as real, o.multiplier);
  }

  // ---------- The log of a run ----------

  /** One round: when it started and ended, what came back, and the delay in
      force after it. */
  datatype Round<E> = Round(start: nat, end: nat, result: RoundResult<E>, delay: Int64)

  predicate KeepsPolling<E>(rejects: bool, r: RoundResult<E>) {
    r.Got? && (r.resp.None? || (!IsTerminal(r.resp.value.status)
                                && !(rejects && IsSyncRejection(r.resp.value.code, r.resp.value.status))))
  }

  /** The rounds of a run follow one another as the loop runs them. */
  ghost predicate IsLog<E>(c: Clock, o: PollOptions, rejects: bool, log: seq<Round<E>>) {
    && (forall i | 0 <= i < |log| ::
          !Expired(c, o, log[i].start) && log[i].end == log[i].start + c.took(i + 1) + 1
          && (i == 0 ==> log[i].start == 0 && log[i].delay == o.initialDelay))
    && (forall i | 0 <= i < |log| - 1 :: Follows(c, o, rejects, log[i], log[i + 1], i + 1))
  }

  /** `next` is the round after `r`, which was round number `n`. */
  ghost predicate Follows<E>(c: Clock, o: PollOptions, rejects: bool, r: Round<E>, next: Round<E>, n: nat) {
    && !Expired(c, o, r.end) && KeepsPolling(rejects, r.result)
    && next.start == WakeTime(c, r.end, r.delay, n)
    && next.delay == NextDelay(o, r.delay)
  }

  function WakeTime(c: Clock, end: nat, delay: int, n: nat): nat {
    if delay <= 0 then end else end + delay + c.lag(n)
  }

  /** What the loop returns when `log` is all it did. */
  function Conclusion<E>(c: Clock, o: PollOptions, rejects: bool, log: seq<Round<E>>): PollOutcome<E>
    requires o.maxWait > 0
  {
    if log == [] then PollOutcome(None, Some(StopError(c, 0, 0)))
    else
      var r := log[|log| - 1];
      if Expired(c, o, r.end) then
        PollOutcome(LastResponse(log), Some(StopError(c, r.end, |log|)))
      else match r.result
        case Fails(err) => PollOutcome(None, Some(RequestFailed(err)))
        case Got(resp) =>
          if resp.Some? && IsTerminal(resp.value.status) then PollOutcome(resp, None)
          else if resp.Some? && rejects && IsSyncRejection(resp.value.code, resp.value.status) then
            PollOutcome(None, Some(BusinessRejection(resp.value.code, resp.value.message)))
          else PollOutcome(resp, Some(StopError(c, ExpiresAt(c, o), |log|)))
  }

  /** `lastResp` when the last round ended too late: its own response if there
      was one, else the response of the round before. */
  function LastResponse<E>(log: seq<Round<E>>): Option<Envelope>
    requires log != []
  {
    var r := log[|log| - 1].result;
    if r.Got? && r.resp.Some? then r.resp
    else if |log| > 1 && log[|log| - 2].result.Got? then log[|log| - 2].result.resp
    else None
  }

  /** The run stops here: no further round could follow the log. */
  ghost predicate Stops<E>(c: Clock, o: PollOptions, rejects: bool, log: seq<Round<E>>) {
    if log == [] then Expired(c, o, 0)
    else
      var r := log[|log| - 1];
      Expired(c, o, r.end) || !KeepsPolling(rejects, r.result)
      || Expired(c, o, WakeTime(c, r.end, r.delay, |log|))
  }

  // ---------- What every run promises ----------

  /** A nil error comes only with the first terminal response of the run, a SUCCESS
      or a FAILED: every earlier response was neither terminal nor rejected. */
  lemma NilErrorIsFirstTerminal<E>(c: Clock, o: PollOptions, rejects: bool, log: seq<Round<E>>)
    requires Usable(o) && IsLog(c, o, rejects, log) && Conclusion(c, o, rejects, log).err.None?
    ensures log != [] && log[|log| - 1].result == Got(Conclusion(c, o, rejects, log).resp)
    ensures Conclusion(c, o, rejects, log).resp.Some?
            && Conclusion(c, o, rejects, log).resp.value.status in {"SUCCESS", "FAILED"}
    ensures forall i | 0 <= i < |log| - 1 :: KeepsPolling(rejects, log[i].result)
  {
    forall i | 0 <= i < |log| - 1
      ensures KeepsPolling(rejects, log[i].result)
    {
      assert Follows(c, o, rejects, log[i], log[i + 1], i + 1);
    }
  }

  /** At time t neither MaxWait has passed nor the caller has left. */
  predicate InTime(c: Clock, o: PollOptions, t: nat) {
    t < o.maxWait && (c.callerDone.Some? ==> t < c.callerDone.value)
  }

  /** A SUCCESS or FAILED that arrives in time ends the run on the spot, without an
      error. */
  lemma TerminalEndsRun<E>(c: Clock, o: PollOptions, rejects: bool, log: seq<Round<E>>, i: nat)
    requires Usable(o) && IsLog(c, o, rejects, log) && i < |log| && InTime(c, o, log[i].end)
    requires log[i].result.Got? && log[i].result.resp.Some?
    requires log[i].result.resp.value.status in {"SUCCESS", "FAILED"}
    ensures i == |log| - 1 && Conclusion(c, o, rejects, log) == PollOutcome(log[i].result.resp, None)
  {
    assert i < |log| - 1 ==> Follows(c, o, rejects, log[i], log[i + 1], i + 1);
  }

  /** A response without a status and with a code other than SUCCESS ends the run on
      the spot, with its own code. */
  lemma RejectionEndsRun<E>(c: Clock, o: PollOptions, log: seq<Round<E>>, i: nat)
    requires Usable(o) && IsLog(c, o, true, log) && i < |log| && InTime(c, o, log[i].end)
    requires log[i].result.Got? && log[i].result.resp.Some?
    requires log[i].result.resp.value.status == "" && log[i].result.resp.value.code !in {"", "SUCCESS"}
    ensures i == |log| - 1
    ensures Conclusion(c, o, true, log).err
         == Some(BusinessRejection(log[i].result.resp.value.code, log[i].result.resp.value.message))
  {
    assert i < |log| - 1 ==> Follows(c, o, true, log[i], log[i + 1], i + 1);
  }

  /** After any other response another round is due, once the wait is over in time. */
  lemma OthersGoOn<E>(c: Clock, o: PollOptions, rejects: bool, log: seq<Round<E>>)
    requires log != [] && log[|log| - 1].result.Got?
    requires var r := log[|log| - 1];
             && InTime(c, o, r.end) && InTime(c, o, if r.delay <= 0 then r.end else r.end + r.delay + c.lag(|log|))
             && (r.result.resp.Some? ==>
                   && r.result.resp.value.status !in {"SUCCESS", "FAILED"}
                   && !(r.result.resp.value.status == "" && r.result.resp.value.code !in {"", "SUCCESS"}))
    ensures !Stops(c, o, rejects, log)
  {
  }

  /** A run that is out of time fails with the error of who ended it: the caller, if
      it left no later than the round ended, or no later than MaxWait when the wait
      was cut short; and else MaxWait. */
  lemma OutOfTime<E>(c: Clock, o: PollOptions, rejects: bool, log: seq<Round<E>>)
    requires Usable(o) && log != [] && KeepsPolling(rejects, log[|log| - 1].result)
    ensures var end := if InTime(c, o, log[|log| - 1].end) then o.maxWait else log[|log| - 1].end;
            Conclusion(c, o, rejects, log).err
            == Some(if c.callerDone.Some? && c.callerDone.value <= end then CallerDone(|log|) else MaxWaitExceeded)
  {
  }

  /** A failed request ends the run on the spot, with its own error. */
  lemma FailureEndsRun<E>(c: Clock, o: PollOptions, rejects: bool, log: seq<Round<E>>, i: nat)
    requires Usable(o) && IsLog(c, o, rejects, log) && i < |log| && InTime(c, o, log[i].end)
    requires log[i].result.Fails?
    ensures i == |log| - 1 && Conclusion(c, o, rejects, log) == PollOutcome(None, Some(RequestFailed(log[i].result.err)))
  {
    assert i < |log| - 1 ==> Follows(c, o, rejects, log[i], log[i + 1], i + 1);
  }

  /** Every delay is at least min(InitialDelay, MaxDelay), and every delay after
      the first at most MaxDelay. */
  lemma {:induction false} DelaysAreBounded<E>(c: Clock, o: PollOptions, rejects: bool, log: seq<Round<E>>, i: nat)
    requires Usable(o) && Multipliable(o) && IsLog(c, o, rejects, log) && i < |log|
    ensures log[i].delay >= Min(o.initialDelay, o.maxDelay) > 0
    ensures i > 0 ==> log[i].delay <= o.maxDelay
    ensures Fits(o, log[i].delay)
  {
    if i > 0 {
      DelaysAreBounded(c, o, rejects, log, i - 1);
      assert Follows(c, o, rejects, log[i - 1], log[i], i);
      DelayStep(o, log[i - 1].delay);
    }
  }

  /** A round starts when the wait after the one before is over: at once after a delay
      that is not positive. */
  lemma NextStart<E>(c: Clock, o: PollOptions, rejects: bool, log: seq<Round<E>>, i: nat)
    requires IsLog(c, o, rejects, log) && i + 1 < |log|
    ensures log[i + 1].start == log[i].end + if log[i].delay > 0 then log[i].delay + c.lag(i + 1) else 0
  {
    assert Follows(c, o, rejects, log[i], log[i + 1], i + 1);
  }

  lemma ProductMonotone(x: real, y: real, m: real)
    requires x <= y && m >= 1.0
    ensures x * m <= y * m
  {
  }

  lemma {:induction false} StartsAreSpaced<E>(c: Clock, o: PollOptions, rejects: bool, log: seq<Round<E>>, i: nat)
    requires Usable(o) && Multipliable(o) && IsLog(c, o, rejects, log) && i < |log|
    ensures log[i].start >= i * Min(o.initialDelay, o.maxDelay)
  {
    if i > 0 {
      StartsAreSpaced(c, o, rejects, log, i - 1);
      DelaysAreBounded(c, o, rejects, log, i - 1);
      assert Follows(c, o, rejects, log[i - 1], log[i], i);
      assert log[i].start >= log[i - 1].start + Min(o.initialDelay, o.maxDelay);
      OneMore(i - 1, Min(o.initialDelay, o.maxDelay));
    }
  }

  lemma OneMore(n: nat, m: nat)
    ensures (n + 1) * m == n * m + m
  {
  }

  /** A run has at most ceil(MaxWait / min(InitialDelay, MaxDelay)) rounds. */
  lemma RoundsAreBounded<E>(c: Clock, o: PollOptions, rejects: bool, log: seq<Round<E>>)
    requires Usable(o) && Multipliable(o) && IsLog(c, o, rejects, log)
    ensures var m := Min(o.initialDelay, o.maxDelay);
            |log| <= (o.maxWait + m - 1) / m
  {
    var m := Min(o.initialDelay, o.maxDelay);
    if log == [] {
      CeilAtLeast(0, o.maxWait, m);
    } else {
      StartsAreSpaced(c, o, rejects, log, |log| - 1);
      CeilAtLeast(|log| - 1, o.maxWait, m);
    }
  }

  lemma CeilAtLeast(n: nat, w: nat, m: nat)
    requires m > 0 && w > 0 && n * m < w
    ensures n + 1 <= (w + m - 1) / m
  {
    var q := (w + m - 1) / m;
    assert w + m - 1 == q * m + (w + m - 1) % m;
    assert q <= n ==> q * m <= n * m;
  }
}
