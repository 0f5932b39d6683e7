/** atomefin/payment/auth.go, capture.go and payment.go: `AuthPollUntilTerminal`
    and `CapturePollUntilTerminal`, the poll loop around the retry loop. */
module PaymentPoll {
  import opened Wrappers
  import opened Int64
  import opened Doer
  import opened Poll
  import opened Strings
  import SubOrders

  datatype Endpoint = Auth | Capture

  /** Why a round failed. */
  datatype CallError =
    | Invalid(field: string)
    | Call(result: CallResult)
    | Undecodable

  /** What the outside world does during one polling call: the network script of
      each round, the passage of time, the minted ids, and the two JSON steps. */
  datatype World = World(
    endpoint: Endpoint,
    client: Client,
    fields: SubOrders.Request,
    script: nat -> Script,
    clock: Clock,
    mint: nat -> string,
    encode: SubOrders.Request -> string,
    decode: string -> Option<Envelope>)

  function RequestWith(w: World, id: string): SubOrders.Request {
    w.fields.(requestId := id)
  }

  function Rejection(endpoint: Endpoint, req: SubOrders.Request): SubOrders.Rejection {
    match endpoint
    case Auth => SubOrders.ValidateAuthRequest(req)
    case Capture => SubOrders.ValidateCaptureRequest(req)
  }

  /** /auth carries its session id in a header. */
  function SessionHeader(w: World): seq<Header> {
    if w.endpoint.Capture? || w.fields.sessionid == "" then [] else [Header("sessionid", [w.fields.sessionid])]
  }

  // ---------- One round ----------

  predicate Acceptable(w: World, id: string) {
    Rejection(w.endpoint, RequestWith(w, id)).None?
  }

  /** What round n with request id `id` does on the network: nothing when the
      request is invalid, else one whole call. */
  function RoundEvents(w: World, n: nat, id: string): seq<Event> {
    if !Acceptable(w, id) then []
    else
      var body := w.encode(RequestWith(w, id));
      CallTrace(w.client, w.script(n), body, body, SessionHeader(w))
  }

  /** What round n comes back with: the validator's verdict, else the failure of
      the call, else the decoded response. */
  function RoundAnswer(w: World, n: nat, id: string): RoundResult<CallError> {
    var verdict := Rejection(w.endpoint, RequestWith(w, id));
    if verdict.Some? then Fails(Invalid(verdict.value))
    else
      var answer := CallAnswer(w.client, w.script(n));
      if !answer.Response? then Fails(Call(answer))
      else
        var resp := w.decode(answer.body);
        if resp.None? then Fails(Undecodable) else Got(resp)
  }

  /** What n rounds with one request id do on the network. */
  function RunEvents(w: World, id: string, n: nat): seq<Event> {
    if n == 0 then [] else RunEvents(w, id, n - 1) + RoundEvents(w, n, id)
  }

  /** Every round of the log came back with what the network gave it. */
  ghost predicate Answered(w: World, id: string, log: seq<Round<CallError>>) {
    forall i | 0 <= i < |log| :: log[i].result == RoundAnswer(w, i + 1, id)
  }

  // ---------- The service ----------

  class Service {
    const net: Network
    /** `req.RequestID`, written back when minted. */
    var requestId: string
    var minted: nat

    constructor (n: Network, id: string)
      ensures net == n && requestId == id && minted == 0
    {
      net, requestId, minted := n, id, 0;
    }

    method EnsureRequestId(w: World)
      modifies this
      ensures old(requestId) != "" ==> requestId == old(requestId) && minted == old(minted)
      ensures old(requestId) == "" ==> requestId == w.mint(old(minted)) && minted == old(minted) + 1
    {
      if requestId == "" {
        requestId := w.mint(minted);
        minted := minted + 1;
      }
    }

    /** `Auth` and `Capture`: mint an id if there is none, validate, marshal, call,
        decode. */
    method Invoke(w: World, n: nat) returns (r: RoundResult<CallError>)
      requires w.client.Valid()
      modifies this, net
      ensures old(requestId) != "" ==> requestId == old(requestId) && minted == old(minted)
      ensures old(requestId) == "" ==> requestId == w.mint(old(minted)) && minted == old(minted) + 1
      ensures r == RoundAnswer(w, n, requestId)
      ensures net.trace == old(net.trace) + RoundEvents(w, n, requestId)
    {
      EnsureRequestId(w);
      hide SubOrders.ValidateAuthRequest, SubOrders.ValidateCaptureRequest, CallAnswer, CallTrace;
      var req := RequestWith(w, requestId);
      var verdict := Rejection(w.endpoint, req);
      if verdict.Some? {
        assert net.trace + [] == net.trace;
        return Fails(Invalid(verdict.value));
      }
      var body := w.encode(req);
      ghost var last;
      var answer;
      answer, last := net.SignAndDispatch(w.client, w.script(n), body, body, SessionHeader(w));
      if !answer.Response? {
        return Fails(Call(answer));
      }
      var resp := w.decode(answer.body);
      if resp.None? {
        return Fails(Undecodable);
      }
      return Got(resp);
    }

    /** `AuthPollUntilTerminal` and `CapturePollUntilTerminal`: the poll loop with
        `Invoke` as its call and the synchronous-rejection probe on. */
    method PollUntilTerminal(w: World, opts: PollOptions)
        returns (out: PollOutcome<CallError>, ghost log: seq<Round<CallError>>)
      requires w.client.Valid()
      modifies this, net
      ensures var o := WithDefaults(opts);
              IsLog(w.clock, o, true, log) && Stops(w.clock, o, true, log)
              && out == Conclusion(w.clock, o, true, log)
      ensures Answered(w, requestId, log)
      ensures net.trace == old(net.trace) + RunEvents(w, requestId, |log|)
      ensures old(requestId) != "" ==> requestId == old(requestId)
      ensures old(requestId) == "" && w.mint(old(minted)) != "" ==> requestId == w.mint(old(minted))
    {
      hide WithDefaults, Usable, IsLog, Stops, Conclusion, Ready, RunEvents, RoundAnswer, NextDelay;
      var o := WithDefaults(opts);
      EnsureRequestId(w);
      NothingYet(w, requestId, net.trace, o);
      ghost var id := requestId;
      var now, round, delay: Int64 := 0, 0, o.initialDelay;
      var lastResp: Option<Envelope> := None;
      log := [];
      while true
        invariant id != "" ==> requestId == id
        invariant round == |log| && Accounted(w, old(net.trace), log)
        invariant IsLog(w.clock, o, true, log) && Ready(w.clock, o, log, now, delay, lastResp)
        decreases o.maxWait - now
      {
        ReadyToStop(w.clock, o, log, now, delay, lastResp);
        if Expired(w.clock, o, now) {
          out := PollOutcome(lastResp, Some(StopError(w.clock, now, round)));
          return;
        }
        round := round + 1;
        var resp := Submit(w, round, old(net.trace), log);
        var end := now + w.clock.took(round) + 1;
        var done := AfterRound(w.clock, o, log, now, end, delay, round, lastResp, resp);
        AnsweredGrows(w, requestId, log, Round(now, end, resp, delay));
        log := log + [Round(now, end, resp, delay)];
        if done.Some? {
          out := done.value;
          return;
        }
        lastResp := resp.resp;
        now, delay := WakeTime(w.clock, end, delay, round), NextDelay(o, delay);
      }
    }

    /** The log came from the network, and everything on the network since `start`
        is its rounds, all with the current request id. */
    ghost predicate Accounted(w: World, start: seq<Event>, log: seq<Round<CallError>>)
      reads this, net
    {
      net.trace == start + RunEvents(w, requestId, |log|) && Answered(w, requestId, log)
    }

    /** The round after `log`: it extends the account by what came back. */
    method Submit(w: World, round: nat, ghost start: seq<Event>, ghost log: seq<Round<CallError>>)
        returns (r: RoundResult<CallError>)
      requires w.client.Valid() && round == |log| + 1 && Accounted(w, start, log)
      requires log != [] ==> log[|log| - 1].result.Got?
      modifies this, net
      ensures old(requestId) != "" ==> requestId == old(requestId) && minted == old(minted)
      ensures net.trace == start + RunEvents(w, requestId, round)
      ensures Answered(w, requestId, log) && r == RoundAnswer(w, round, requestId)
    {
      hide RoundAnswer, RoundEvents;
      GotNeedsId(w, requestId, log);
      ghost var id := requestId;
      r := Invoke(w, round);
      assert log != [] ==> requestId == id;
      RunGrows(w, start, requestId, |log|);
    }
  }

  /** Only a request with an id gets a response. */
  lemma GotNeedsId(w: World, id: string, log: seq<Round<CallError>>)
    requires Answered(w, id, log) && (log != [] ==> log[|log| - 1].result.Got?)
    ensures log != [] ==> id != ""
  {
    if log != [] {
      assert log[|log| - 1].result == RoundAnswer(w, |log|, id);
    }
  }

  lemma RunGrows(w: World, start: seq<Event>, id: string, n: nat)
    ensures start + RunEvents(w, id, n) + RoundEvents(w, n + 1, id) == start + RunEvents(w, id, n + 1)
  {
  }


  /** The loop body after the call of a round that started at `now` and ended at
      `end`: the outcome to return, or none when the loop goes around. */
  method AfterRound(c: Clock, o: PollOptions, ghost log: seq<Round<CallError>>, now: nat, end: nat, delay: Int64,
                    round: nat, lastResp: Option<Envelope>, resp: RoundResult<CallError>)
      returns (done: Option<PollOutcome<CallError>>)
    requires Usable(o) && IsLog(c, o, true, log) && Ready(c, o, log, now, delay, lastResp) && !Expired(c, o, now)
    requires round == |log| + 1 && end == now + c.took(round) + 1
    ensures var longer := log + [Round(now, end, resp, delay)];
            && IsLog(c, o, true, longer)
            && (done.Some? ==> Stops(c, o, true, longer) && done.value == Conclusion(c, o, true, longer))
            && (done.None? ==> resp.Got? && Ready(c, o, longer, WakeTime(c, end, delay, round), NextDelay(o, delay), resp.resp))
  {
    ghost var longer := log + [Round(now, end, resp, delay)];
    LogGrows(c, o, log, now, delay, lastResp, resp);
    assert longer[|log|] == Round(now, end, resp, delay);
    if Expired(c, o, end) {
      var last := lastResp;
      if resp.Got? && resp.resp.Some? {
        last := resp.resp;
      }
      assert log != [] ==> longer[|longer| - 2] == log[|log| - 1];
      return Some(PollOutcome(last, Some(StopError(c, end, round))));
    }
    if resp.Fails? {
      return Some(PollOutcome(None, Some(RequestFailed(resp.err))));
    }
    if resp.resp.Some? && IsTerminal(resp.resp.value.status) {
      return Some(PollOutcome(resp.resp, None));
    }
    if resp.resp.Some? && IsSyncRejection(resp.resp.value.code, resp.resp.value.status) {
      return Some(PollOutcome(None, Some(BusinessRejection(resp.resp.value.code, resp.resp.value.message))));
    }
    if Expired(c, o, WakeTime(c, end, delay, round)) {
      return Some(PollOutcome(resp.resp, Some(StopError(c, ExpiresAt(c, o), round))));
    }
    return None;
  }

  /** The loop variables agree with the log so far: another round may start at
      `now` unless the context has ended. */
  ghost predicate Ready(c: Clock, o: PollOptions, log: seq<Round<CallError>>, now: nat, delay: Int64,
                        lastResp: Option<Envelope>) {
    if log == [] then now == 0 && delay == o.initialDelay && lastResp == None
    else
      var r := log[|log| - 1];
      !Expired(c, o, r.end) && KeepsPolling(true, r.result) && now == WakeTime(c, r.end, r.delay, |log|)
      && !Expired(c, o, now) && delay == NextDelay(o, r.delay) && lastResp == r.result.resp
  }

  lemma NothingYet(w: World, id: string, start: seq<Event>, o: PollOptions)
    ensures start + RunEvents(w, id, 0) == start && Answered(w, id, [])
    ensures IsLog<CallError>(w.clock, o, true, []) && Ready(w.clock, o, [], 0, o.initialDelay, None)
  {
  }

  /** A run can stop at the head of the loop only before its first round. */
  lemma ReadyToStop(c: Clock, o: PollOptions, log: seq<Round<CallError>>, now: nat, delay: Int64,
                    lastResp: Option<Envelope>)
    requires Usable(o) && Ready(c, o, log, now, delay, lastResp)
    ensures Expired(c, o, now) ==>
              Stops(c, o, true, log)
              && Conclusion(c, o, true, log) == PollOutcome(lastResp, Some(StopError(c, now, |log|)))
    ensures log != [] ==> log[|log| - 1].result.Got?
  {
  }

  lemma AnsweredGrows(w: World, id: string, log: seq<Round<CallError>>, r: Round<CallError>)
    requires Answered(w, id, log) && r.result == RoundAnswer(w, |log| + 1, id)
    ensures Answered(w, id, log + [r])
  {
  }

  lemma LogGrows(c: Clock, o: PollOptions, log: seq<Round<CallError>>, now: nat, delay: Int64,
                 lastResp: Option<Envelope>, resp: RoundResult<CallError>)
    requires IsLog(c, o, true, log) && Ready(c, o, log, now, delay, lastResp) && !Expired(c, o, now)
    ensures IsLog(c, o, true, log + [Round(now, now + c.took(|log| + 1) + 1, resp, delay)])
  {
    var longer := log + [Round(now, now + c.took(|log| + 1) + 1, resp, delay)];
    forall i | 0 <= i < |longer| - 1
      ensures Follows(c, o, true, longer[i], longer[i + 1], i + 1)
    {
      if i < |log| - 1 {
        assert Follows(c, o, true, log[i], log[i + 1], i + 1);
      }
    }
  }

  // ---------- Poll and retry together ----------

  lemma CallCounts(c: Client, s: Script, body: string, extra: seq<Header>, k: nat)
    requires s.sign.Signature? && k >= 1
    ensures SignedCount(CallEvents(c, s, body, body, extra, k)) == 1
    ensures SentCount(CallEvents(c, s, body, body, extra, k)) <= k
  {
    var headers := AllHeaders(OwnHeaders(s.sign.authorization, c.userAgent), Canonical(extra));
    AttemptsAreAlike(Delays(c, s), s, headers, body, k);
    CountsAppend([Signed(body)], AttemptEvents(Delays(c, s), s, headers, body, k));
    CountsOfOne(Signed(body));
  }

  /** A round of an acceptable request signs exactly once and makes at most
      MaxAttempts requests; another round does nothing. */
  lemma RoundCounts(w: World, n: nat, id: string)
    requires w.client.Valid()
    ensures SignedCount(RoundEvents(w, n, id)) == if Acceptable(w, id) then 1 else 0
    ensures SentCount(RoundEvents(w, n, id)) <= if Acceptable(w, id) then w.client.policy.maxAttempts else 0
  {
    if Acceptable(w, id) {
      var s, body := w.script(n), w.encode(RequestWith(w, id));
      CountsOfOne(Signed(body));
      if s.sign.Signature? {
        var k := EndExists(w.client, s);
        CallCounts(w.client, s, body, SessionHeader(w), k);
      }
    }
  }

  lemma CountsOfNone()
    ensures SignedCount([]) == 0 && SentCount([]) == 0
  {
  }

  /** Over a whole polling run of an acceptable request: exactly one signature per
      round, and at most MaxAttempts requests for each; otherwise none at all. */
  lemma {:induction false} RunCounts(w: World, id: string, n: nat)
    requires w.client.Valid()
    ensures SignedCount(RunEvents(w, id, n)) == if Acceptable(w, id) then n else 0
    ensures SentCount(RunEvents(w, id, n)) <= if Acceptable(w, id) then n * w.client.policy.maxAttempts else 0
  {
    hide RoundEvents, Acceptable, SignedCount, SentCount;
    if n == 0 {
      CountsOfNone();
    } else {
      RunCounts(w, id, n - 1);
      RoundCounts(w, n, id);
      CountsAppend(RunEvents(w, id, n - 1), RoundEvents(w, n, id));
      OneMore(n - 1, w.client.policy.maxAttempts);
    }
  }

  /** A request is sent exactly when it keeps the rules of its endpoint. */
  lemma AcceptableIff(w: World, id: string)
    ensures Acceptable(w, id)
       <==> match w.endpoint
            case Auth => SubOrders.AuthRules(w.fields.(requestId := id))
            case Capture => SubOrders.CaptureRules(w.fields.(requestId := id))
  {
    SubOrders.AuthAcceptedIff(RequestWith(w, id));
    SubOrders.CaptureAcceptedIff(RequestWith(w, id));
  }

  /** What is signed in a round is the request body itself. */
  lemma RoundSignsBody(w: World, n: nat, id: string, e: Event)
    requires w.client.Valid() && e in RoundEvents(w, n, id) && e.Signed?
    ensures e.canonical == w.encode(w.fields.(requestId := id))
  {
    var s, body := w.script(n), w.encode(RequestWith(w, id));
    if s.sign.Signature? {
      var k := EndExists(w.client, s);
      CallSignsBody(w.client, s, body, SessionHeader(w), k, e);
    }
  }

  lemma CallSignsBody(c: Client, s: Script, body: string, extra: seq<Header>, k: nat, e: Event)
    requires s.sign.Signature? && k >= 1 && e in CallEvents(c, s, body, body, extra, k) && e.Signed?
    ensures e.canonical == body
  {
    var headers := AllHeaders(OwnHeaders(s.sign.authorization, c.userAgent), Canonical(extra));
    var t := AttemptEvents(Delays(c, s), s, headers, body, k);
    AttemptsAreAlike(Delays(c, s), s, headers, body, k);
    SignedInNone(t, e);
  }

  lemma {:induction false} SignedInNone(t: seq<Event>, e: Event)
    requires SignedCount(t) == 0 && e.Signed?
    ensures e !in t
  {
    if t != [] {
      SignedInNone(t[..|t| - 1], e);
      assert t == t[..|t| - 1] + [t[|t| - 1]];
    }
  }

  /** Every request of a round carries the one request body and the one
      Authorization value signed in that round, and on /auth the session id. */
  lemma RoundRequestsAreAlike(w: World, n: nat, id: string, e: Event)
    requires w.client.Valid() && e in RoundEvents(w, n, id) && e.Sent?
    ensures e.payload == w.encode(w.fields.(requestId := id)) && w.script(n).sign.Signature?
    ensures "Authorization" in e.headers && e.headers["Authorization"] == [w.script(n).sign.authorization]
    ensures w.endpoint.Auth? ==> "Sessionid" in e.headers && e.headers["Sessionid"] == [w.fields.sessionid]
    ensures w.endpoint.Capture? ==> e.headers.Keys == OWNED
  {
    var s, body := w.script(n), w.encode(RequestWith(w, id));
    if s.sign.Signature? {
      var k := EndExists(w.client, s);
      AcceptableIff(w, id);
      SessionIsSent(w, s.sign.authorization);
      hide SubOrders.AuthRules, SubOrders.CaptureRules, AllHeaders, OwnHeaders;
      CallRequestsAreAlike(w.client, s, body, SessionHeader(w), k, e);
    }
  }

  lemma SessionIsSent(w: World, authValue: string)
    ensures var h := AllHeaders(OwnHeaders(authValue, w.client.userAgent), Canonical(SessionHeader(w)));
            && "Authorization" in h && h["Authorization"] == [authValue]
            && (w.endpoint.Auth? && w.fields.sessionid != "" ==> "Sessionid" in h && h["Sessionid"] == [w.fields.sessionid])
            && (w.endpoint.Capture? ==> h.Keys == OWNED)
  {
    var own, extra := OwnHeaders(authValue, w.client.userAgent), Canonical(SessionHeader(w));
    OwnedAlways(authValue, w.client.userAgent, SessionHeader(w));
    if w.endpoint.Auth? && w.fields.sessionid != "" {
      SessionidIsCanonical();
      hide CanonicalHeaderKey;
      assert extra[0] == Header("Sessionid", [w.fields.sessionid]);
      ExtraHeadersAreSent(own, extra, 0);
    } else {
      assert extra == [];
    }
  }

  lemma SessionidIsCanonical()
    ensures CanonicalHeaderKey("sessionid") == "Sessionid"
  {
    assert IsToken("Sessionid");
    assert IsTitled("Sessionid");
    CanonicalAlready("Sessionid");
    SessionidSpellings();
    hide IsToken, IsTitled, CanonicalHeaderKey, SameIgnoringCase;
    SpellingsAgree("Sessionid", "sessionid");
  }

  lemma SessionidSpellings()
    ensures SameIgnoringCase("Sessionid", "sessionid")
  {
    hide UPPER, LOWER, SameLetter;
    SameLetterIff('S', 's');
    var a, b := "Sessionid", "sessionid";
    forall i | 0 < i < |a|
      ensures SameLetter(a[i], b[i])
    {
      SameLetterIff(a[i], b[i]);
    }
  }

  lemma CallRequestsAreAlike(c: Client, s: Script, body: string, extra: seq<Header>, k: nat, e: Event)
    requires s.sign.Signature? && k >= 1 && e in CallEvents(c, s, body, body, extra, k) && e.Sent?
    ensures e.payload == body
    ensures e.headers == AllHeaders(OwnHeaders(s.sign.authorization, c.userAgent), Canonical(extra))
  {
    var headers := AllHeaders(OwnHeaders(s.sign.authorization, c.userAgent), Canonical(extra));
    var t := AttemptEvents(Delays(c, s), s, headers, body, k);
    AttemptsAreAlike(Delays(c, s), s, headers, body, k);
    assert e in t;
    var i :| 0 <= i < |t| && t[i] == e;
  }

  lemma {:induction false} RoundOfEvent(w: World, id: string, n: nat, e: Event) returns (i: nat)
    requires e in RunEvents(w, id, n)
    ensures 1 <= i <= n && e in RoundEvents(w, i, id)
  {
    if e in RoundEvents(w, n, id) {
      i := n;
    } else {
      i := RoundOfEvent(w, id, n - 1, e);
    }
  }

  lemma RunRequestsAreAlike(w: World, id: string, n: nat, e: Event) returns (i: nat)
    requires w.client.Valid() && e in RunEvents(w, id, n) && e.Sent?
    ensures 1 <= i <= n && e in RoundEvents(w, i, id)
    ensures e.payload == w.encode(w.fields.(requestId := id)) && w.script(i).sign.Signature?
    ensures "Authorization" in e.headers && e.headers["Authorization"] == [w.script(i).sign.authorization]
  {
    i := RoundOfEvent(w, id, n, e);
    RoundRequestsAreAlike(w, i, id, e);
  }

  /** A nil error comes only with a terminal response that the network gave in the
      last round: a complete reply of status below 400, decoded; and every earlier
      round was given a complete reply that was neither terminal nor rejected. */
  lemma NilErrorIsTerminalReply(w: World, o: PollOptions, id: string, log: seq<Round<CallError>>)
    requires Usable(o) && IsLog(w.clock, o, true, log) && Answered(w, id, log)
    requires Conclusion(w.clock, o, true, log).err.None?
    ensures log != [] && Acceptable(w, id)
    ensures var resp := Conclusion(w.clock, o, true, log).resp;
            resp.Some? && resp.value.status in {"SUCCESS", "FAILED"} && Replied(w, |log|, resp.value)
    ensures forall i | 1 <= i < |log| :: LeftOpen(w, i)
  {
    NilErrorIsFirstTerminal(w.clock, o, true, log);
    var last := log[|log| - 1];
    assert last.result == RoundAnswer(w, |log|, id);
    ReplyOfRound(w, |log|, id);
    forall i | 1 <= i < |log|
      ensures LeftOpen(w, i)
    {
      assert log[i - 1].result == RoundAnswer(w, i, id) && KeepsPolling(true, log[i - 1].result);
      ReplyOfRound(w, i, id);
    }
  }

  /** Round n's call succeeded, and its body decodes to `e`. */
  predicate Replied(w: World, n: nat, e: Envelope) {
    CallAnswer(w.client, w.script(n)).Response? && w.decode(CallAnswer(w.client, w.script(n)).body) == Some(e)
  }

  /** Round n was given a reply that is neither terminal nor a rejection. */
  predicate LeftOpen(w: World, n: nat) {
    && CallAnswer(w.client, w.script(n)).Response?
    && var e := w.decode(CallAnswer(w.client, w.script(n)).body);
       && e.Some? && e.value.status !in {"SUCCESS", "FAILED"}
       && !(e.value.status == "" && e.value.code !in {"", "SUCCESS"})
  }

  lemma ReplyOfRound(w: World, n: nat, id: string)
    requires RoundAnswer(w, n, id).Got?
    ensures Acceptable(w, id) && RoundAnswer(w, n, id).resp.Some? && Replied(w, n, RoundAnswer(w, n, id).resp.value)
  {
  }
}
