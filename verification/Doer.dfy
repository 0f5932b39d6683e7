/** atomefin/doer.go: one signed call, sign once and then attempt with retries,
    over a scripted network. */
module Doer {
  import opened Wrappers
  import opened Int64
  import opened Backoff
  import opened Strings

  // ---------- The scripted environment ----------

  /** A response body: the bytes that arrive, and the error that ends the
      stream instead of EOF, if any. */
  datatype Stream = Stream(data: string, fault: Option<NetError>)

  datatype Attempt =
    | BuildFails
    | DoFails(err: NetError)
    | Replies(status: int, stream: Stream)

  datatype SignOutcome = Signature(authorization: string) | SignFails(contextDone: bool)

  /** What the outside world does during one call. `ctxDone(i)` tells whether
      the caller's context has ended by the end of attempt i, `interrupted(i)`
      whether it ends during the sleep after attempt i. */
  datatype Script = Script(
    sign: SignOutcome,
    attempt: nat -> Attempt,
    ctxDone: nat -> bool,
    interrupted: nat -> bool,
    draw: nat -> Option<real>)

  datatype Header = Header(name: string, values: seq<string>)

  datatype Client = Client(
    policy: RetryPolicy,
    maxRespBytes: Int64,
    userAgent: string,
    codeOf: string -> string) {
    predicate Valid() {
      Validate(policy).None?
    }
  }

  // ---------- Results and events ----------

  datatype CallResult =
    | Response(status: int, body: string)
    | TransportError(op: string, retry: bool)
    | APIError(httpStatus: int, code: string, raw: string)
    | SignatureError

  type Headers = map<string, seq<string>>

  datatype Event =
    | Signed(canonical: string)
    | Sent(attempt: nat, headers: Headers, payload: string)
    | Slept(attempt: nat, delay: int)

  // ---------- Headers ----------

  function UpperChar(c: char): char {
    if 'a' <= c <= 'z' then (c as int - 32) as char else c
  }

  function LowerChar(c: char): char {
    if 'A' <= c <= 'Z' then (c as int + 32) as char else c
  }

  predicate TokenChar(c: char) {
    'A' <= c <= 'Z' || 'a' <= c <= 'z' || '0' <= c <= '9' || c in "!#$%&'*+-.^_`|~"
  }

  predicate IsToken(name: string) {
    forall i | 0 <= i < |name| :: TokenChar(name[i])
  }

  predicate StartsWord(name: string, i: nat)
    requires i < |name|
  {
    i == 0 || name[i - 1] == '-'
  }

  function CanonicalChar(name: string, i: nat): char
    requires i < |name|
  {
    if StartsWord(name, i) then UpperChar(name[i]) else LowerChar(name[i])
  }

  /** `http.CanonicalHeaderKey`: title case by `-`, or the name unchanged when it
      is not a token. */
  function CanonicalHeaderKey(name: string): string {
    if IsToken(name) then
      seq(|name|, i requires 0 <= i < |name| => CanonicalChar(name, i))
    else name
  }

  const RESERVED := {"Authorization", "Content-Type", "User-Agent", "Accept"}

  /** The headers the SDK owns. */
  function OwnHeaders(authValue: string, userAgent: string): Headers {
    map["Authorization" := [authValue],
        "Content-Type" := ["application/json"],
        "Accept" := ["application/json"],
        "User-Agent" := [userAgent]]
  }

  function Canonical(extra: seq<Header>): (r: seq<Header>)
    ensures |r| == |extra|
  {
    seq(|extra|, i requires 0 <= i < |extra| => extra[i].(name := CanonicalHeaderKey(extra[i].name)))
  }

  /** `populateHeaders` and the per-call headers after it. The per-call headers
      come in whatever order the map yields them. */
  method BuildHeaders(authValue: string, userAgent: string, extra: seq<Header>) returns (h: Headers)
    ensures h == AllHeaders(OwnHeaders(authValue, userAgent), Canonical(extra))
  {
    h := map[];
    h := h["Authorization" := [authValue]];
    h := h["Content-Type" := ["application/json"]];
    h := h["Accept" := ["application/json"]];
    h := h["User-Agent" := [userAgent]];
    ghost var own := OwnHeaders(authValue, userAgent);
    assert h == own;
    ghost var canonical := Canonical(extra);
    var i := 0;
    while i < |extra|
      invariant 0 <= i <= |extra|
      invariant h == AllHeaders(own, canonical[..i])
    {
      assert canonical[..i + 1][..i] == canonical[..i];
      var key := CanonicalHeaderKey(extra[i].name);
      if key !in RESERVED {
        h := h[key := extra[i].values];
      }
      i := i + 1;
    }
    assert canonical[..i] == canonical;
  }

  /** The owned headers overlaid with per-call headers of canonical name. */
  function AllHeaders(own: Headers, extra: seq<Header>): Headers {
    if extra == [] then own
    else
      var h, last := AllHeaders(own, extra[..|extra| - 1]), extra[|extra| - 1];
      if last.name in RESERVED then h else h[last.name := last.values]
  }

  /** No per-call header can touch the headers the SDK owns. */
  lemma {:induction false} HeadersAreOwned(own: Headers, extra: seq<Header>)
    ensures var h := AllHeaders(own, extra);
            forall k | k in RESERVED :: (k in h <==> k in own) && (k in h ==> h[k] == own[k])
  {
    if extra != [] {
      HeadersAreOwned(own, extra[..|extra| - 1]);
    }
  }

  /** Every other per-call header is sent, with the value given last. */
  lemma {:induction false} ExtraHeadersAreSent(own: Headers, extra: seq<Header>, i: nat)
    requires i < |extra| && extra[i].name !in RESERVED
    requires forall j | i < j < |extra| :: extra[j].name != extra[i].name
    ensures extra[i].name in AllHeaders(own, extra) && AllHeaders(own, extra)[extra[i].name] == extra[i].values
  {
    if i < |extra| - 1 {
      ExtraHeadersAreSent(own, extra[..|extra| - 1], i);
    }
  }

  // ---------- However a header is spelled ----------

  /** The characters of a header name (section 5.6.2 of RFC 9110). */
  lemma TokenCharIff(c: char)
    ensures TokenChar(c) <==> c in UPPER || c in LOWER || c in DIGITS || c in "!#$%&'*+-.^_`|~"
  {
    InAlphabets(c);
    hide UPPER, LOWER, DIGITS;
  }

  /** The canonical form of a name differs from it in the case of letters only: a
      letter is large at the start and after a hyphen, and small elsewhere. */
  lemma CanonicalShape(name: string)
    ensures SameIgnoringCase(name, CanonicalHeaderKey(name))
    ensures !IsToken(name) ==> CanonicalHeaderKey(name) == name
    ensures IsToken(name) ==>
              forall i | 0 <= i < |name| :: CanonicalHeaderKey(name)[i] !in if StartsWord(name, i) then LOWER else UPPER
  {
    hide UPPER, LOWER, UpperChar, LowerChar, IsToken, SameLetter, StartsWord;
    forall i | 0 <= i < |name|
      ensures SameLetter(name[i], CanonicalHeaderKey(name)[i])
      ensures IsToken(name) ==> CanonicalHeaderKey(name)[i] !in if StartsWord(name, i) then LOWER else UPPER
    {
      CaseForms(name[i]);
    }
  }

  lemma CaseForms(c: char)
    ensures SameLetter(c, c) && SameLetter(c, UpperChar(c)) && SameLetter(c, LowerChar(c))
    ensures UpperChar(c) !in LOWER && LowerChar(c) !in UPPER
  {
    hide UPPER, LOWER, SameLetter;
    SameLetterIff(c, c);
    SameLetterIff(c, UpperChar(c));
    SameLetterIff(c, LowerChar(c));
    InAlphabets(UpperChar(c));
    InAlphabets(LowerChar(c));
  }

  lemma SpellingsAgreeAt(a: string, b: string, i: nat)
    requires SameIgnoringCase(a, b) && i < |a|
    ensures UpperChar(a[i]) == UpperChar(b[i]) && LowerChar(a[i]) == LowerChar(b[i])
    ensures TokenChar(a[i]) <==> TokenChar(b[i])
    ensures a[i] == '-' <==> b[i] == '-'
  {
    SameLetterIff(a[i], b[i]);
  }

  /** Two spellings of one name have the same canonical form. */
  lemma SpellingsAgree(a: string, b: string)
    requires SameIgnoringCase(a, b) && IsToken(a)
    ensures CanonicalHeaderKey(a) == CanonicalHeaderKey(b)
  {
    hide SameIgnoringCase, UpperChar, LowerChar, TokenChar;
    SameLength(a, b);
    forall i | 0 <= i < |a|
      ensures CanonicalChar(a, i) == CanonicalChar(b, i) && (TokenChar(a[i]) <==> TokenChar(b[i]))
    {
      SpellingsAgreeAt(a, b, i);
      if i > 0 {
        SpellingsAgreeAt(a, b, i - 1);
      }
    }
  }

  lemma SameLength(a: string, b: string)
    requires SameIgnoringCase(a, b)
    ensures |a| == |b|
  {
  }

  const OWNED := {"Authorization", "Content-Type", "User-Agent", "Accept"}

  /** A per-call header is dropped exactly when its name is one of the four owned
      ones in some spelling. */
  lemma ReservedIff(name: string)
    ensures CanonicalHeaderKey(name) in RESERVED <==> exists own :: own in OWNED && SameIgnoringCase(name, own)
  {
    CanonicalShape(name);
    OwnedAreCanonical();
    forall own | own in OWNED && SameIgnoringCase(name, own)
      ensures CanonicalHeaderKey(name) == own
    {
      SpellingIsSymmetric(name, own);
      SpellingsAgree(own, name);
    }
  }

  lemma SpellingIsSymmetric(a: string, b: string)
    requires SameIgnoringCase(a, b)
    ensures SameIgnoringCase(b, a)
  {
    forall i | 0 <= i < |a|
      ensures SameLetter(b[i], a[i])
    {
      SameLetterIff(a[i], b[i]);
      SameLetterIff(b[i], a[i]);
    }
  }

  /** The letter at the start, or after a hyphen, is not small, and no other large. */
  predicate IsTitled(name: string) {
    forall i | 0 <= i < |name| ::
      if StartsWord(name, i) then !('a' <= name[i] <= 'z') else !('A' <= name[i] <= 'Z')
  }

  lemma CanonicalAlready(name: string)
    requires IsToken(name) && IsTitled(name)
    ensures CanonicalHeaderKey(name) == name
  {
    hide IsToken, StartsWord;
  }

  lemma OwnedAreCanonical()
    ensures forall own | own in OWNED :: IsToken(own) && CanonicalHeaderKey(own) == own
  {
    hide CanonicalHeaderKey;
    OwnedAreTokens();
    TitledAuthorization();
    TitledContentType();
    TitledUserAgent();
    hide IsToken, IsTitled;
    forall own | own in OWNED {
      CanonicalAlready(own);
    }
  }

  lemma OwnedAreTokens()
    ensures IsToken("Authorization") && IsToken("Content-Type") && IsToken("User-Agent") && IsToken("Accept")
  {
  }

  lemma TitledAuthorization()
    ensures IsTitled("Authorization")
  {
  }

  lemma TitledContentType()
    ensures IsTitled("Content-Type")
  {
  }

  lemma TitledUserAgent()
    ensures IsTitled("User-Agent") && IsTitled("Accept")
  {
  }

  /** So every request carries the four owned values, whatever headers a call adds. */
  lemma OwnedAlways(authValue: string, userAgent: string, extra: seq<Header>)
    ensures var h := AllHeaders(OwnHeaders(authValue, userAgent), Canonical(extra));
            && "Authorization" in h && h["Authorization"] == [authValue]
            && "Content-Type" in h && h["Content-Type"] == ["application/json"]
            && "Accept" in h && h["Accept"] == ["application/json"]
            && "User-Agent" in h && h["User-Agent"] == [userAgent]
  {
    HeadersAreOwned(OwnHeaders(authValue, userAgent), Canonical(extra));
  }

  // ---------- One attempt ----------

  datatype ReadResult = Whole(body: string) | TooLarge | Broken(err: NetError)

  function Limit(maxRespBytes: Int64): Int64 {
    if maxRespBytes <= 0 then 4 * 1024 * 1024 else maxRespBytes
  }

  /** `readAndClose`: at most one byte past the limit is read, unless "one past
      the limit" wraps: a reader limited to a negative count delivers nothing. */
  function ReadAndClose(s: Stream, maxRespBytes: Int64): ReadResult {
    var quota := Wrap(Limit(maxRespBytes) + 1);
    if quota <= 0 then Whole("")
    else if |s.data| >= quota then TooLarge
    else if s.fault.Some? then Broken(s.fault.value)
    else Whole(s.data)
  }

  function IsRetryableTransport(err: NetError): bool {
    !err.Canceled?
  }

  function RetryTransport(c: Client, err: NetError, ctxDone: bool): bool {
    !ctxDone && c.policy.retryOnTransportError(err) && IsRetryableTransport(err)
  }

  /** `dispatchAttempt`: the result of an attempt and whether to try again. */
  function DispatchAttempt(c: Client, a: Attempt, ctxDone: bool, attempt: nat): (CallResult, bool) {
    match a
    case BuildFails => (TransportError("build", false), false)
    case DoFails(err) =>
      var retryable := RetryTransport(c, err, ctxDone);
      (TransportError("do", retryable), retryable)
    case Replies(status, stream) =>
      match ReadAndClose(stream, c.maxRespBytes)
      case TooLarge => (TransportError("read", false), false)
      case Broken(err) =>
        var retryable := (status < 400 || c.policy.retryOnStatus(status)) && RetryTransport(c, err, ctxDone);
        (TransportError("read", retryable), retryable)
      case Whole(body) =>
        if c.policy.retryOnStatus(status) && attempt < c.policy.maxAttempts then
          (APIError(status, c.codeOf(body), body), true)
        else if status >= 400 then (APIError(status, c.codeOf(body), body), false)
        else (Response(status, body), false)
  }

  function AttemptAt(c: Client, s: Script, i: nat): (CallResult, bool) {
    DispatchAttempt(c, s.attempt(i), s.ctxDone(i), i)
  }

  // ---------- The retry loop ----------

  /** The call goes on to another attempt after attempt i. */
  predicate GoesOn(c: Client, s: Script, i: nat) {
    && !AttemptAt(c, s, i).0.Response? && AttemptAt(c, s, i).1
    && i < c.policy.maxAttempts && !s.interrupted(i)
  }

  /** `k` is the attempt the call ends with: the first after which it does not
      go on. */
  ghost predicate EndsAt(c: Client, s: Script, k: nat) {
    1 <= k <= c.policy.maxAttempts && !GoesOn(c, s, k) && GoesOnUntil(c, s, k)
  }

  ghost predicate GoesOnUntil(c: Client, s: Script, k: nat) {
    forall j | 1 <= j < k :: GoesOn(c, s, j)
  }

  /** What a call that ends with attempt k returns. */
  function ResultAt(c: Client, s: Script, k: nat): CallResult {
    var (r, retryable) := AttemptAt(c, s, k);
    if r.Response? || !retryable || k == c.policy.maxAttempts then r
    else TransportError("sleep", false)
  }

  function SendEvents(s: Script, headers: Headers, payload: string, i: nat): seq<Event> {
    if s.attempt(i).BuildFails? then [] else [Sent(i, headers, payload)]
  }

  /** The delays the policy computes over a call. */
  function Delays(c: Client, s: Script): nat -> int {
    (i: nat) => Delay(c.policy, i, s.draw(i))
  }

  ghost predicate Timed(c: Client, s: Script, delays: nat -> int) {
    forall i: nat {:trigger Delay(c.policy, i, s.draw(i))} :: delays(i) == Delay(c.policy, i, s.draw(i))
  }

  /** The events before attempt k: the attempts up to k - 1, each followed by
      one sleep. */
  function EventsBefore(delays: nat -> int, s: Script, headers: Headers, payload: string, k: nat): seq<Event>
    decreases k
  {
    if k <= 1 then []
    else EventsBefore(delays, s, headers, payload, k - 1)
         + SendEvents(s, headers, payload, k - 1) + [Slept(k - 1, delays(k - 1))]
  }

  /** The events of attempts 1 to k: one sleep after each attempt but the last. */
  function AttemptEvents(delays: nat -> int, s: Script, headers: Headers, payload: string, k: nat): seq<Event> {
    EventsBefore(delays, s, headers, payload, k) + SendEvents(s, headers, payload, k)
  }

  /** All events of a call that was signed and ended with attempt k. */
  function CallEvents(c: Client, s: Script, canonical: string, payload: string, extra: seq<Header>, k: nat): seq<Event>
    requires s.sign.Signature?
  {
    [Signed(canonical)]
    + AttemptEvents(Delays(c, s), s, AllHeaders(OwnHeaders(s.sign.authorization, c.userAgent), Canonical(extra)), payload, k)
  }

  /** The attempt a call ends with, looking from attempt i on. */
  function EndFrom(c: Client, s: Script, i: nat): nat
    decreases c.policy.maxAttempts - i
  {
    if i < c.policy.maxAttempts && GoesOn(c, s, i) then EndFrom(c, s, i + 1) else i
  }

  function EndOf(c: Client, s: Script): nat {
    EndFrom(c, s, 1)
  }

  /** What a whole call returns, and what it does. */
  function CallAnswer(c: Client, s: Script): CallResult {
    if s.sign.SignFails? then if s.sign.contextDone then TransportError("sign", false) else SignatureError
    else ResultAt(c, s, EndOf(c, s))
  }

  function CallTrace(c: Client, s: Script, canonical: string, payload: string, extra: seq<Header>): seq<Event> {
    if s.sign.SignFails? then [Signed(canonical)]
    else CallEvents(c, s, canonical, payload, extra, EndOf(c, s))
  }

  /** The network side of a client: everything it did, in order. */
  class Network {
    ghost var trace: seq<Event>

    constructor ()
      ensures trace == []
    {
      trace := [];
    }

    /** `signAndDispatch`. `last` is the attempt the call ended with, 0 when
        signing failed. */
    method SignAndDispatch(c: Client, s: Script, canonical: string, payload: string, extra: seq<Header>)
        returns (r: CallResult, ghost last: nat)
      requires c.Valid()
      modifies this
      ensures s.sign.SignFails? ==>
                last == 0 && trace == old(trace) + [Signed(canonical)]
                && r == (if s.sign.contextDone then TransportError("sign", false) else SignatureError)
      ensures s.sign.Signature? ==>
                EndsAt(c, s, last) && r == ResultAt(c, s, last)
                && trace == old(trace) + CallEvents(c, s, canonical, payload, extra, last)
      ensures r == CallAnswer(c, s) && trace == old(trace) + CallTrace(c, s, canonical, payload, extra)
    {
      trace := trace + [Signed(canonical)];
      if s.sign.SignFails? {
        r := if s.sign.contextDone then TransportError("sign", false) else SignatureError;
        last := 0;
        return;
      }
      ghost var before := trace;
      ghost var headers := AllHeaders(OwnHeaders(s.sign.authorization, c.userAgent), Canonical(extra));
      ghost var delays := Delays(c, s);
      r, last := RetryLoop(c, s, s.sign.authorization, payload, extra, headers, delays);
      ghost var k := EndExists(c, s);
      EndIsUnique(c, s, k, last);
      assert old(trace) + [Signed(canonical)] + AttemptEvents(delays, s, headers, payload, last)
          == old(trace) + ([Signed(canonical)] + AttemptEvents(delays, s, headers, payload, last));
    }

    method RetryLoop(c: Client, s: Script, authValue: string, payload: string, extra: seq<Header>,
                     ghost headers: Headers, ghost delays: nat -> int)
        returns (r: CallResult, ghost last: nat)
      requires Timed(c, s, delays) && 1 <= c.policy.maxAttempts
      requires headers == AllHeaders(OwnHeaders(authValue, c.userAgent), Canonical(extra))
      modifies this
      ensures EndsAt(c, s, last) && r == ResultAt(c, s, last)
      ensures trace == old(trace) + AttemptEvents(delays, s, headers, payload, last)
    {
      hide GoesOn, SendEvents, AllHeaders, Delay;
      var attempt := 1;
      while true
        invariant 1 <= attempt <= c.policy.maxAttempts
        invariant GoesOnUntil(c, s, attempt)
        invariant trace == old(trace) + EventsBefore(delays, s, headers, payload, attempt)
        decreases c.policy.maxAttempts - attempt
      {
        Send(c, s, authValue, payload, extra, headers, attempt);
        var res, again := Judge(c, s, attempt);
        if !again {
          return res, attempt;
        }
        Sleep(c, s, delays, attempt);
        attempt := attempt + 1;
      }
    }

    /** The branches after an attempt: return its result, or the sleep's error,
        or go around again. */
    method Judge(c: Client, s: Script, attempt: nat) returns (r: CallResult, again: bool)
      requires attempt <= c.policy.maxAttempts
      ensures again <==> GoesOn(c, s, attempt)
      ensures again ==> attempt < c.policy.maxAttempts
      ensures !again ==> r == ResultAt(c, s, attempt)
    {
      var (res, retryable) := AttemptAt(c, s, attempt);
      if res.Response? || !retryable || attempt == c.policy.maxAttempts {
        return res, false;
      }
      if s.interrupted(attempt) {
        return TransportError("sleep", false), false;
      }
      return res, true;
    }

    method Sleep(c: Client, s: Script, ghost delays: nat -> int, attempt: nat)
      requires Timed(c, s, delays)
      modifies this
      ensures trace == old(trace) + [Slept(attempt, delays(attempt))]
    {
      var d := Backoff.Backoff(c.policy, attempt, s.draw(attempt));
      trace := trace + [Slept(attempt, d)];
    }

    /** The request of one attempt, with its freshly built headers. */
    method Send(c: Client, s: Script, authValue: string, payload: string, extra: seq<Header>, ghost headers: Headers,
                attempt: nat)
      requires headers == AllHeaders(OwnHeaders(authValue, c.userAgent), Canonical(extra))
      modifies this
      ensures trace == old(trace) + SendEvents(s, headers, payload, attempt)
    {
      if s.attempt(attempt).BuildFails? {
        assert trace + [] == trace;
      } else {
        var h := BuildHeaders(authValue, c.userAgent, extra);
        trace := trace + [Sent(attempt, h, payload)];
      }
    }
  }

  // ---------- What a call promises ----------

  /** Every script of a valid client determines the one attempt its call ends
      with. */
  lemma EndExists(c: Client, s: Script) returns (k: nat)
    requires c.Valid()
    ensures EndsAt(c, s, k) && k == EndOf(c, s)
  {
    k := EndOf(c, s);
    EndFromEnds(c, s, 1);
  }

  lemma {:induction false} EndFromEnds(c: Client, s: Script, i: nat)
    requires 1 <= i <= c.policy.maxAttempts && GoesOnUntil(c, s, i)
    ensures EndsAt(c, s, EndFrom(c, s, i))
    decreases c.policy.maxAttempts - i
  {
    hide AttemptAt;
    if i < c.policy.maxAttempts && GoesOn(c, s, i) {
      EndFromEnds(c, s, i + 1);
    }
  }

  lemma EndIsUnique(c: Client, s: Script, k: nat, k': nat)
    requires EndsAt(c, s, k) && EndsAt(c, s, k')
    ensures k == k'
  {
  }

  /** The largest int64 as the limit on response bodies. */
  predicate LimitWraps(c: Client) {
    c.maxRespBytes == TWO_63 - 1
  }

  /** A call that succeeds ended with a reply of status below 400, whose whole
      body, within the limit, is the result. The one exception is a limit of
      2^63 - 1, under which every body reads as empty. */
  lemma SuccessIsComplete(c: Client, s: Script, k: nat)
    requires EndsAt(c, s, k) && ResultAt(c, s, k).Response?
    ensures s.attempt(k).Replies? && ResultAt(c, s, k).status == s.attempt(k).status < 400
    ensures !LimitWraps(c) ==> s.attempt(k).stream.fault.None? && |ResultAt(c, s, k).body| <= Limit(c.maxRespBytes)
    ensures s.attempt(k).stream == Stream(ResultAt(c, s, k).body, None)
       <==> !LimitWraps(c) || s.attempt(k).stream == Stream("", None)
  {
    WrapCongruent(Limit(c.maxRespBytes) + 1);
  }

  /** With that limit a reply with a body is reported as a success without one. */
  lemma LargestLimitLosesBody(c: Client, s: Script)
    requires LimitWraps(c) && c.policy.maxAttempts >= 1 && !c.policy.retryOnStatus(200)
    requires s.attempt(1) == Replies(200, Stream("{}", None))
    ensures EndsAt(c, s, 1) && ResultAt(c, s, 1) == Response(200, "")
  {
  }

  /** A transport error the caller may take as temporary means that every
      attempt the policy allows was made. */
  lemma TemporaryTransportMeansExhausted(c: Client, s: Script, k: nat)
    requires EndsAt(c, s, k) && ResultAt(c, s, k).TransportError? && ResultAt(c, s, k).retry
    ensures k == c.policy.maxAttempts
  {
  }

  const SERVER_SIDE := {500, 502, 503, 504}

  /** `APIError.Temporary`. */
  predicate TemporaryAPI(r: CallResult) {
    r.APIError? && (r.code == "SERVER_ERROR" || r.httpStatus in SERVER_SIDE)
  }

  lemma TemporaryIff(status: int, code: string, raw: string)
    ensures TemporaryAPI(APIError(status, code, raw))
       <==> code == "SERVER_ERROR" || status == 500 || status == 502 || status == 503 || status == 504
  {
  }

  /** An API error with a status the policy retries means that every attempt was
      made; so one that ends the call early has a status the policy does not
      retry. */
  lemma RetriedStatusMeansExhausted(c: Client, s: Script, k: nat)
    requires EndsAt(c, s, k) && ResultAt(c, s, k).APIError?
    ensures s.attempt(k).Replies? && ResultAt(c, s, k).httpStatus == s.attempt(k).status >= 400
    ensures c.policy.retryOnStatus(ResultAt(c, s, k).httpStatus) ==> k == c.policy.maxAttempts
  {
  }

  /** Every reply the client would call temporary has a status the policy
      retries. */
  ghost predicate RetriesTemporary(c: Client) {
    forall status: int, body: string | status >= 400 && Readable(c, body) && TemporaryAPI(APIError(status, c.codeOf(body), body)) ::
      c.policy.retryOnStatus(status)
  }

  predicate Readable(c: Client, body: string) {
    ReadAndClose(Stream(body, None), c.maxRespBytes) == Whole(body)
  }

  /** Once the client can read a body with the code SERVER_ERROR, that means every
      status of 400 and above. */
  lemma RetriesTemporaryIff(c: Client, body: string)
    requires Readable(c, body) && c.codeOf(body) == "SERVER_ERROR"
    ensures RetriesTemporary(c) <==> forall status: int | status >= 400 :: c.policy.retryOnStatus(status)
  {
    if RetriesTemporary(c) {
      forall status: int | status >= 400
        ensures c.policy.retryOnStatus(status)
      {
        assert TemporaryAPI(APIError(status, c.codeOf(body), body));
      }
    }
  }

  /** The documentation promises that a temporary API error reaching the caller
      means retries were exhausted. For a given client that is so, whatever the
      network does, exactly when there is one attempt to make, or every reply it
      calls temporary has a status its policy retries. */
  lemma TemporaryMeansExhaustedIff(c: Client)
    requires c.Valid()
    ensures (forall s, k | EndsAt(c, s, k) && TemporaryAPI(ResultAt(c, s, k)) :: k == c.policy.maxAttempts)
       <==> c.policy.maxAttempts == 1 || RetriesTemporary(c)
  {
    if c.policy.maxAttempts == 1 || RetriesTemporary(c) {
      forall s, k | EndsAt(c, s, k) && TemporaryAPI(ResultAt(c, s, k))
        ensures k == c.policy.maxAttempts
      {
        TemporaryIsRetried(c, s, k);
      }
    } else {
      var status, body :| status >= 400 && Readable(c, body)
                          && TemporaryAPI(APIError(status, c.codeOf(body), body)) && !c.policy.retryOnStatus(status);
      var s := Always(Replies(status, Stream(body, None)));
      assert EndsAt(c, s, 1) && TemporaryAPI(ResultAt(c, s, 1));
    }
  }

  lemma TemporaryIsRetried(c: Client, s: Script, k: nat)
    requires EndsAt(c, s, k) && TemporaryAPI(ResultAt(c, s, k))
    requires c.policy.maxAttempts == 1 || RetriesTemporary(c)
    ensures k == c.policy.maxAttempts
  {
    var r := ResultAt(c, s, k);
    RetriedStatusMeansExhausted(c, s, k);
    assert Readable(c, r.raw);
  }

  /** The network that answers every attempt alike. */
  function Always(a: Attempt): Script {
    Script(Signature(""), (_: nat) => a, (_: nat) => false, (_: nat) => false, (_: nat) => None)
  }

  /** A 400 whose envelope says SERVER_ERROR is temporary by its own account
      and yet was tried once only. */
  lemma TemporaryAPIErrorAfterOneAttempt(c: Client, s: Script)
    requires c.policy.maxAttempts == 3 && c.policy.retryOnStatus == (status => status in SERVER_SIDE)
    requires s.attempt(1) == Replies(400, Stream("{}", None)) && c.maxRespBytes == 100
    requires c.codeOf("{}") == "SERVER_ERROR"
    ensures EndsAt(c, s, 1) && TemporaryAPI(ResultAt(c, s, 1))
  {
  }

  // ---------- Counting ----------

  function SentCount(t: seq<Event>): nat {
    if t == [] then 0 else SentCount(t[..|t| - 1]) + if t[|t| - 1].Sent? then 1 else 0
  }

  function SignedCount(t: seq<Event>): nat {
    if t == [] then 0 else SignedCount(t[..|t| - 1]) + if t[|t| - 1].Signed? then 1 else 0
  }

  /** Time slept: a delay that is not positive is not waited for. */
  function SleptTotal(t: seq<Event>): nat {
    if t == [] then 0 else SleptTotal(t[..|t| - 1]) + if t[|t| - 1].Slept? then Waited(t[|t| - 1].delay) else 0
  }

  function Waited(delay: int): nat {
    if delay > 0 then delay else 0
  }

  lemma {:induction false} CountsAppend(a: seq<Event>, b: seq<Event>)
    ensures SentCount(a + b) == SentCount(a) + SentCount(b)
    ensures SignedCount(a + b) == SignedCount(a) + SignedCount(b)
    ensures SleptTotal(a + b) == SleptTotal(a) + SleptTotal(b)
  {
    if b == [] {
      assert a + b == a;
    } else {
      assert (a + b)[..|a + b| - 1] == a + b[..|b| - 1];
      CountsAppend(a, b[..|b| - 1]);
    }
  }

  lemma CountsOfOne(e: Event)
    ensures SentCount([e]) == if e.Sent? then 1 else 0
    ensures SignedCount([e]) == if e.Signed? then 1 else 0
    ensures SleptTotal([e]) == if e.Slept? then Waited(e.delay) else 0
  {
    assert [e][..0] == [];
  }

  predicate AllAlike(t: seq<Event>, headers: Headers, payload: string) {
    forall i | 0 <= i < |t| && t[i].Sent? :: t[i].headers == headers && t[i].payload == payload
  }

  lemma SendCounts(s: Script, headers: Headers, payload: string, k: nat)
    ensures var t := SendEvents(s, headers, payload, k);
            SentCount(t) <= 1 && SignedCount(t) == 0 && SleptTotal(t) == 0 && AllAlike(t, headers, payload)
  {
    CountsOfOne(Sent(k, headers, payload));
  }

  /** Every request of a call carries the same headers and payload; at most one
      request per attempt, none of them signed again. */
  lemma AttemptsAreAlike(delays: nat -> int, s: Script, headers: Headers, payload: string, k: nat)
    requires k >= 1
    ensures var t := AttemptEvents(delays, s, headers, payload, k);
            SentCount(t) <= k && SignedCount(t) == 0 && AllAlike(t, headers, payload)
  {
    BeforeIsAlike(delays, s, headers, payload, k);
    SendCounts(s, headers, payload, k);
    CountsAppend(EventsBefore(delays, s, headers, payload, k), SendEvents(s, headers, payload, k));
  }

  lemma AlikeAppend(a: seq<Event>, b: seq<Event>, headers: Headers, payload: string)
    requires AllAlike(a, headers, payload) && AllAlike(b, headers, payload)
    ensures AllAlike(a + b, headers, payload)
  {
  }

  lemma {:induction false} BeforeIsAlike(delays: nat -> int, s: Script, headers: Headers, payload: string, k: nat)
    requires k >= 1
    ensures var t := EventsBefore(delays, s, headers, payload, k);
            SentCount(t) <= k - 1 && SignedCount(t) == 0 && AllAlike(t, headers, payload)
    decreases k
  {
    if k > 1 {
      BeforeIsAlike(delays, s, headers, payload, k - 1);
      SendCounts(s, headers, payload, k - 1);
      var before, sent := EventsBefore(delays, s, headers, payload, k - 1), SendEvents(s, headers, payload, k - 1);
      var slept := Slept(k - 1, delays(k - 1));
      assert EventsBefore(delays, s, headers, payload, k) == before + sent + [slept];
      assert AllAlike([slept], headers, payload);
      hide EventsBefore, SendEvents, AllAlike, SentCount, SignedCount, SleptTotal;
      CountsAppend(before, sent);
      CountsAppend(before + sent, [slept]);
      CountsOfOne(slept);
      AlikeAppend(before, sent, headers, payload);
      AlikeAppend(before + sent, [slept], headers, payload);
    }
  }

  /** The sleeps of a call that ends with attempt k add up to at most
      (k - 1) * (1 + jitter) * cap. */
  lemma TotalSleepBound(c: Client, s: Script, headers: Headers, payload: string, k: nat)
    requires c.Valid() && c.policy.cap > 0 && k >= 1
    requires forall i: nat :: s.draw(i).Some? ==> -1.0 <= s.draw(i).value <= 1.0
    ensures SleptTotal(AttemptEvents(Delays(c, s), s, headers, payload, k)) as real
         <= Multiple(k - 1, Multiple(c.policy.cap, 1.0 + c.policy.jitter))
  {
    var delays, bound := Delays(c, s), Multiple(c.policy.cap, 1.0 + c.policy.jitter);
    MultipleMonotone(0, c.policy.cap, 1.0 + c.policy.jitter, 1.0 + c.policy.jitter);
    forall i: nat
      ensures delays(i) as real <= bound
    {
      JitteredBound(c.policy, i, s.draw(i));
    }
    SleepsWithin(delays, s, headers, payload, k, bound);
  }

  lemma SleepsWithin(delays: nat -> int, s: Script, headers: Headers, payload: string, k: nat, bound: real)
    requires k >= 1 && bound >= 0.0 && forall i: nat :: delays(i) as real <= bound
    ensures SleptTotal(AttemptEvents(delays, s, headers, payload, k)) as real <= Multiple(k - 1, bound)
  {
    SleepBefore(delays, s, headers, payload, k, bound);
    SendCounts(s, headers, payload, k);
    CountsAppend(EventsBefore(delays, s, headers, payload, k), SendEvents(s, headers, payload, k));
  }

  lemma SleepStep(delays: nat -> int, s: Script, headers: Headers, payload: string, k: nat)
    requires k > 1
    ensures SleptTotal(EventsBefore(delays, s, headers, payload, k))
         == SleptTotal(EventsBefore(delays, s, headers, payload, k - 1)) + Waited(delays(k - 1))
  {
    var before, sent := EventsBefore(delays, s, headers, payload, k - 1), SendEvents(s, headers, payload, k - 1);
    var slept := Slept(k - 1, delays(k - 1));
    SendCounts(s, headers, payload, k - 1);
    CountsAppend(before, sent);
    CountsAppend(before + sent, [slept]);
    CountsOfOne(slept);
  }

  lemma {:induction false} SleepBefore(delays: nat -> int, s: Script, headers: Headers, payload: string, k: nat, bound: real)
    requires k >= 1 && bound >= 0.0 && forall i: nat :: delays(i) as real <= bound
    ensures SleptTotal(EventsBefore(delays, s, headers, payload, k)) as real <= Multiple(k - 1, bound)
    decreases k
  {
    if k > 1 {
      SleepBefore(delays, s, headers, payload, k - 1, bound);
      SleepStep(delays, s, headers, payload, k);
    }
  }

  // ---------- Which failures are tried again ----------

  /** A transport failure the call may recover from: it is no cancellation, the
      policy retries it, and the caller still waits. */
  predicate Recoverable(c: Client, s: Script, i: nat, err: NetError) {
    err == Transient && c.policy.retryOnTransportError(Transient) && !s.ctxDone(i)
  }

  /** How many bytes of a body are accepted, 4 MiB unless configured. */
  function Room(c: Client): int {
    if c.maxRespBytes <= 0 then 4194304 else c.maxRespBytes
  }

  /** Attempt i failed in a way that calls for another one, as far as the network and
      the policy go. */
  predicate CallsForRetry(c: Client, s: Script, i: nat) {
    match s.attempt(i)
    case BuildFails => false
    case DoFails(err) => Recoverable(c, s, i, err)
    case Replies(status, stream) =>
      if |stream.data| > Room(c) then false
      else if stream.fault.Some? then
        (status < 400 || c.policy.retryOnStatus(status)) && Recoverable(c, s, i, stream.fault.value)
      else c.policy.retryOnStatus(status)
  }

  /** And the wait after it is not interrupted. */
  predicate MayRetry(c: Client, s: Script, i: nat) {
    CallsForRetry(c, s, i) && !s.interrupted(i)
  }

  lemma GoesOnIff(c: Client, s: Script, i: nat)
    requires !LimitWraps(c)
    ensures GoesOn(c, s, i) <==> i < c.policy.maxAttempts && MayRetry(c, s, i)
  {
    WrapCongruent(Limit(c.maxRespBytes) + 1);
  }

  /** A signed call that has to give up after attempt k: all earlier ones failed
      recoverably, and this one did not, or was the last. */
  ghost predicate GivesUpAt(c: Client, s: Script, k: nat) {
    && c.Valid() && !LimitWraps(c) && s.sign.Signature? && 1 <= k <= c.policy.maxAttempts
    && (forall j | 1 <= j < k :: MayRetry(c, s, j))
    && (k == c.policy.maxAttempts || !MayRetry(c, s, k))
  }

  lemma EndsWhereItGivesUp(c: Client, s: Script, k: nat)
    requires GivesUpAt(c, s, k)
    ensures EndOf(c, s) == k && CallAnswer(c, s) == ResultAt(c, s, k)
  {
    hide MayRetry, ResultAt;
    var last := EndExists(c, s);
    forall j | 1 <= j <= k
      ensures GoesOn(c, s, j) <==> j < c.policy.maxAttempts && MayRetry(c, s, j)
    {
      GoesOnIff(c, s, j);
    }
    hide GoesOn;
    EndIsUnique(c, s, last, k);
  }

  /** After any number of recoverable failures the first complete reply below 400 is
      the answer. */
  lemma RecoversWithReply(c: Client, s: Script, k: nat, status: int, body: string)
    requires GivesUpAt(c, s, k) && s.attempt(k) == Replies(status, Stream(body, None))
    requires status < 400 && |body| <= Room(c) && (k == c.policy.maxAttempts || !c.policy.retryOnStatus(status))
    ensures EndOf(c, s) == k && CallAnswer(c, s) == Response(status, body)
  {
    EndsWhereItGivesUp(c, s, k);
    WrapCongruent(Limit(c.maxRespBytes) + 1);
  }

  /** A complete reply of 400 or more is answered with its status and body. */
  lemma GivesUpWithStatus(c: Client, s: Script, k: nat, status: int, body: string)
    requires GivesUpAt(c, s, k) && s.attempt(k) == Replies(status, Stream(body, None))
    requires status >= 400 && |body| <= Room(c) && (k == c.policy.maxAttempts || !c.policy.retryOnStatus(status))
    ensures EndOf(c, s) == k && CallAnswer(c, s) == APIError(status, c.codeOf(body), body)
  {
    EndsWhereItGivesUp(c, s, k);
    WrapCongruent(Limit(c.maxRespBytes) + 1);
  }

  /** A failed send, and a body that breaks off, end the call with a transport error,
      which is temporary exactly when only the number of attempts stood in the way. */
  lemma GivesUpInTransport(c: Client, s: Script, k: nat, err: NetError)
    requires GivesUpAt(c, s, k)
    requires !Recoverable(c, s, k, err) || k == c.policy.maxAttempts
    ensures s.attempt(k) == DoFails(err) ==> CallAnswer(c, s) == TransportError("do", Recoverable(c, s, k, err))
    ensures s.attempt(k).Replies? && s.attempt(k).stream.fault == Some(err) && |s.attempt(k).stream.data| <= Room(c) ==>
              CallAnswer(c, s)
              == TransportError("read", (s.attempt(k).status < 400 || c.policy.retryOnStatus(s.attempt(k).status))
                                        && Recoverable(c, s, k, err))
  {
    EndsWhereItGivesUp(c, s, k);
    WrapCongruent(Limit(c.maxRespBytes) + 1);
  }

  /** A body past the limit, a request that cannot be built and a wait that is
      interrupted end the call for good. */
  lemma GivesUpForGood(c: Client, s: Script, k: nat)
    requires GivesUpAt(c, s, k)
    ensures s.attempt(k) == BuildFails ==> CallAnswer(c, s) == TransportError("build", false)
    ensures s.attempt(k).Replies? && |s.attempt(k).stream.data| > Room(c) ==> CallAnswer(c, s) == TransportError("read", false)
    ensures k < c.policy.maxAttempts && CallsForRetry(c, s, k) ==>
              CallAnswer(c, s) == TransportError("sleep", false)
  {
    EndsWhereItGivesUp(c, s, k);
    WrapCongruent(Limit(c.maxRespBytes) + 1);
  }
}
