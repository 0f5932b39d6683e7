/** atomefin/mock/server_dispatch.go: the request pipeline of the mock server,
    taken one request at a time. */
module MockServer {
  import opened Strings
  import opened Wrappers
  import opened ReplayCache
  import opened CacheHistory

  /** The parts of a request the pipeline looks at. `bodyId` is the requestId of
      a decodable JSON body, `sealedId` what decrypting the body yields. */
  datatype Request = Request(
    verb: string,
    path: string,
    encryptHeader: string,
    queryId: string,
    bodyId: Option<string>,
    sealedId: string)

  datatype Reply = Reply(status: int, headers: Headers, body: string)

  /** One request of a run: its cache key, and everything outside the pipeline
      that decides its fate. `verdict` is the reply spec validation rejects it
      with, if any; `respond` is what the scenario answers should it be asked. */
  datatype Exchange = Exchange(
    key: string,
    req: Request,
    verdict: Option<Reply>,
    respond: Result<Reply, string>)

  datatype Outcome =
    | Rejected(reply: Reply)
    | Replayed(reply: Reply)
    | Dispatched(reply: Reply)
    | Failed(message: string)

  datatype Config = Config(capacity: Option<nat>, decryptKey: bool) {
    /** Whether `WithIdempotency` is in effect. */
    predicate Idempotent() {
      capacity.Some?
    }

    predicate Valid() {
      capacity.Some? ==> capacity.value > 0
    }
  }

  function UpperASCII(s: string): string {
    seq(|s|, i requires 0 <= i < |s| =>
      if 'a' <= s[i] <= 'z' then (s[i] as int - 32) as char else s[i])
  }

  /** The request id that counts: empty when there is none, or when it is sealed
      and the server holds no key. */
  function RequestIdOf(cfg: Config, req: Request): string {
    if req.encryptHeader != "" then if cfg.decryptKey then req.sealedId else ""
    else if req.verb == "GET" then req.queryId
    else if req.verb == "POST" && req.bodyId.Some? then req.bodyId.value
    else ""
  }

  function Operation(req: Request): string {
    UpperASCII(req.verb) + " " + req.path
  }

  /** `idemKey`: the cache key of a request, empty when it has none. */
  function IdemKey(cfg: Config, req: Request): string {
    var id := RequestIdOf(cfg, req);
    if !cfg.Idempotent() || id == "" then "" else Operation(req) + "::" + id
  }

  /** A JSON POST whose body names this request id. */
  predicate PostsId(req: Request, path: string, id: string) {
    req.encryptHeader == "" && req.verb == "POST" && req.path == path && req.bodyId == Some(id)
  }

  predicate QueriesId(req: Request, path: string, id: string) {
    req.encryptHeader == "" && req.verb == "GET" && req.path == path && req.queryId == id
  }

  predicate SealsId(req: Request, verb: string, path: string, id: string) {
    req.encryptHeader != "" && req.verb == verb && req.path == path && req.sealedId == id
  }

  /** Which requests have a key, and which: a POST by the id in its body, a GET by
      the id in its query, and one with an `Encrypt` header by the id in its
      decrypted body, when the server can decrypt it. */
  lemma KeyOfRequest(cfg: Config, req: Request, path: string, id: string)
    requires cfg.capacity.Some? && id != ""
    ensures PostsId(req, path, id) ==> IdemKey(cfg, req) == "POST " + path + "::" + id
    ensures QueriesId(req, path, id) ==> IdemKey(cfg, req) == "GET " + path + "::" + id
    ensures SealsId(req, "POST", path, id) && cfg.decryptKey ==> IdemKey(cfg, req) == "POST " + path + "::" + id
  {
    assert UpperASCII("POST") == "POST" && UpperASCII("GET") == "GET";
    assert "POST" + " " == "POST " && "GET" + " " == "GET ";
  }

  /** Every other request goes without. */
  lemma KeyedIff(cfg: Config, req: Request)
    ensures IdemKey(cfg, req) != ""
       <==> cfg.capacity.Some?
            && exists id | id != "" ::
                 PostsId(req, req.path, id) || QueriesId(req, req.path, id)
                 || (SealsId(req, req.verb, req.path, id) && cfg.decryptKey)
  {
    var id := RequestIdOf(cfg, req);
    if IdemKey(cfg, req) != "" {
      assert PostsId(req, req.path, id) || QueriesId(req, req.path, id) || SealsId(req, req.verb, req.path, id);
    }
  }

  /** Letters are upper-cased one by one, and nothing else changes. */
  lemma UpperASCIIAt(s: string, i: nat, k: nat)
    requires i < |s| && k < 26
    ensures |UpperASCII(s)| == |s| && |LOWER| == |UPPER| == 26
    ensures s[i] == LOWER[k] ==> UpperASCII(s)[i] == UPPER[k]
    ensures s[i] !in LOWER ==> UpperASCII(s)[i] == s[i]
  {
    Alphabets();
    InAlphabets(s[i]);
    hide UPPER, LOWER;
  }

  /** The request with another request id in the place the id is read from. */
  function WithId(req: Request, id: string): Request {
    if req.encryptHeader != "" then req.(sealedId := id)
    else if req.verb == "GET" then req.(queryId := id)
    else req.(bodyId := Some(id))
  }

  /** No key of one operation continues like a key of the other. */
  predicate Apart(a: string, b: string) {
    !HasPrefix(b + ":", a + "::") && !HasPrefix(a + ":", b + "::")
  }

  /** For two operations that can have keys: the cache tells all their requests
      apart, by operation and request id, exactly when the operations are the same
      or apart. */
  lemma KeysTellApartIff(cfg: Config, a: Request, b: Request)
    requires IdemKey(cfg, a) != "" && IdemKey(cfg, b) != ""
    ensures (forall x, y | x != "" && y != "" && IdemKey(cfg, WithId(a, x)) == IdemKey(cfg, WithId(b, y)) ::
               Operation(a) == Operation(b) && x == y)
       <==> Operation(a) == Operation(b) || Apart(Operation(a), Operation(b))
  {
    var p, q := Operation(a), Operation(b);
    forall x | x != ""
      ensures IdemKey(cfg, WithId(a, x)) == p + "::" + x && IdemKey(cfg, WithId(b, x)) == q + "::" + x
    {
      WithIdKey(cfg, a, x);
      WithIdKey(cfg, b, x);
    }
    if p == q {
      forall x, y | p + "::" + x == q + "::" + y
        ensures x == y
      {
        assert x == (p + "::" + x)[|p| + 2..] && y == (q + "::" + y)[|q| + 2..];
      }
    } else if Apart(p, q) {
      forall x, y
        ensures p + "::" + x != q + "::" + y
      {
        ApartKeysDiffer(p, x, q, y);
      }
    } else {
      var x, y := CollidingIds(p, q);
      assert IdemKey(cfg, WithId(a, x)) == IdemKey(cfg, WithId(b, y));
    }
  }

  /** Two keyed requests of the same operation, or of operations that are apart,
      share a key exactly when operation and request id agree. */
  lemma SameKeyIff(cfg: Config, a: Request, b: Request)
    requires IdemKey(cfg, a) != "" && IdemKey(cfg, b) != ""
    requires Operation(a) == Operation(b) || Apart(Operation(a), Operation(b))
    ensures IdemKey(cfg, a) == IdemKey(cfg, b)
       <==> Operation(a) == Operation(b) && RequestIdOf(cfg, a) == RequestIdOf(cfg, b)
  {
    var p, q, x, y := Operation(a), Operation(b), RequestIdOf(cfg, a), RequestIdOf(cfg, b);
    if p == q {
      assert x == (p + "::" + x)[|p| + 2..] && y == (q + "::" + y)[|q| + 2..];
    } else {
      ApartKeysDiffer(p, x, q, y);
    }
  }

  lemma WithIdKey(cfg: Config, a: Request, x: string)
    requires IdemKey(cfg, a) != "" && x != ""
    ensures IdemKey(cfg, WithId(a, x)) == Operation(a) + "::" + x
  {
  }

  lemma EqualKeysAreNotApart(p: string, x: string, q: string, y: string)
    requires p != q && p + "::" + x == q + "::" + y
    ensures !Apart(p, q)
  {
    var s := p + "::" + x;
    assert s[..|p|] == p && s[..|q|] == q;
    assert s[..|p| + 1] == p + ":" && s[..|q| + 1] == q + ":";
    assert s[..|p| + 2] == p + "::" && s[..|q| + 2] == q + "::";
    if |p| < |q| {
      assert s[..|q| + 1][..|p| + 2] == s[..|p| + 2];
    } else {
      assert s[..|p| + 1][..|q| + 2] == s[..|q| + 2];
    }
  }

  lemma ApartKeysDiffer(p: string, x: string, q: string, y: string)
    requires p != q && Apart(p, q)
    ensures p + "::" + x != q + "::" + y
  {
    if p + "::" + x == q + "::" + y {
      EqualKeysAreNotApart(p, x, q, y);
    }
  }

  lemma CollidingIds(p: string, q: string) returns (x: string, y: string)
    requires !Apart(p, q)
    ensures x != "" && y != "" && p + "::" + x == q + "::" + y
  {
    if HasPrefix(q + ":", p + "::") {
      x, y := PrefixCollides(p, q);
    } else {
      y, x := PrefixCollides(q, p);
    }
  }

  lemma PrefixCollides(p: string, q: string) returns (x: string, y: string)
    requires HasPrefix(q + ":", p + "::")
    ensures x != "" && y != "" && p + "::" + x == q + "::" + y
  {
    var rest := (q + ":")[|p| + 2..];
    x, y := rest + ":z", "z";
    assert q + ":" == p + "::" + rest;
    assert p + "::" + x == q + ":" + ":z" == q + "::" + y;
  }

  /** Operations without a colon are apart. */
  lemma ColonFreeIsApart(a: string, b: string)
    requires ':' !in a && ':' !in b
    ensures Apart(a, b)
  {
    ContinuationHasColon(a, b);
    ContinuationHasColon(b, a);
  }

  lemma ContinuationHasColon(a: string, b: string)
    ensures HasPrefix(b + ":", a + "::") ==> ':' in b
  {
    if HasPrefix(b + ":", a + "::") {
      assert (b + ":")[..|a| + 2][|a|] == ':';
      assert b[|a|] == ':';
    }
  }

  /** With a colon in the path two different requests can share a key. */
  lemma ColonMixesKeys(cfg: Config)
    requires cfg.Idempotent()
    ensures var a := Request("GET", "/a", "", "b::c", None, "");
            var b := Request("GET", "/a::b", "", "c", None, "");
            IdemKey(cfg, a) == IdemKey(cfg, b) && RequestIdOf(cfg, a) != RequestIdOf(cfg, b)
  {
    assert UpperASCII("GET") == "GET";
    assert ("GET" + " " + "/a") + "::" + "b::c" == ("GET" + " " + "/a::b") + "::" + "c";
  }

  function Replay(e: CacheEntry): Reply {
    Reply(e.status, e.headers["X-Mock-Replay" := ["1"]], e.body)
  }

  function Stored(key: string, r: Reply): CacheEntry {
    CacheEntry(key, r.status, r.body, r.headers)
  }

  function ErrorReply(message: string): Reply {
    Reply(500,
          map["Content-Type" := ["text/plain; charset=utf-8"], "X-Content-Type-Options" := ["nosniff"]],
          message + "\n")
  }

  // ---------- A run of exchanges ----------

  /** The cache operations a run performed. */
  function OpsOf(cap: nat, xs: seq<Exchange>): seq<Op> {
    if xs == [] then []
    else
      var ops, x := OpsOf(cap, xs[..|xs| - 1]), xs[|xs| - 1];
      Extend(ops, x.key, OutcomeAfter(cap, ops, x))
  }

  function Extend(ops: seq<Op>, key: string, outcome: Outcome): seq<Op> {
    if key == "" || outcome.Rejected? then ops
    else if outcome.Dispatched? then ops + [Op.Get(key)] + [Op.Put(Stored(key, outcome.reply))]
    else ops + [Op.Get(key)]
  }

  function OutcomeAfter(cap: nat, ops: seq<Op>, x: Exchange): Outcome {
    var key := x.key;
    if x.verdict.Some? then Rejected(x.verdict.value)
    else if key != "" && Lookup(Run(cap, ops), key).Some? then
      Replayed(Replay(Lookup(Run(cap, ops), key).value))
    else match x.respond
      case Ok(r) => Dispatched(r)
      case Err(m) => Failed(m)
  }

  /** What became of request `i` of a run. */
  function OutcomeAt(cap: nat, xs: seq<Exchange>, i: nat): Outcome
    requires i < |xs|
  {
    OutcomeAfter(cap, OpsOf(cap, xs[..i]), xs[i])
  }

  function Answer(outcome: Outcome): Reply {
    match outcome
    case Rejected(r) => r
    case Replayed(r) => r
    case Dispatched(r) => r
    case Failed(m) => ErrorReply(m)
  }

  /** What each request is answered: a rejected one the verdict, a replayed one what
      the cache holds, any other what the scenario says, or its error as a 500. */
  lemma AnsweredBy(cap: nat, xs: seq<Exchange>, i: nat)
    requires i < |xs|
    ensures xs[i].verdict.Some? ==> Answer(OutcomeAt(cap, xs, i)) == xs[i].verdict.value
    ensures xs[i].verdict.None? && !OutcomeAt(cap, xs, i).Replayed? && xs[i].respond.Ok? ==>
              Answer(OutcomeAt(cap, xs, i)) == xs[i].respond.value
    ensures xs[i].verdict.None? && !OutcomeAt(cap, xs, i).Replayed? && xs[i].respond.Err? ==>
              var r := Answer(OutcomeAt(cap, xs, i));
              && r.status == 500 && r.body == xs[i].respond.error + "\n"
              && r.headers == map["Content-Type" := ["text/plain; charset=utf-8"], "X-Content-Type-Options" := ["nosniff"]]
  {
  }

  /** The requests that reached the scenario. */
  function Asked(cap: nat, xs: seq<Exchange>): seq<Request> {
    if xs == [] then []
    else
      var n := |xs| - 1;
      Asked(cap, xs[..n])
      + if OutcomeAt(cap, xs, n).Dispatched? || OutcomeAt(cap, xs, n).Failed? then [xs[n].req] else []
  }

  /** The keys of the requests answered by the scenario or the cache, in order. */
  function TouchLog(cap: nat, xs: seq<Exchange>): seq<string> {
    if xs == [] then []
    else
      var n := |xs| - 1;
      TouchLog(cap, xs[..n]) + if Touched(cap, xs, n) then [xs[n].key] else []
  }

  predicate Touched(cap: nat, xs: seq<Exchange>, i: nat)
    requires i < |xs|
  {
    xs[i].key != ""
    && (OutcomeAt(cap, xs, i).Dispatched? || OutcomeAt(cap, xs, i).Replayed?)
  }

  // ---------- The server ----------

  class Server {
    const cfg: Config
    var idem: IdempotencyCache?
    var requests: seq<Request>
    ghost var run: seq<Exchange>
    ghost var Repr: set<object>

    ghost predicate Wired()
      reads this, Repr
    {
      && this in Repr && cfg.Valid()
      && (idem == null ==> !cfg.Idempotent())
      && (idem != null ==>
            && cfg.Idempotent() && idem.cap == Capacity()
            && idem in Repr && idem.Repr <= Repr && this !in idem.Repr && idem.Valid())
    }

    /** The cache holds what these cache operations leave in it. */
    ghost predicate CacheIs(ops: seq<Op>)
      reads this, Repr
      requires Wired()
    {
      idem != null ==> idem.Contents == Run(Capacity(), ops)
    }

    /** The server's state is the one its run leads to. */
    ghost predicate Valid()
      reads this, Repr
    {
      && Wired() && CacheIs(OpsOf(Capacity(), run)) && requests == Asked(Capacity(), run)
      && KeyedBy(cfg, run)
    }

    function Capacity(): nat {
      if cfg.Idempotent() then cfg.capacity.value else 0
    }

    constructor (idempotency: bool, cacheSize: int, decryptKey: bool)
      ensures Valid() && fresh(Repr) && run == []
      ensures cfg == Config(if !idempotency then None else if cacheSize <= 0 then Some(1024) else Some(cacheSize),
                            decryptKey)
    {
      cfg := Config(if !idempotency then None else if cacheSize <= 0 then Some(1024) else Some(cacheSize),
                    decryptKey);
      idem := null;
      requests, run, Repr := [], [], {this};
      new;
      if idempotency {
        idem := new IdempotencyCache(cacheSize);
        Repr := Repr + idem.Repr;
      }
    }

    /** One pass of the pipeline. `verdict` and `respond` are as in `Exchange`;
        the run grows by this exchange and the reply is its outcome's. */
    method ServeHTTP(req: Request, verdict: Option<Reply>, respond: Result<Reply, string>) returns (reply: Reply)
      requires Valid()
      modifies Repr
      ensures Valid() && fresh(Repr - old(Repr))
      ensures run == old(run) + [Exchange(IdemKey(cfg, req), req, verdict, respond)]
      ensures reply == Answer(OutcomeAt(Capacity(), run, |run| - 1))
    {
      var key := IdemKey(cfg, req);
      ghost var x := Exchange(key, req, verdict, respond);
      ghost var ops := OpsOf(Capacity(), run);
      RunGrows(Capacity(), run, x);
      run := run + [x];
      if verdict.Some? {
        reply := verdict.value;
      } else {
        reply := Serve(key, req, respond, ops);
      }
    }

    /** Steps 3 and 4 of the pipeline and the cache stamp, for a request that
        passed validation. */
    method Serve(key: string, req: Request, respond: Result<Reply, string>, ghost ops: seq<Op>) returns (reply: Reply)
      requires Wired() && CacheIs(ops) && (key != "" ==> idem != null)
      modifies Repr
      ensures Wired() && fresh(Repr - old(Repr)) && run == old(run)
      ensures var outcome := OutcomeAfter(Capacity(), ops, Exchange(key, req, None, respond));
              CacheIs(Extend(ops, key, outcome)) && reply == Answer(outcome)
              && requests == old(requests) + (if outcome.Dispatched? || outcome.Failed? then [req] else [])
    {
      if key != "" {
        var hit := Recall(key, ops);
        if hit.Some? {
          return Replay(hit.value);
        }
      }
      requests := requests + [req];
      match respond {
        case Err(m) =>
          return ErrorReply(m);
        case Ok(r) =>
          if key != "" {
            Remember(key, r, ops + [Op.Get(key)]);
          }
          return r;
      }
    }

    method Recall(key: string, ghost ops: seq<Op>) returns (hit: Option<CacheEntry>)
      requires Wired() && idem != null && CacheIs(ops)
      modifies idem.Repr, this`Repr
      ensures Wired() && idem == old(idem) && fresh(Repr - old(Repr)) && fresh(idem.Repr - old(idem.Repr))
      ensures CacheIs(ops + [Op.Get(key)]) && hit == Lookup(Run(Capacity(), ops), key)
    {
      hit := idem.Get(key);
      Repr := Repr + idem.Repr;
      RunSnoc(Capacity(), ops, Op.Get(key));
    }

    method Remember(key: string, r: Reply, ghost ops: seq<Op>)
      requires Wired() && idem != null && CacheIs(ops)
      modifies idem.Repr, this`Repr
      ensures Wired() && fresh(Repr - old(Repr))
      ensures CacheIs(ops + [Op.Put(Stored(key, r))])
    {
      idem.Put(key, Stored(key, r));
      Repr := Repr + idem.Repr;
      RunSnoc(Capacity(), ops, Op.Put(Stored(key, r)));
    }

    method Reset()
      requires Valid()
      modifies Repr
      ensures Valid() && fresh(Repr - old(Repr)) && run == [] && requests == []
    {
      requests, run := [], [];
      if idem != null {
        idem.Reset();
        Repr := Repr + idem.Repr;
      }
    }
  }

  lemma RunSnoc(cap: nat, ops: seq<Op>, op: Op)
    ensures Run(cap, ops + [op]) == Step(cap, Run(cap, ops), op)
  {
    assert (ops + [op])[..|ops|] == ops;
  }

  lemma RunGrows(cap: nat, xs: seq<Exchange>, x: Exchange)
    ensures var outcome := OutcomeAfter(cap, OpsOf(cap, xs), x);
            OpsOf(cap, xs + [x]) == Extend(OpsOf(cap, xs), x.key, outcome)
            && OutcomeAt(cap, xs + [x], |xs|) == outcome
            && Asked(cap, xs + [x])
               == Asked(cap, xs) + (if outcome.Dispatched? || outcome.Failed? then [x.req] else [])
  {
    assert (xs + [x])[..|xs|] == xs;
  }

  // ---------- Theorems about runs ----------

  lemma {:induction false} TouchLogIsTouches(cap: nat, xs: seq<Exchange>)
    ensures Touches(cap, OpsOf(cap, xs)) == TouchLog(cap, xs)
  {
    if xs != [] {
      var n := |xs| - 1;
      TouchLogIsTouches(cap, xs[..n]);
      TouchesExtend(cap, OpsOf(cap, xs[..n]), xs[n]);
    }
  }

  lemma TouchesExtend(cap: nat, ops: seq<Op>, x: Exchange)
    ensures var outcome := OutcomeAfter(cap, ops, x);
            Touches(cap, Extend(ops, x.key, outcome))
            == Touches(cap, ops)
               + (if x.key != "" && (outcome.Dispatched? || outcome.Replayed?) then [x.key] else [])
  {
    var outcome := OutcomeAfter(cap, ops, x);
    if x.key != "" && !outcome.Rejected? {
      TouchesSnoc(cap, ops, Op.Get(x.key));
      if outcome.Dispatched? {
        TouchesSnoc(cap, ops + [Op.Get(x.key)], Op.Put(Stored(x.key, outcome.reply)));
      }
    }
  }

  lemma TouchesSnoc(cap: nat, ops: seq<Op>, op: Op)
    requires !op.Reset?
    ensures Touches(cap, ops + [op])
         == Touches(cap, ops) + if op.Put? then [op.entry.key]
                                else if Lookup(Run(cap, ops), op.key).Some? then [op.key] else []
  {
    assert (ops + [op])[..|ops|] == ops;
  }

  /** A run's latest stored entry for a key comes from its latest dispatch. */
  lemma {:induction false} LatestIsLastDispatch(cap: nat, xs: seq<Exchange>, key: string) returns (j: nat)
    requires key != "" && xs != [] && Latest(OpsOf(cap, xs), key).Some?
    ensures j < |xs| && xs[j].key == key && OutcomeAt(cap, xs, j).Dispatched?
    ensures Latest(OpsOf(cap, xs), key) == Some(Stored(key, OutcomeAt(cap, xs, j).reply))
    ensures forall m | j < m < |xs| && xs[m].key == key :: !OutcomeAt(cap, xs, m).Dispatched?
  {
    hide Latest, OpsOf, OutcomeAt;
    var n := |xs| - 1;
    LatestStep(cap, xs, key);
    LatestOfNone(cap, key);
    if xs[n].key == key && OutcomeAt(cap, xs, n).Dispatched? {
      j := n;
    } else {
      j := LatestIsLastDispatch(cap, xs[..n], key);
      SameOutcomes(cap, xs, n);
    }
  }

  lemma LatestOfNone(cap: nat, key: string)
    ensures Latest(OpsOf(cap, []), key) == None
  {
  }

  lemma SameOutcomes(cap: nat, xs: seq<Exchange>, n: nat)
    requires n <= |xs|
    ensures forall m | 0 <= m < n :: OutcomeAt(cap, xs[..n], m) == OutcomeAt(cap, xs, m)
  {
    forall m | 0 <= m < n
      ensures OutcomeAt(cap, xs[..n], m) == OutcomeAt(cap, xs, m)
    {
      assert xs[..n][..m] == xs[..m];
    }
  }

  lemma LatestStep(cap: nat, xs: seq<Exchange>, key: string)
    requires key != "" && xs != []
    ensures var n := |xs| - 1;
            Latest(OpsOf(cap, xs), key)
            == (if xs[n].key == key && OutcomeAt(cap, xs, n).Dispatched?
                then Some(Stored(key, OutcomeAt(cap, xs, n).reply)) else Latest(OpsOf(cap, xs[..n]), key))
  {
    var n := |xs| - 1;
    LatestOfOne(OpsOf(cap, xs[..n]), xs[n].key, OutcomeAt(cap, xs, n), key);
  }

  lemma LatestOfOne(ops: seq<Op>, k: string, outcome: Outcome, key: string)
    ensures Latest(Extend(ops, k, outcome), key)
         == if k == key && k != "" && outcome.Dispatched? then Some(Stored(key, outcome.reply)) else Latest(ops, key)
  {
    var got := ops + [Op.Get(k)];
    assert got[..|ops|] == ops;
    if outcome.Dispatched? {
      var put := Op.Put(Stored(k, outcome.reply));
      assert (got + [put])[..|got|] == got;
    }
  }

  /** A request with a key is replayed exactly when that key was touched before
      and fewer than `cap` other keys were touched since. */
  lemma ReplayedIff(cap: nat, xs: seq<Exchange>, i: nat)
    requires cap > 0 && i < |xs| && xs[i].verdict.None? && xs[i].key != ""
    ensures var key, t := xs[i].key, TouchLog(cap, xs[..i]);
            OutcomeAt(cap, xs, i).Replayed? <==> key in t && |Elements(Since(t, key))| < cap
  {
    TouchLogIsTouches(cap, xs[..i]);
    HitIff(cap, OpsOf(cap, xs[..i]), xs[i].key);
  }

  /** A replayed request gets the status, body and headers of the last dispatch
      of its key, plus the replay marker, and the scenario is not asked. */
  lemma ReplayRepeatsLastDispatch(cap: nat, xs: seq<Exchange>, i: nat) returns (j: nat)
    requires cap > 0 && i < |xs| && OutcomeAt(cap, xs, i).Replayed?
    ensures j < i && xs[j].key == xs[i].key && OutcomeAt(cap, xs, j).Dispatched?
    ensures var first, again := OutcomeAt(cap, xs, j).reply, OutcomeAt(cap, xs, i).reply;
            again == first.(headers := first.headers["X-Mock-Replay" := ["1"]])
    ensures forall m | j < m < i && xs[m].key == xs[i].key ::
              !OutcomeAt(cap, xs, m).Dispatched?
    ensures Asked(cap, xs[..i + 1]) == Asked(cap, xs[..i])
  {
    ReplayedEntry(cap, OpsOf(cap, xs[..i]), xs[i]);
    j := LatestIsLastDispatch(cap, xs[..i], xs[i].key);
    SameOutcomes(cap, xs, i);
    ReplayAsksNobody(cap, xs, i);
  }

  lemma ReplayAsksNobody(cap: nat, xs: seq<Exchange>, i: nat)
    requires i < |xs| && OutcomeAt(cap, xs, i).Replayed?
    ensures Asked(cap, xs[..i + 1]) == Asked(cap, xs[..i])
  {
    RunGrows(cap, xs[..i], xs[i]);
    assert xs[..i + 1] == xs[..i] + [xs[i]];
  }

  lemma ReplayedEntry(cap: nat, ops: seq<Op>, x: Exchange)
    requires cap > 0 && OutcomeAfter(cap, ops, x).Replayed?
    ensures x.key != "" && Latest(ops, x.key).Some? && ops != []
    ensures OutcomeAfter(cap, ops, x).reply == Replay(Latest(ops, x.key).value)
  {
    HitIff(cap, ops, x.key);
  }

  /** If a key is dispatched twice, at least `cap` other keys were touched after
      its last touch before the second dispatch. */
  lemma SecondDispatchMeansEviction(cap: nat, xs: seq<Exchange>, j: nat, i: nat)
    requires cap > 0 && j < i < |xs|
    requires xs[i].key == xs[j].key != ""
    requires OutcomeAt(cap, xs, j).Dispatched? && OutcomeAt(cap, xs, i).Dispatched?
    ensures |Elements(Since(TouchLog(cap, xs[..i]), xs[i].key))| >= cap
  {
    ReplayedIff(cap, xs, i);
    TouchLogHas(cap, xs[..i], j);
    assert xs[..i][..j] == xs[..j];
  }

  lemma {:induction false} TouchLogHas(cap: nat, xs: seq<Exchange>, j: nat)
    requires j < |xs| && Touched(cap, xs, j)
    ensures xs[j].key in TouchLog(cap, xs)
  {
    var n := |xs| - 1;
    if j < n {
      assert xs[..n][..j] == xs[..j];
      TouchLogHas(cap, xs[..n], j);
    }
  }

  lemma FailureLeavesCache(cap: nat, xs: seq<Exchange>, x: Exchange)
    requires OutcomeAfter(cap, OpsOf(cap, xs), x).Failed?
    ensures Run(cap, OpsOf(cap, xs + [x])) == Run(cap, OpsOf(cap, xs))
  {
    RunGrows(cap, xs, x);
    if x.key != "" {
      RunSnoc(cap, OpsOf(cap, xs), Op.Get(x.key));
    }
  }

  /** What the cache does next depends on its contents only. */
  lemma SameContents(cap: nat, a: seq<Op>, b: seq<Op>, y: Exchange)
    requires Run(cap, a) == Run(cap, b)
    ensures var outcome := OutcomeAfter(cap, a, y);
            OutcomeAfter(cap, b, y) == outcome
            && Run(cap, Extend(a, y.key, outcome)) == Run(cap, Extend(b, y.key, outcome))
  {
    var outcome, get := OutcomeAfter(cap, a, y), Op.Get(y.key);
    RunSnoc(cap, a, get);
    RunSnoc(cap, b, get);
    if outcome.Dispatched? {
      RunSnoc(cap, a + [get], Op.Put(Stored(y.key, outcome.reply)));
      RunSnoc(cap, b + [get], Op.Put(Stored(y.key, outcome.reply)));
    }
  }

  lemma NextAlike(cap: nat, a: seq<Exchange>, b: seq<Exchange>, y: Exchange)
    requires Run(cap, OpsOf(cap, a)) == Run(cap, OpsOf(cap, b))
    ensures OutcomeAt(cap, a + [y], |a|) == OutcomeAt(cap, b + [y], |b|)
    ensures Run(cap, OpsOf(cap, a + [y])) == Run(cap, OpsOf(cap, b + [y]))
  {
    hide Run, OpsOf, Extend, OutcomeAfter, OutcomeAt;
    SameContents(cap, OpsOf(cap, a), OpsOf(cap, b), y);
    RunGrows(cap, a, y);
    RunGrows(cap, b, y);
  }

  /** Two runs that leave the same contents go on alike. */
  lemma {:induction false} GoesOnAlike(cap: nat, a: seq<Exchange>, b: seq<Exchange>, ys: seq<Exchange>)
    requires Run(cap, OpsOf(cap, a)) == Run(cap, OpsOf(cap, b))
    ensures Run(cap, OpsOf(cap, a + ys)) == Run(cap, OpsOf(cap, b + ys))
  {
    hide Run, OpsOf;
    if ys == [] {
      assert a + ys == a && b + ys == b;
    } else {
      var init, y := ys[..|ys| - 1], ys[|ys| - 1];
      GoesOnAlike(cap, a, b, init);
      NextAlike(cap, a + init, b + init, y);
      assert a + ys == a + init + [y] && b + ys == b + init + [y];
    }
  }

  /** A failed dispatch leaves every later outcome as if the request had never
      come. */
  lemma FailuresAreNotCached(cap: nat, xs: seq<Exchange>, x: Exchange, ys: seq<Exchange>, i: nat)
    requires OutcomeAfter(cap, OpsOf(cap, xs), x).Failed? && i < |ys|
    ensures OutcomeAt(cap, xs + [x] + ys, |xs| + 1 + i) == OutcomeAt(cap, xs + ys, |xs| + i)
  {
    hide Run, OpsOf, OutcomeAfter, OutcomeAt;
    FailureLeavesCache(cap, xs, x);
    GoesOnAlike(cap, xs + [x], xs, ys[..i]);
    NextAlike(cap, xs + [x] + ys[..i], xs + ys[..i], ys[i]);
    OutcomeInside(cap, xs + [x], ys, i);
    OutcomeInside(cap, xs, ys, i);
  }

  lemma OutcomeInside(cap: nat, a: seq<Exchange>, ys: seq<Exchange>, i: nat)
    requires i < |ys|
    ensures OutcomeAt(cap, a + ys, |a| + i) == OutcomeAt(cap, a + ys[..i] + [ys[i]], |a + ys[..i]|)
  {
    hide OutcomeAfter, OpsOf;
    assert (a + ys)[..|a| + i] == (a + ys[..i] + [ys[i]])[..|a| + i];
  }

  // ---------- Repeated requests ----------

  lemma TouchLogSnoc(cap: nat, xs: seq<Exchange>, i: nat)
    requires i < |xs|
    ensures TouchLog(cap, xs[..i + 1]) == TouchLog(cap, xs[..i]) + if Touched(cap, xs, i) then [xs[i].key] else []
  {
    assert xs[..i + 1][..i] == xs[..i] && xs[..i + 1][i] == xs[i];
    hide OutcomeAfter, OpsOf;
  }

  lemma SinceSnoc(t: seq<string>, k: string, x: string)
    ensures Since(t + [x], k) == if x == k then [] else Since(t, k) + [x]
  {
    assert (t + [x])[..|t|] == t;
  }

  lemma {:induction false} SinceIsShort(cap: nat, xs: seq<Exchange>, j: nat, i: nat)
    requires j < i <= |xs| && Touched(cap, xs, j)
    ensures xs[j].key in TouchLog(cap, xs[..i])
    ensures |Since(TouchLog(cap, xs[..i]), xs[j].key)| <= i - j - 1
  {
    hide TouchLog, Since, Touched;
    TouchLogSnoc(cap, xs, i - 1);
    var t := TouchLog(cap, xs[..i - 1]);
    SinceSnoc(t, xs[j].key, xs[i - 1].key);
    assert t + [] == t;
    if j < i - 1 {
      SinceIsShort(cap, xs, j, i - 1);
    }
  }

  lemma {:induction false} ElementsAtMost<T>(s: seq<T>)
    ensures |Elements(s)| <= |s|
  {
    if s != [] {
      ElementsAtMost(s[1..]);
      assert s == [s[0]] + s[1..];
      ElementsAppend([s[0]], s[1..]);
      assert Elements([s[0]]) == {s[0]};
    }
  }

  lemma SoonMeansReplayed(cap: nat, xs: seq<Exchange>, j: nat, i: nat)
    requires cap > 0 && j < i < |xs| && i - j <= cap
    requires xs[j].key == xs[i].key != "" && xs[i].verdict.None? && OutcomeAt(cap, xs, j).Dispatched?
    ensures OutcomeAt(cap, xs, i).Replayed?
  {
    SinceIsShort(cap, xs, j, i);
    ElementsAtMost(Since(TouchLog(cap, xs[..i]), xs[j].key));
    ReplayedIff(cap, xs, i);
  }

  /** A request dispatched once is answered alike, with the marker, whenever its key
      comes back among the next `cap` requests. */
  lemma RepeatIsReplayed(cap: nat, xs: seq<Exchange>, j: nat, i: nat)
    requires cap > 0 && j < i < |xs| && i - j <= cap
    requires xs[j].key == xs[i].key != "" && xs[i].verdict.None? && OutcomeAt(cap, xs, j).Dispatched?
    ensures var first := OutcomeAt(cap, xs, j).reply;
            OutcomeAt(cap, xs, i) == Replayed(first.(headers := first.headers["X-Mock-Replay" := ["1"]]))
  {
    SoonMeansReplayed(cap, xs, j, i);
    var last := ReplayRepeatsLastDispatch(cap, xs, i);
    if j < last {
      SoonMeansReplayed(cap, xs, j, last);
    }
  }

  /** Every exchange of the run is keyed by its own request. */
  ghost predicate KeyedBy(cfg: Config, xs: seq<Exchange>) {
    forall i | 0 <= i < |xs| :: xs[i].key == IdemKey(cfg, xs[i].req)
  }

  /** In particular two POSTs to one path with one request id in their bodies: the
      second of them, within the next `cap` requests, gets the first reply again. */
  lemma RepeatedPostIsReplayed(cfg: Config, xs: seq<Exchange>, j: nat, i: nat, path: string, id: string)
    requires cfg.Valid() && cfg.capacity.Some? && KeyedBy(cfg, xs)
    requires j < i < |xs| && i - j <= cfg.capacity.value && id != ""
    requires PostsId(xs[j].req, path, id) && PostsId(xs[i].req, path, id)
    requires OutcomeAt(cfg.capacity.value, xs, j).Dispatched? && xs[i].verdict.None?
    ensures var first := OutcomeAt(cfg.capacity.value, xs, j).reply;
            OutcomeAt(cfg.capacity.value, xs, i) == Replayed(first.(headers := first.headers["X-Mock-Replay" := ["1"]]))
  {
    KeyOfRequest(cfg, xs[j].req, path, id);
    KeyOfRequest(cfg, xs[i].req, path, id);
    RepeatIsReplayed(cfg.capacity.value, xs, j, i);
  }
}
