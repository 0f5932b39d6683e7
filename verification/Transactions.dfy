/** atomefin/transaction/transaction.go: `TransactionsAll`, paging through a
    transaction list. */
module Transactions {
  import opened Int64
  import opened Wrappers

  const DEFAULT_START := 1
  const DEFAULT_COUNT := 10
  const MAX_COUNT := 50

  datatype Kind = Payment | Refund | Repayment
  datatype Row = Row(kind: Kind, id: string)

  datatype Params = Params(
    externalReferenceUid: string, transactionType: string, startDate: string, endDate: string, start: int, count: int)

  datatype Paginator = Paginator(start: int, count: int, totalCount: int)

  datatype Data = Data(
    currency: string, payments: seq<Row>, refunds: seq<Row>, repayments: seq<Row>, paginator: Option<Paginator>)

  datatype FetchError = Invalid(field: string) | Context(e: string) | Call(e: string)

  /** A server with a fixed list of rows, paged by a start that counts from 1;
      it may report a total with every page. */
  datatype Server = Server(currency: string, rows: seq<Row>, reported: Option<int>)

  /** What may go wrong in a round before a page arrives. */
  datatype Trouble = Fine | ContextDone(e: string) | CallFails(e: string) | NoData

  // ---------- One page ----------

  function Validate(p: Params): Option<string> {
    if p.externalReferenceUid == "" then Some("externalReferenceUid")
    else if p.startDate == "" then Some("startDate")
    else if p.endDate == "" then Some("endDate")
    else if p.transactionType == "" then Some("transactionType")
    else if p.start < 0 then Some("start")
    else if p.count < 0 then Some("count")
    else if p.count > MAX_COUNT then Some("count")
    else None
  }

  function Normalized(p: Params): (q: Params)
    ensures q.start >= 1 && q.count >= 1
  {
    p.(start := if p.start <= 0 then DEFAULT_START else p.start,
       count := if p.count <= 0 then DEFAULT_COUNT else p.count)
  }

  /** Four parameters must be there, and the page must lie within the bounds of the
      service. */
  lemma ValidIff(p: Params)
    ensures Validate(p).None?
       <==> && p.externalReferenceUid != "" && p.startDate != "" && p.endDate != "" && p.transactionType != ""
            && p.start >= 0 && 0 <= p.count <= 50
  {
  }

  /** A rejection names a parameter that is missing or out of bounds. */
  lemma RejectionNames(p: Params)
    requires Validate(p).Some?
    ensures var f := Validate(p).value;
            || (f == "externalReferenceUid" && p.externalReferenceUid == "") || (f == "startDate" && p.startDate == "")
            || (f == "endDate" && p.endDate == "") || (f == "transactionType" && p.transactionType == "")
            || (f == "start" && p.start < 0) || (f == "count" && !(0 <= p.count <= 50))
  {
  }

  /** A page that is not asked for starts at 1 and has 10 rows; anything asked for is
      left as it is. */
  lemma NormalizedIs(p: Params)
    ensures Normalized(p)
         == p.(start := if p.start >= 1 then p.start else 1, count := if p.count >= 1 then p.count else 10)
  {
  }

  /** The rows of one kind, in order. */
  function Of(kind: Kind, rows: seq<Row>): seq<Row> {
    if rows == [] then []
    else
      var row := rows[|rows| - 1];
      Of(kind, rows[..|rows| - 1]) + if row.kind == kind then [row] else []
  }

  function First(rows: seq<Row>, n: nat): seq<Row> {
    if n <= |rows| then rows[..n] else rows
  }

  /** The rows from `start` on. */
  function Rest(s: Server, start: int): seq<Row>
    requires start >= 1
  {
    if start - 1 <= |s.rows| then s.rows[start - 1..] else []
  }

  function PaginatorOf(s: Server, start: int, count: int): Option<Paginator> {
    if s.reported.None? then None else Some(Paginator(start, count, s.reported.value))
  }

  function Size(d: Data): nat {
    |d.payments| + |d.refunds| + |d.repayments|
  }

  /** `out` with one more page appended, kind by kind. */
  function Extended(out: Data, page: Data): Data {
    Data(if out.currency == "" then page.currency else out.currency,
         out.payments + page.payments, out.refunds + page.refunds, out.repayments + page.repayments,
         page.paginator)
  }

  function Grouped(currency: string, rows: seq<Row>, paginator: Option<Paginator>): Data {
    Data(currency, Of(Payment, rows), Of(Refund, rows), Of(Repayment, rows), paginator)
  }

  function PageOf(s: Server, start: int, count: int): Data
    requires start >= 1 && count >= 1
  {
    Grouped(s.currency, First(Rest(s, start), count), PaginatorOf(s, start, count))
  }

  lemma {:induction false} OfAppend(kind: Kind, a: seq<Row>, b: seq<Row>)
    ensures Of(kind, a + b) == Of(kind, a) + Of(kind, b)
  {
    if b == [] {
      assert a + b == a;
    } else {
      assert (a + b)[..|a + b| - 1] == a + b[..|b| - 1];
      OfAppend(kind, a, b[..|b| - 1]);
    }
  }

  /** Every row is of one kind. */
  lemma {:induction false} KindsPartition(currency: string, rows: seq<Row>, paginator: Option<Paginator>)
    ensures Size(Grouped(currency, rows, paginator)) == |rows|
  {
    if rows != [] {
      KindsPartition(currency, rows[..|rows| - 1], paginator);
    }
  }

  lemma GroupedAppend(had: string, a: seq<Row>, last: Option<Paginator>, currency: string, b: seq<Row>, next: Option<Paginator>)
    ensures Extended(Grouped(had, a, last), Grouped(currency, b, next))
         == Grouped(if had == "" then currency else had, a + b, next)
  {
    hide Of;
    OfAppend(Payment, a, b);
    OfAppend(Refund, a, b);
    OfAppend(Repayment, a, b);
  }

  /** Where the rows of one kind stand. */
  function Positions(kind: Kind, rows: seq<Row>): (ps: seq<nat>)
    ensures forall j | 0 <= j < |ps| :: ps[j] < |rows| && rows[ps[j]].kind == kind
  {
    if rows == [] then []
    else
      var n := |rows| - 1;
      Positions(kind, rows[..n]) + if rows[n].kind == kind then [n] else []
  }

  /** `Of` loses, repeats and reorders nothing: it lists the rows at the positions
      of that kind, which increase and leave out none. */
  lemma {:induction false} OfIsSubsequence(kind: Kind, rows: seq<Row>)
    ensures var ps := Positions(kind, rows);
            && |Of(kind, rows)| == |ps|
            && (forall j | 0 <= j < |ps| :: Of(kind, rows)[j] == rows[ps[j]])
  {
    if rows != [] {
      OfIsSubsequence(kind, rows[..|rows| - 1]);
    }
  }

  lemma {:induction false} PositionsIncrease(kind: Kind, rows: seq<Row>)
    ensures forall i, j | 0 <= i < j < |Positions(kind, rows)| :: Positions(kind, rows)[i] < Positions(kind, rows)[j]
  {
    if rows != [] {
      PositionsIncrease(kind, rows[..|rows| - 1]);
    }
  }

  lemma {:induction false} AllPositions(kind: Kind, rows: seq<Row>, i: nat)
    requires i < |rows| && rows[i].kind == kind
    ensures i in Positions(kind, rows)
  {
    if i < |rows| - 1 {
      AllPositions(kind, rows[..|rows| - 1], i);
    }
  }

  // ---------- How many pages ----------

  /** The pages needed for n rows, `count` at a time, when the server reports
      `total` (none or a non-positive one counts as unknown): up to the first
      short page, or until as many rows as reported have arrived. */
  function PagesNeeded(n: nat, total: Option<int>, count: int): (k: nat)
    requires count >= 1
    ensures 1 <= k <= n / count + 1
  {
    var short := n / count + 1;
    if total.Some? && total.value > 0 && CeilDiv(total.value, count) < short then CeilDiv(total.value, count)
    else short
  }

  function CeilDiv(n: int, m: int): (q: int)
    requires m >= 1 && n >= 1
    ensures q >= 1
  {
    CeilIff(n, m, 1);
    (n + m - 1) / m
  }

  lemma CeilIff(n: int, m: int, k: int)
    requires m >= 1 && n >= 1 && k >= 1
    ensures k * m >= n <==> k >= (n + m - 1) / m
  {
    var q := (n + m - 1) / m;
    var r := (n + m - 1) % m;
    assert n + m - 1 == q * m + r;
    if k >= q {
      Monotone(q, k, m);
    } else {
      Monotone(k, q - 1, m);
      assert (q - 1) * m == q * m - m;
    }
  }

  lemma FloorIff(n: nat, m: int, k: nat)
    requires m >= 1
    ensures n < k * m <==> k >= n / m + 1
  {
    var q := n / m;
    assert n == q * m + n % m;
    if k >= q + 1 {
      Monotone(q + 1, k, m);
      assert (q + 1) * m == q * m + m;
    } else {
      Monotone(k, q, m);
    }
  }

  lemma Monotone(a: int, b: int, m: int)
    requires a <= b && m >= 0
    ensures a * m <= b * m
  {
  }

  function Times(k: nat, count: int): nat
    requires count >= 1
  {
    Monotone(0, k, count);
    k * count
  }

  /** The k-th page is the last one: it is short, or the total has arrived. */
  predicate IsLast(n: nat, total: Option<int>, count: int, k: nat)
    requires count >= 1
  {
    n < Times(k, count) || (total.Some? && total.value > 0 && Times(k, count) >= total.value)
  }

  lemma LastIffNeeded(n: nat, total: Option<int>, count: int, k: nat)
    requires count >= 1 && k >= 1
    ensures IsLast(n, total, count, k) <==> k >= PagesNeeded(n, total, count)
  {
    FloorIff(n, count, k);
    if total.Some? && total.value > 0 {
      CeilIff(total.value, count, k);
    }
  }

  // ---------- The page loop ----------

  /** What `k` pages add up to. */
  function Gathered(s: Server, start: int, count: int, k: nat): Data
    requires start >= 1 && count >= 1
  {
    Grouped(if k == 0 then "" else s.currency,
            First(Rest(s, start), Times(k, count)),
            if k == 0 then None else PaginatorOf(s, start + Times(k - 1, count), count))
  }

  function ErrorOf(t: Trouble): Option<FetchError> {
    match t
    case ContextDone(e) => Some(Context(e))
    case CallFails(e) => Some(Call(e))
    case _ => None
  }

  /** A run has stopped after `pages` pages, with what it gathered until then. */
  ghost predicate StopsAt(s: Server, trouble: nat -> Trouble, q: Params, out: Data, err: Option<FetchError>, pages: nat)
    requires q.start >= 1 && q.count >= 1
  {
    var needed := PagesNeeded(|Rest(s, q.start)|, s.reported, q.count);
    && Undisturbed(trouble, pages) && out == Gathered(s, q.start, q.count, pages) && pages <= needed
    && (if Validate(q).Some? then pages == 0 && err == InvalidOr(trouble(1), Validate(q).value)
        else if pages < needed then trouble(pages + 1) != Fine && err == ErrorOf(trouble(pages + 1))
        else err == None)
  }

  ghost predicate Undisturbed(trouble: nat -> Trouble, pages: nat) {
    forall i: nat | 1 <= i <= pages :: trouble(i) == Fine
  }

  /** The context is looked at before the parameters are. */
  function InvalidOr(t: Trouble, field: string): Option<FetchError> {
    if t.ContextDone? then ErrorOf(t) else Some(Invalid(field))
  }

  /** Another page is due after the first `pages`. */
  ghost predicate GoesOn(s: Server, trouble: nat -> Trouble, q: Params, cur: Params, out: Data, pages: nat)
    requires q.start >= 1 && q.count >= 1
  {
    var n := |Rest(s, q.start)|;
    && Undisturbed(trouble, pages) && out == Gathered(s, q.start, q.count, pages)
    && pages < PagesNeeded(n, s.reported, q.count) && Times(pages, q.count) <= n
    && cur == q.(start := q.start + Times(pages, q.count))
    && (pages > 0 ==> Validate(q).None?)
  }

  /** `TransactionsAll`: stops after the pages needed, or at the first round with
      trouble, and returns what it has gathered until then. */
  method TransactionsAll(s: Server, trouble: nat -> Trouble, params: Params)
      returns (out: Data, err: Option<FetchError>, pages: nat)
    ensures StopsAt(s, trouble, Normalized(params), out, err, pages)
  {
    var q := Normalized(params);
    var cur := q;
    out, pages := Data("", [], [], [], None), 0;
    NoPages(s, q.start, q.count);
    hide PagesNeeded, Times, Rest, Gathered, StopsAt;
    while true
      invariant GoesOn(s, trouble, q, cur, out, pages)
      decreases PagesNeeded(|Rest(s, q.start)|, s.reported, q.count) - pages
    {
      var t := trouble(pages + 1);
      var invalid := Validate(cur);
      if !t.Fine? || invalid.Some? {
        StopsEarly(s, trouble, q, cur, out, pages);
        if t.ContextDone? {
          return out, Some(Context(t.e)), pages;
        }
        if invalid.Some? {
          return out, Some(Invalid(invalid.value)), pages;
        }
        return out, if t.CallFails? then Some(Call(t.e)) else None, pages;
      }
      var page := PageOf(s, cur.start, cur.count);
      StopsOrGoesOn(s, trouble, q, cur, out, pages);
      out := Extended(out, page);
      pages := pages + 1;
      if Size(page) < cur.count {
        break;
      }
      if page.paginator.Some? && page.paginator.value.totalCount > 0 {
        if Size(out) >= page.paginator.value.totalCount {
          break;
        }
      }
      cur := cur.(start := cur.start + cur.count);
    }
    return out, None, pages;
  }

  lemma StopsEarly(s: Server, trouble: nat -> Trouble, q: Params, cur: Params, out: Data, pages: nat)
    requires q.start >= 1 && q.count >= 1 && GoesOn(s, trouble, q, cur, out, pages)
    requires !trouble(pages + 1).Fine? || Validate(cur).Some?
    ensures var t := trouble(pages + 1);
            StopsAt(s, trouble, q, out, if Validate(cur).Some? then InvalidOr(t, Validate(cur).value) else ErrorOf(t), pages)
  {
    hide PagesNeeded, Times, Rest, Gathered;
  }

  lemma StopsOrGoesOn(s: Server, trouble: nat -> Trouble, q: Params, cur: Params, out: Data, pages: nat)
    requires q.start >= 1 && q.count >= 1 && GoesOn(s, trouble, q, cur, out, pages)
    requires trouble(pages + 1).Fine? && Validate(cur).None?
    ensures cur.start >= 1 && cur.count >= 1
    ensures var page := PageOf(s, cur.start, cur.count);
            var longer := Extended(out, page);
            if Size(page) < cur.count || (s.reported.Some? && 0 < s.reported.value <= Size(longer)) then
              StopsAt(s, trouble, q, longer, None, pages + 1)
            else GoesOn(s, trouble, q, cur.(start := cur.start + cur.count), longer, pages + 1)
  {
    hide PagesNeeded, Times, Rest, PageOf, Gathered, Extended, Size;
    NextPage(s, q.start, q.count, pages);
    Sizes(s, q.start, q.count, pages);
    Sizes(s, q.start, q.count, pages + 1);
    LastIffNeeded(|Rest(s, q.start)|, s.reported, q.count, pages + 1);
  }

  lemma NoPages(s: Server, start: int, count: int)
    requires start >= 1 && count >= 1
    ensures Times(0, count) == 0 && Gathered(s, start, count, 0) == Data("", [], [], [], None)
  {
    assert First(Rest(s, start), 0) == [];
  }

  /** The page after the first k continues the rows where they left off. */
  lemma NextPage(s: Server, start: int, count: int, k: nat)
    requires start >= 1 && count >= 1 && Times(k, count) <= |Rest(s, start)|
    ensures Times(k + 1, count) == Times(k, count) + count
    ensures Gathered(s, start, count, k + 1)
         == Extended(Gathered(s, start, count, k), PageOf(s, start + Times(k, count), count))
  {
    hide Times, Rest, First, Grouped, Extended;
    TimesNext(k, count);
    var done := Times(k, count);
    NextRows(s, start, count, done);
    GroupedAppend(if k == 0 then "" else s.currency, First(Rest(s, start), done),
                  if k == 0 then None else PaginatorOf(s, start + Times(k - 1, count), count),
                  s.currency, First(Rest(s, start + done), count), PaginatorOf(s, start + done, count));
  }

  lemma Sizes(s: Server, start: int, count: int, k: nat)
    requires start >= 1 && count >= 1
    ensures Size(Gathered(s, start, count, k)) == Min(|Rest(s, start)|, Times(k, count))
    ensures Times(k, count) <= |Rest(s, start)| ==>
              Size(PageOf(s, start + Times(k, count), count)) == Min(count, |Rest(s, start)| - Times(k, count))
  {
    hide Times, Rest, Of, Grouped, Size;
    var done := Times(k, count);
    if done <= |Rest(s, start)| {
      NextRows(s, start, count, done);
    }
    KindsPartition(s.currency, First(Rest(s, start + done), count), PaginatorOf(s, start + done, count));
    KindsPartition(if k == 0 then "" else s.currency, First(Rest(s, start), done),
                   if k == 0 then None else PaginatorOf(s, start + Times(k - 1, count), count));
  }

  lemma TimesNext(k: nat, count: int)
    requires count >= 1
    ensures Times(k + 1, count) == Times(k, count) + count
  {
    assert (k + 1) * count == k * count + count;
  }

  lemma NextRows(s: Server, start: int, count: int, done: nat)
    requires start >= 1 && count >= 1 && done <= |Rest(s, start)|
    ensures var rest := Rest(s, start);
            var next := First(Rest(s, start + done), count);
            && First(rest, done) + next == First(rest, done + count)
            && |next| == Min(count, |rest| - done) && |First(rest, done + count)| == Min(|rest|, done + count)
  {
    assert Rest(s, start + done) == Rest(s, start)[done..];
  }

  // ---------- Is anything missed? ----------

  /** An undisturbed run returns every row from Start on exactly when the reported
      total is absent, or not positive, or, rounded up to whole pages, no less
      than the rows there are. */
  lemma CompleteIff(s: Server, start: int, count: int)
    requires start >= 1 && count >= 1
    ensures var rest := Rest(s, start);
            First(rest, Times(PagesNeeded(|rest|, s.reported, count), count)) == rest
            <==> s.reported.None? || s.reported.value <= 0 || Times(CeilDiv(s.reported.value, count), count) >= |rest|
  {
    var rest := Rest(s, start);
    var k := PagesNeeded(|rest|, s.reported, count);
    FloorIff(|rest|, count, |rest| / count + 1);
    if s.reported.Some? && s.reported.value > 0 {
      var c := CeilDiv(s.reported.value, count);
      FloorIff(|rest|, count, c);
    }
    assert First(rest, Times(k, count)) == rest <==> Times(k, count) >= |rest|;
  }

  /** A server that reports its true total, or none, loses nothing. */
  lemma TrueTotalIsComplete(s: Server, start: int, count: int)
    requires start >= 1 && count >= 1 && (s.reported.None? || s.reported.value == |s.rows|)
    ensures var k := PagesNeeded(|Rest(s, start)|, s.reported, count);
            && Gathered(s, start, count, k).payments == Of(Payment, Rest(s, start))
            && Gathered(s, start, count, k).refunds == Of(Refund, Rest(s, start))
            && Gathered(s, start, count, k).repayments == Of(Repayment, Rest(s, start))
  {
    if s.reported.Some? && s.reported.value > 0 {
      CeilIff(s.reported.value, count, CeilDiv(s.reported.value, count));
    }
    CompleteIff(s, start, count);
  }

  /** A total that is too small makes the walk stop before the end, without an
      error. */
  lemma StaleTotalLosesRows(s: Server, row: Row)
    requires s.rows == seq(4, _ => row) && s.reported == Some(2)
    ensures PagesNeeded(|Rest(s, 1)|, s.reported, 2) == 1 && First(Rest(s, 1), Times(1, 2)) != Rest(s, 1)
  {
    CompleteIff(s, 1, 2);
  }
}
