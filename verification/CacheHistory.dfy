/** What the idempotency cache holds after any run of operations: the `cap`
    keys touched most recently, each with its latest stored entry. */
module CacheHistory {
  import opened Strings
  import opened Wrappers
  import opened ReplayCache

  datatype Op = Get(key: string) | Put(entry: CacheEntry) | Reset

  /** The cache contents after a run, step by step. */
  function Run(cap: nat, ops: seq<Op>): seq<CacheEntry> {
    if ops == [] then [] else Step(cap, Run(cap, ops[..|ops| - 1]), ops[|ops| - 1])
  }

  function Step(cap: nat, s: seq<CacheEntry>, op: Op): seq<CacheEntry> {
    match op
    case Get(k) => AfterGet(s, k)
    case Put(e) => AfterPut(s, cap, e)
    case Reset => []
  }

  // ---------- The reference: the order in which keys were touched ----------

  /** The keys touched since the last reset, oldest first. A `Put` touches its
      key; a `Get` touches its key when it hits. */
  function Touches(cap: nat, ops: seq<Op>): seq<string> {
    if ops == [] then []
    else
      var init := ops[..|ops| - 1];
      match ops[|ops| - 1]
      case Get(k) => if Lookup(Run(cap, init), k).Some? then Touches(cap, init) + [k] else Touches(cap, init)
      case Put(e) => Touches(cap, init) + [e.key]
      case Reset => []
  }

  /** The distinct keys of a touch log, most recently touched first. */
  function Recent(t: seq<string>): seq<string> {
    if t == [] then [] else [t[|t| - 1]] + Dropping(Recent(t[..|t| - 1]), t[|t| - 1])
  }

  /** What was touched after the last touch of `k`. */
  function Since(t: seq<string>, k: string): seq<string> {
    if t == [] || t[|t| - 1] == k then [] else Since(t[..|t| - 1], k) + [t[|t| - 1]]
  }

  /** The entry stored for `k` last, if any since the last reset. */
  function Latest(ops: seq<Op>, k: string): Option<CacheEntry> {
    if ops == [] then None
    else match ops[|ops| - 1]
      case Reset => None
      case Put(e) => if e.key == k then Some(e) else Latest(ops[..|ops| - 1], k)
      case Get(_) => Latest(ops[..|ops| - 1], k)
  }

  function Take<T>(n: nat, s: seq<T>): seq<T> {
    if n <= |s| then s[..n] else s
  }

  // ---------- Facts about the reference ----------

  lemma {:induction false} DroppingAppend<T>(a: seq<T>, b: seq<T>, x: T)
    ensures Dropping(a + b, x) == Dropping(a, x) + Dropping(b, x)
  {
    if a == [] {
      assert a + b == b;
    } else {
      assert (a + b)[1..] == a[1..] + b;
      DroppingAppend(a[1..], b, x);
    }
  }

  lemma {:induction false} RecentListsTouched(t: seq<string>)
    ensures NoDup(Recent(t)) && Elements(Recent(t)) == Elements(t)
  {
    if t != [] {
      var init, last := t[..|t| - 1], t[|t| - 1];
      RecentListsTouched(init);
      DroppingFacts(Recent(init), last);
      assert t == init + [last];
      forall x
        ensures x in Recent(t) <==> x in t
      {
        assert x in Recent(init) <==> x in Elements(Recent(init));
        assert x in init <==> x in Elements(init);
      }
    }
  }

  lemma {:induction false} NoDupSize<T>(s: seq<T>)
    requires NoDup(s)
    ensures |Elements(s)| == |s|
  {
    if s != [] {
      NoDupSize(s[1..]);
      assert s == [s[0]] + s[1..];
      assert Elements(s) == {s[0]} + Elements(s[1..]);
      assert s[0] !in s[1..];
    }
  }

  lemma DroppingAround(list: seq<string>, r: nat, last: string)
    requires r < |list| && list[r] != last
    ensures Dropping(list, last) == Dropping(list[..r], last) + [list[r]] + Dropping(list[r + 1..], last)
  {
    var k := list[r];
    assert list == list[..r] + ([k] + list[r + 1..]);
    DroppingAppend(list[..r], [k] + list[r + 1..], last);
    assert ([k] + list[r + 1..])[1..] == list[r + 1..];
  }

  lemma SameSetAfterTouch(a: seq<string>, b: seq<string>, last: string)
    requires Elements(a) == Elements(b)
    ensures Elements([last] + Dropping(a, last)) == Elements(b + [last])
  {
    DroppingFacts(a, last);
    forall x
      ensures x in [last] + Dropping(a, last) <==> x in b + [last]
    {
      assert x in a <==> x in Elements(a);
      assert x in b <==> x in Elements(b);
    }
  }

  /** A key's place in the recency list counts the distinct keys touched since. */
  lemma {:induction false} RankCountsSince(t: seq<string>, k: string) returns (r: nat)
    requires k in t
    ensures r < |Recent(t)| && Recent(t)[r] == k
    ensures Elements(Recent(t)[..r]) == Elements(Since(t, k)) && r == |Elements(Since(t, k))|
  {
    r := RankBySince(t, k);
    RecentListsTouched(t);
    NoDupSize(Recent(t)[..r]);
  }

  lemma {:induction false} RankBySince(t: seq<string>, k: string) returns (r: nat)
    requires k in t
    ensures r < |Recent(t)| && Recent(t)[r] == k
    ensures Elements(Recent(t)[..r]) == Elements(Since(t, k))
  {
    var init, last := t[..|t| - 1], t[|t| - 1];
    assert t == init + [last];
    if last == k {
      r := 0;
    } else {
      var r0 := RankBySince(init, k);
      var before := Dropping(Recent(init)[..r0], last);
      DroppingAround(Recent(init), r0, last);
      r := 1 + |before|;
      assert Recent(t)[..r] == [last] + before;
      SameSetAfterTouch(Recent(init)[..r0], Since(init, k), last);
    }
  }

  lemma TakeAppend(n: nat, a: seq<string>, b: seq<string>)
    requires |a| == n || (|a| < n && b == [])
    ensures Take(n, a + b) == a
    ensures n > 0 ==> Take(n - 1, a + b) == Take(n - 1, a)
  {
    assert (a + b)[..|a|] == a;
    if |a| == n {
      assert n > 0 ==> (a + b)[..n - 1] == a[..n - 1];
    } else {
      assert a + b == a;
    }
  }

  /** Touching `k` in a list cut at `n`: what is kept is what a cut-off list
      would have kept. */
  lemma TakeDropping(n: nat, list: seq<string>, k: string)
    requires n > 0 && NoDup(list)
    ensures Take(n, [k] + Dropping(list, k))
         == [k] + if k in Take(n, list) then Dropping(Take(n, list), k) else Take(n - 1, list)
  {
    var a := Take(n, list);
    var b := list[|a|..];
    assert list == a + b;
    DroppingAppend(a, b, k);
    DroppingFacts(a, k);
    var rest := Dropping(b, k);
    assert b == [] ==> rest == [];
    assert |a| == n || (|a| < n && b == []);
    hide Take, Dropping, NoDup;
    if k in a {
      TakeAppend(n, [k] + Dropping(a, k), rest);
      assert [k] + (Dropping(a, k) + rest) == [k] + Dropping(a, k) + rest;
    } else {
      TakeAppend(n, a, b);
      TakeAppend(n, a, rest);
      TakeCons(n, k, a + rest);
    }
  }

  lemma TakeCons(n: nat, k: string, s: seq<string>)
    requires n > 0
    ensures Take(n, [k] + s) == [k] + Take(n - 1, s)
  {
  }

  lemma {:induction false} KeysWithout(s: seq<CacheEntry>, key: string)
    ensures Keys(Without(s, key)) == Dropping(Keys(s), key)
    ensures forall e | e in Without(s, key) :: e in s && e.key != key
  {
    if s != [] {
      KeysWithout(s[1..], key);
      assert Keys(s) == [s[0].key] + Keys(s[1..]);
      assert Keys(s)[1..] == Keys(s[1..]);
      if s[0].key != key {
        assert Keys(Without(s, key)) == [s[0].key] + Keys(Without(s[1..], key));
      }
    }
  }

  lemma KeysCons(e: CacheEntry, s: seq<CacheEntry>)
    ensures Keys([e] + s) == [e.key] + Keys(s)
  {
  }

  // ---------- Main results ----------

  /** After any run the cache lists exactly the first `cap` distinct keys in
      most-recently-touched order. */
  lemma {:induction false} HoldsTheMostRecent(cap: nat, ops: seq<Op>)
    requires cap > 0
    ensures Keys(Run(cap, ops)) == Take(cap, Recent(Touches(cap, ops)))
  {
    if ops != [] {
      var init := ops[..|ops| - 1];
      var s, t := Run(cap, init), Touches(cap, init);
      HoldsTheMostRecent(cap, init);
      RecentListsTouched(t);
      match ops[|ops| - 1] {
        case Get(k) =>
          LookupFinds(s, k);
          if Lookup(s, k).Some? {
            Touching(cap, s, t, k, Lookup(s, k).value);
          }
        case Put(e) =>
          LookupFinds(s, e.key);
          if Lookup(s, e.key).Some? {
            Touching(cap, s, t, e.key, e);
          } else {
            Storing(cap, s, t, e);
          }
        case Reset =>
      }
    }
  }

  lemma Storing(cap: nat, s: seq<CacheEntry>, t: seq<string>, e: CacheEntry)
    requires cap > 0 && e.key !in Keys(s) && Keys(s) == Take(cap, Recent(t)) && NoDup(Recent(t))
    ensures Keys([e] + if |s| >= cap then s[..|s| - 1] else s) == Take(cap, Recent(t + [e.key]))
  {
    assert (t + [e.key])[..|t|] == t;
    TakeDropping(cap, Recent(t), e.key);
    if |s| >= cap {
      KeysCons(e, s[..|s| - 1]);
      assert Keys(s[..|s| - 1]) == Keys(s)[..|s| - 1];
    } else {
      KeysCons(e, s);
    }
  }

  lemma Touching(cap: nat, s: seq<CacheEntry>, t: seq<string>, k: string, e: CacheEntry)
    requires cap > 0 && e.key == k && k in Keys(s) && Keys(s) == Take(cap, Recent(t)) && NoDup(Recent(t))
    ensures Keys([e] + Without(s, k)) == Take(cap, Recent(t + [k]))
  {
    assert (t + [k])[..|t|] == t;
    KeysCons(e, Without(s, k));
    KeysWithout(s, k);
    TakeDropping(cap, Recent(t), k);
  }

  /** Every entry held is the one stored last for its key. */
  lemma {:induction false} HoldsTheLatest(cap: nat, ops: seq<Op>)
    ensures forall e | e in Run(cap, ops) :: Latest(ops, e.key) == Some(e)
  {
    if ops != [] {
      var s := Run(cap, ops[..|ops| - 1]);
      HoldsTheLatest(cap, ops[..|ops| - 1]);
      match ops[|ops| - 1] {
        case Get(k) =>
          LookupFinds(s, k);
          KeysWithout(s, k);
        case Put(e) =>
          LookupFinds(s, e.key);
          KeysWithout(s, e.key);
          forall x | x in s && Lookup(s, e.key).None?
            ensures x.key != e.key
          {
            var i :| 0 <= i < |s| && s[i] == x;
            assert Keys(s)[i] == x.key;
          }
        case Reset =>
      }
    }
  }

  /** A lookup hits exactly when its key was touched since the last reset and
      fewer than `cap` other keys were touched after that; it then returns the
      entry stored last. */
  lemma HitIff(cap: nat, ops: seq<Op>, k: string)
    requires cap > 0
    ensures var t := Touches(cap, ops);
            Lookup(Run(cap, ops), k) ==
            if k in t && |Elements(Since(t, k))| < cap then Latest(ops, k) else None
    ensures Lookup(Run(cap, ops), k).Some? <==> k in Touches(cap, ops) && |Elements(Since(Touches(cap, ops), k))| < cap
  {
    var s, t := Run(cap, ops), Touches(cap, ops);
    var list := Recent(t);
    HoldsTheMostRecent(cap, ops);
    HoldsTheLatest(cap, ops);
    LookupFinds(s, k);
    RecentListsTouched(t);
    assert k in list <==> k in Elements(list);
    assert k in t <==> k in Elements(t);
    if k in t {
      var r := RankCountsSince(t, k);
      if r < cap {
        assert Take(cap, list)[r] == k;
      }
      if k in Take(cap, list) {
        var i :| 0 <= i < |Take(cap, list)| && Take(cap, list)[i] == k;
        assert list[i] == k && i == r;
      }
    }
  }

  /** A `Put` of a new key into a full cache removes the least recently touched
      key and nothing else: every other key held was touched after it. */
  lemma FullPutEvictsOldest(cap: nat, ops: seq<Op>, e: CacheEntry)
    requires cap > 0 && |Run(cap, ops)| == cap && Lookup(Run(cap, ops), e.key).None?
    ensures var before, oldest := Run(cap, ops), Run(cap, ops)[cap - 1].key;
            Run(cap, ops + [Put(e)]) == [e] + before[..cap - 1]
            && Elements(Since(Touches(cap, ops), oldest)) == Elements(Keys(before[..cap - 1]))
  {
    var before, t := Run(cap, ops), Touches(cap, ops);
    assert (ops + [Put(e)])[..|ops|] == ops;
    HoldsTheMostRecent(cap, ops);
    OldestIsLast(cap, before, t);
  }

  lemma OldestIsLast(cap: nat, s: seq<CacheEntry>, t: seq<string>)
    requires cap > 0 && |s| == cap && Keys(s) == Take(cap, Recent(t))
    ensures Elements(Since(t, s[cap - 1].key)) == Elements(Keys(s[..cap - 1]))
  {
    var k := s[cap - 1].key;
    var list := Recent(t);
    assert Keys(s)[cap - 1] == k && list[cap - 1] == k;
    RecentListsTouched(t);
    assert k in Elements(list);
    var r := RankCountsSince(t, k);
    assert r == cap - 1;
    assert Keys(s[..cap - 1]) == Keys(s)[..cap - 1] == list[..cap - 1];
  }
}
