/** atomefin/transport/retry.go: the retry policy and its backoff arithmetic. */
module Backoff {
  import opened Int64
  import opened Wrappers

  /** What the policy can tell about a transport failure: whether it wraps
      `context.Canceled`. */
  datatype NetError = Canceled | Transient

  datatype RetryPolicy = RetryPolicy(
    maxAttempts: Int64,
    base: Int64,
    cap: Int64,
    jitter: real,
    retryOnStatus: int -> bool,
    retryOnTransportError: NetError -> bool)

  function Validate(p: RetryPolicy): (r: Option<string>)
    ensures r.None? <==> Sane(p)
  {
    if p.maxAttempts < 1 then Some("MaxAttempts must be >= 1")
    else if p.base < 0 then Some("Base must be >= 0")
    else if p.cap < 0 then Some("Cap must be >= 0")
    else if p.cap > 0 && p.base > p.cap then Some("Base must be <= Cap")
    else if p.jitter < 0.0 || p.jitter > 1.0 then Some("Jitter must be in [0,1]")
    else None
  }

  predicate Sane(p: RetryPolicy) {
    1 <= p.maxAttempts && 0 <= p.base && 0 <= p.cap && (p.cap > 0 ==> p.base <= p.cap) && 0.0 <= p.jitter <= 1.0
  }

  /** A refusal says which bound is broken. */
  lemma RefusalNames(p: RetryPolicy)
    requires Validate(p).Some?
    ensures var m := Validate(p).value;
            || (m == "MaxAttempts must be >= 1" && p.maxAttempts < 1) || (m == "Base must be >= 0" && p.base < 0)
            || (m == "Cap must be >= 0" && p.cap < 0) || (m == "Base must be <= Cap" && 0 < p.cap < p.base)
            || (m == "Jitter must be in [0,1]" && !(0.0 <= p.jitter <= 1.0))
  {
  }

  /** d times 2^n. */
  function Doubled(d: int, n: nat): int {
    if n == 0 then d else 2 * Doubled(d, n - 1)
  }

  lemma {:induction false} DoubledMonotone(d: int, m: nat, n: nat)
    requires 0 <= d && m <= n
    ensures 0 <= Doubled(d, m) <= Doubled(d, n)
    decreases n
  {
    if m < n {
      DoubledMonotone(d, m, n - 1);
    } else if n > 0 {
      DoubledMonotone(d, n - 1, n - 1);
    }
  }

  /** Go's `d << n` on an int64. */
  function ShiftLeft(d: Int64, n: nat): Int64 {
    Wrap(Doubled(d, n))
  }

  /** The shift used for an attempt, saturating at both ends. */
  function ShiftOf(attempt: int): nat {
    if attempt < 1 then 0 else Min(attempt - 1, 30)
  }

  /** The delay before jitter. */
  function Unjittered(p: RetryPolicy, attempt: int): Int64 {
    var d := ShiftLeft(p.base, ShiftOf(attempt));
    if p.cap > 0 && d > p.cap then p.cap else d
  }

  /** `Backoff`. `draw` is the random r in [-1, 1), absent when the random
      source fails. */
  method Backoff(p: RetryPolicy, attempt: int, draw: Option<real>) returns (d: int)
    ensures d == Delay(p, attempt, draw)
  {
    var a := attempt;
    if a < 1 {
      a := 1;
    }
    var shift := a - 1;
    if shift > 30 {
      shift := 30;
    }
    d := ShiftLeft(p.base, shift);
    if p.cap > 0 && d > p.cap {
      d := p.cap;
    }
    if p.jitter > 0.0 && d > 0 && draw.Some? {
      var f := Factor(p.jitter, draw.value);
      MultipleIsProduct(d, f);
      d := Convert(d as real * f);
      if d < 0 {
        d := 0;
      }
    }
  }

  function Delay(p: RetryPolicy, attempt: int, draw: Option<real>): int {
    Jittered(Unjittered(p, attempt), p.jitter, draw)
  }

  function Jittered(d: int, jitter: real, draw: Option<real>): int {
    if jitter > 0.0 && d > 0 && draw.Some? then
      var j := Scaled(d, Factor(jitter, draw.value));
      if j < 0 then 0 else j
    else d
  }

  function Factor(jitter: real, r: real): real {
    1.0 + jitter * r
  }

  function Scaled(d: nat, f: real): Int64 {
    Convert(Multiple(d, f))
  }

  /** n times b, by addition, which keeps the proofs below linear. */
  function Multiple(n: nat, b: real): real {
    if n == 0 then 0.0 else Multiple(n - 1, b) + b
  }

  lemma {:induction false} MultipleIsProduct(n: nat, b: real)
    ensures Multiple(n, b) == n as real * b
  {
    if n > 0 {
      MultipleIsProduct(n - 1, b);
      AddOne((n - 1) as real, b);
    }
  }

  lemma AddOne(x: real, b: real)
    ensures (x + 1.0) * b == x * b + b
  {
  }

  lemma {:induction false} MultipleMonotone(m: nat, n: nat, f: real, g: real)
    requires m <= n && 0.0 <= f <= g
    ensures 0.0 <= Multiple(m, f) <= Multiple(n, g)
    decreases n
  {
    if m < n {
      MultipleMonotone(m, n - 1, f, g);
    } else if n > 0 {
      MultipleMonotone(m - 1, n - 1, f, g);
    }
  }

  // ---------- What the delays are ----------

  /** The exponential the documentation promises: Base * 2^(attempt-1), capped. */
  function Intended(p: RetryPolicy, attempt: int): int {
    var d := Doubled(p.base, ShiftOf(attempt));
    if p.cap > 0 then Min(p.cap, d) else d
  }

  /** The computed delay is the intended one exactly when the shifted base still
      fits int64, or wraps to something the cap hides. */
  lemma UnjitteredIsIntendedIff(p: RetryPolicy, attempt: int)
    requires Sane(p)
    ensures var d := Doubled(p.base, ShiftOf(attempt));
            Unjittered(p, attempt) == Intended(p, attempt)
            <==> d < TWO_63 || (p.cap > 0 && Wrap(d) >= p.cap)
  {
    DoubledMonotone(p.base, 0, ShiftOf(attempt));
    WrapCongruent(Doubled(p.base, ShiftOf(attempt)));
  }

  /** A policy that passes validation can still wrap: the third wait of a very
      large base is no wait at all. */
  lemma LargeBaseWraps(p: RetryPolicy)
    requires p.maxAttempts == 4 && p.base == p.cap == 0x4000_0000_0000_0000 && p.jitter == 0.0
    ensures Sane(p) && Unjittered(p, 1) == p.cap && Unjittered(p, 3) == 0 && Intended(p, 3) == p.cap
  {
    assert Doubled(p.base, 0) == p.base && Doubled(p.base, 1) == 2 * p.base && Doubled(p.base, 2) == 4 * p.base;
  }

  /** Small enough bases never wrap, at any attempt. */
  predicate FitsShift(p: RetryPolicy) {
    Doubled(p.base, 30) < TWO_63
  }

  lemma IntendedWhenItFits(p: RetryPolicy, attempt: int)
    requires Sane(p) && FitsShift(p)
    ensures Unjittered(p, attempt) == Intended(p, attempt) >= 0
  {
    DoubledMonotone(p.base, ShiftOf(attempt), 30);
    UnjitteredIsIntendedIff(p, attempt);
  }

  /** Every attempt up to the 31st waits twice as long as the one before, and all later
      ones as long as that, until the cap is reached. */
  lemma WaitsDouble(p: RetryPolicy, attempt: int)
    requires Sane(p) && FitsShift(p)
    ensures Unjittered(p, 1) == p.base
    ensures var d := Unjittered(p, attempt);
            Unjittered(p, attempt + 1)
            == if attempt < 1 || attempt > 30 then d else if p.cap > 0 then Min(p.cap, 2 * d) else 2 * d
  {
    IntendedWhenItFits(p, 1);
    IntendedWhenItFits(p, attempt);
    IntendedWhenItFits(p, attempt + 1);
    assert Doubled(p.base, 0) == p.base;
    DoubledMonotone(p.base, 0, ShiftOf(attempt));
  }

  lemma BackoffMonotone(p: RetryPolicy, i: int, j: int)
    requires Sane(p) && FitsShift(p) && i <= j
    ensures Unjittered(p, i) <= Unjittered(p, j)
  {
    IntendedWhenItFits(p, i);
    IntendedWhenItFits(p, j);
    DoubledMonotone(p.base, ShiftOf(i), ShiftOf(j));
  }

  /** Jitter is applied after the cap, so a delay may exceed the cap by the
      jitter fraction, and never more, wrapped or not; it is negative only when
      the shift has wrapped. */
  lemma JitteredBound(p: RetryPolicy, attempt: int, draw: Option<real>)
    requires Sane(p) && p.cap > 0
    requires draw.Some? ==> -1.0 <= draw.value <= 1.0
    ensures Delay(p, attempt, draw) as real <= Multiple(p.cap, 1.0 + p.jitter)
    ensures Delay(p, attempt, draw) < 0 <==> Unjittered(p, attempt) < 0
    ensures FitsShift(p) ==> 0 <= Delay(p, attempt, draw)
  {
    if FitsShift(p) {
      IntendedWhenItFits(p, attempt);
    }
    var d := Unjittered(p, attempt);
    if d < 0 {
      MultipleMonotone(0, p.cap, 1.0 + p.jitter, 1.0 + p.jitter);
    } else {
      JitteredWithin(d, p.cap, p.jitter, draw);
    }
  }

  lemma JitteredWithin(d: nat, cap: nat, jitter: real, draw: Option<real>)
    requires d <= cap && 0.0 <= jitter <= 1.0
    requires draw.Some? ==> -1.0 <= draw.value <= 1.0
    ensures 0 <= Jittered(d, jitter, draw)
    ensures Jittered(d, jitter, draw) as real <= Multiple(cap, 1.0 + jitter)
  {
    MultipleIsProduct(d, 1.0);
    MultipleMonotone(d, cap, 1.0, 1.0 + jitter);
    if draw.Some? {
      FactorBound(jitter, draw.value);
      ScaledWithin(d, cap, Factor(jitter, draw.value), 1.0 + jitter);
    }
  }

  lemma ScaledWithin(d: nat, cap: nat, f: real, g: real)
    requires d <= cap && 0.0 <= f <= g
    ensures Scaled(d, f) as real <= Multiple(cap, g)
  {
    MultipleMonotone(d, cap, f, g);
    ConvertAtMost(Multiple(d, f));
  }

  lemma ConvertAtMost(x: real)
    requires 0.0 <= x
    ensures Convert(x) as real <= x
    ensures Convert(x) == Trunc(x) >= 0 <==> x < TWO_63 as real
  {
  }

  /** The product after jitter is the truncated one exactly when it fits int64;
      when it does not, there is no wait at all. */
  lemma JitteredIsTruncatedIff(d: nat, jitter: real, r: real)
    requires d > 0 && 0.0 < jitter <= 1.0 && -1.0 <= r <= 1.0
    ensures var product := Multiple(d, Factor(jitter, r));
            && (Jittered(d, jitter, Some(r)) == Trunc(product) <==> product < TWO_63 as real)
            && (product >= TWO_63 as real ==> Jittered(d, jitter, Some(r)) == 0)
  {
    FactorBound(jitter, r);
    MultipleMonotone(0, d, Factor(jitter, r), Factor(jitter, r));
    ConvertAtMost(Multiple(d, Factor(jitter, r)));
  }

  /** So jitter comes out as intended for every draw exactly when the largest
      product fits. */
  lemma JitterIsSafeIff(d: nat, jitter: real)
    requires d > 0 && 0.0 < jitter <= 1.0
    ensures (forall r | -1.0 <= r <= 1.0 :: Jittered(d, jitter, Some(r)) == Trunc(Multiple(d, Factor(jitter, r))))
       <==> Multiple(d, 1.0 + jitter) < TWO_63 as real
  {
    assert Factor(jitter, 1.0) == 1.0 + jitter;
    JitteredIsTruncatedIff(d, jitter, 1.0);
    forall r | -1.0 <= r <= 1.0 && Multiple(d, 1.0 + jitter) < TWO_63 as real
      ensures Jittered(d, jitter, Some(r)) == Trunc(Multiple(d, Factor(jitter, r)))
    {
      FactorBound(jitter, r);
      MultipleMonotone(d, d, Factor(jitter, r), 1.0 + jitter);
      JitteredIsTruncatedIff(d, jitter, r);
    }
  }

  /** A valid policy whose first delay is cancelled by its own jitter. */
  lemma JitterCancelsWait(p: RetryPolicy)
    requires p.maxAttempts == 2 && p.base == p.cap == TWO_63 - 1 && p.jitter == 1.0
    ensures Sane(p) && Unjittered(p, 1) == p.cap && Delay(p, 1, Some(0.5)) == 0
  {
    assert Doubled(p.base, 0) == p.base;
    var f := Factor(1.0, 0.5);
    assert f == 1.5;
    MultipleIsProduct(p.cap, f);
    assert p.cap as real * 1.5 >= TWO_63 as real;
    JitteredIsTruncatedIff(p.cap, 1.0, 0.5);
  }

  lemma FactorBound(j: real, r: real)
    requires 0.0 <= j <= 1.0 && -1.0 <= r <= 1.0
    ensures 0.0 <= Factor(j, r) <= 1.0 + j
  {
    assert j * r <= j * 1.0;
    assert j * r >= j * -1.0;
  }
}
