/** atomefin/request_id.go: the layout of a generated request id. */
module RequestId {
  import opened Strings
  import opened Wrappers
  import opened AesBody

  const TWO_48 := 0x1_0000_0000_0000
  const RANDOM_BYTES := 10
  const ID_LENGTH := 32

  // ---------- Hexadecimal ----------

  function HexChar(n: nat): (c: char)
    requires n < 16
    ensures '0' <= c <= '9' || 'a' <= c <= 'f'
  {
    if n < 10 then '0' + n as char else 'a' + (n - 10) as char
  }

  function HexPair(b: Byte): (s: string)
    ensures |s| == 2
  {
    [HexChar(b / 16), HexChar(b % 16)]
  }

  /** `hex.EncodeToString`. */
  function Hex(bytes: Binary): (s: string)
    ensures |s| == 2 * |bytes|
    ensures forall i | 0 <= i < |s| :: '0' <= s[i] <= '9' || 'a' <= s[i] <= 'f'
  {
    if bytes == [] then "" else Hex(bytes[..|bytes| - 1]) + HexPair(bytes[|bytes| - 1])
  }

  lemma HexSnoc(bytes: Binary, b: Byte)
    ensures Hex(bytes + [b]) == Hex(bytes) + HexPair(b)
  {
    assert (bytes + [b])[..|bytes|] == bytes;
  }

  lemma {:induction false} HexAppend(a: Binary, b: Binary)
    ensures Hex(a + b) == Hex(a) + Hex(b)
  {
    if b == [] {
      assert a + b == a;
    } else {
      assert (a + b)[..|a + b| - 1] == a + b[..|b| - 1];
      HexAppend(a, b[..|b| - 1]);
    }
  }

  lemma HexPairOrder(a: Byte, b: Byte)
    requires a < b
    ensures Below(HexPair(a), HexPair(b))
  {
    assert HexPair(a)[1..] == [HexChar(a % 16)] && HexPair(b)[1..] == [HexChar(b % 16)];
    if a / 16 < b / 16 {
      assert HexChar(a / 16) < HexChar(b / 16);
    } else {
      assert a / 16 == b / 16 && HexChar(a % 16) < HexChar(b % 16);
    }
  }

  lemma {:induction false} BelowExtends(a: string, b: string, x: string, y: string)
    requires |a| == |b| && Below(a, b)
    ensures Below(a + x, b + y)
  {
    assert (a + x)[0] == a[0] && (a + x)[1..] == a[1..] + x;
    assert (b + y)[0] == b[0] && (b + y)[1..] == b[1..] + y;
    if a[0] == b[0] {
      BelowExtends(a[1..], b[1..], x, y);
    }
  }

  lemma {:induction false} BelowAfter(a: string, x: string, y: string)
    requires Below(x, y)
    ensures Below(a + x, a + y)
  {
    if a == "" {
      assert a + x == x && a + y == y;
    } else {
      assert (a + x)[1..] == a[1..] + x && (a + y)[1..] == a[1..] + y;
      BelowAfter(a[1..], x, y);
    }
  }

  // ---------- Big-endian numbers ----------

  /** The low k bytes of n, most significant first. */
  function BigEndian(n: nat, k: nat): (r: Binary)
    ensures |r| == k
  {
    if k == 0 then [] else BigEndian(n / 256, k - 1) + [n % 256]
  }

  function Power256(k: nat): nat {
    if k == 0 then 1 else 256 * Power256(k - 1)
  }

  lemma ByteOrder(m: nat, n: nat, p: nat)
    requires m < n < 256 * p
    ensures n / 256 < p && (m / 256 < n / 256 || (m / 256 == n / 256 && m % 256 < n % 256))
  {
  }

  /** Within k bytes, a smaller number has the smaller text. */
  lemma {:induction false} BigEndianOrder(m: nat, n: nat, k: nat)
    requires m < n < Power256(k)
    ensures Below(Hex(BigEndian(m, k)), Hex(BigEndian(n, k)))
  {
    var a, b := BigEndian(m / 256, k - 1), BigEndian(n / 256, k - 1);
    ByteOrder(m, n, Power256(k - 1));
    HexSnoc(a, m % 256);
    HexSnoc(b, n % 256);
    hide Hex, HexPair, Below;
    if m / 256 < n / 256 {
      BigEndianOrder(m / 256, n / 256, k - 1);
      BelowExtends(Hex(a), Hex(b), HexPair(m % 256), HexPair(n % 256));
    } else {
      HexPairOrder(m % 256, n % 256);
      BelowAfter(Hex(a), HexPair(m % 256), HexPair(n % 256));
    }
  }

  // ---------- The id ----------

  /** The sixteen bytes: 48 bits of the time, then the random bytes, or the whole
      time again when there are none. */
  function Layout(ms: nat, random: Option<Binary>): Binary {
    BigEndian(ms, 6) + match random case Some(bytes) => bytes case None => [0, 0] + BigEndian(ms, 8)
  }

  /** `DefaultRequestID`, at time `ms` (an unsigned 64-bit count of milliseconds). */
  method DefaultRequestID(ms: nat, random: Option<Binary>) returns (id: string)
    requires random.Some? ==> |random.value| == RANDOM_BYTES
    ensures id == Hex(Layout(ms, random)) && |id| == ID_LENGTH
    ensures forall i | 0 <= i < |id| :: '0' <= id[i] <= '9' || 'a' <= id[i] <= 'f'
  {
    var buf := new Byte[16](_ => 0);
    buf[0] := ms / 0x100_0000_0000 % 256;
    buf[1] := ms / 0x1_0000_0000 % 256;
    buf[2] := ms / 0x100_0000 % 256;
    buf[3] := ms / 0x1_0000 % 256;
    buf[4] := ms / 0x100 % 256;
    buf[5] := ms % 256;
    SixBytes(ms);
    hide Hex, BigEndian;
    assert buf[..6] == BigEndian(ms, 6);
    if random.Some? {
      forall i | 0 <= i < RANDOM_BYTES {
        buf[6 + i] := random.value[i];
      }
      assert buf[6..] == random.value;
    } else {
      var tail := BigEndian(ms, 8);
      forall i | 0 <= i < 8 {
        buf[8 + i] := tail[i];
      }
      assert buf[6..] == [0, 0] + tail;
    }
    assert buf[..] == buf[..6] + buf[6..] == Layout(ms, random);
    id := Hex(buf[..]);
  }

  lemma SixBytes(ms: nat)
    ensures BigEndian(ms, 6) == [ms / 0x100_0000_0000 % 256, ms / 0x1_0000_0000 % 256, ms / 0x100_0000 % 256,
                                 ms / 0x1_0000 % 256, ms / 0x100 % 256, ms % 256]
  {
    var b, c := ms / 256, ms / 0x1_0000;
    var d, e, f := ms / 0x100_0000, ms / 0x1_0000_0000, ms / 0x100_0000_0000;
    assert b / 256 == c && c / 256 == d && d / 256 == e && e / 256 == f;
    assert BigEndian(f, 1) == [f % 256];
    assert BigEndian(e, 2) == [f % 256, e % 256];
    assert BigEndian(d, 3) == [f % 256, e % 256, d % 256];
    assert BigEndian(c, 4) == [f % 256, e % 256, d % 256, c % 256];
    assert BigEndian(b, 5) == [f % 256, e % 256, d % 256, c % 256, b % 256];
  }

  lemma {:induction false} HighBytesIgnored(n: nat, q: nat, k: nat)
    ensures BigEndian(n + Power256(k) * q, k) == BigEndian(n, k)
  {
    hide Power256;
    if k > 0 {
      var x := Power256(k - 1) * q;
      PowerStep(k, q);
      HighBytesIgnored(n / 256, q, k - 1);
      ByteStep(n, x);
    }
  }

  lemma PowerStep(k: nat, q: nat)
    requires k > 0
    ensures Power256(k) * q == 256 * (Power256(k - 1) * q)
  {
  }

  lemma ByteStep(n: nat, x: nat)
    ensures (n + 256 * x) / 256 == n / 256 + x && (n + 256 * x) % 256 == n % 256
  {
  }

  /** Only the low 48 bits of the time enter the id. */
  lemma SixBytesWrap(n: nat)
    ensures BigEndian(n, 6) == BigEndian(n % TWO_48, 6)
  {
    SixBytesPower();
    HighBytesIgnored(n % TWO_48, n / TWO_48, 6);
  }

  /** Ids sort by their millisecond, whatever the random bytes, also when one of
      them had to do without any: up to 2^48 milliseconds, and after that by the
      time's low 48 bits. */
  lemma IdsSortByTime(m: nat, n: nat, random: Option<Binary>, random': Option<Binary>)
    requires m % TWO_48 < n % TWO_48
    ensures Below(Hex(Layout(m, random)), Hex(Layout(n, random')))
  {
    var a, b := BigEndian(m, 6), BigEndian(n, 6);
    SixBytesPower();
    SixBytesWrap(m);
    SixBytesWrap(n);
    BigEndianOrder(m % TWO_48, n % TWO_48, 6);
    var x, y := Layout(m, random)[6..], Layout(n, random')[6..];
    assert Layout(m, random) == a + x && Layout(n, random') == b + y;
    HexAppend(a, x);
    HexAppend(b, y);
    BelowExtends(Hex(a), Hex(b), Hex(x), Hex(y));
  }

  /** Exactly which times sort: at two given times every pair of ids comes out in
      their order if and only if the low 48 bits of the first are below those of
      the second. */
  lemma IdsSortIff(m: nat, n: nat)
    ensures (forall r: Binary, r': Binary | |r| == RANDOM_BYTES && |r'| == RANDOM_BYTES ::
               Below(Hex(Layout(m, Some(r))), Hex(Layout(n, Some(r')))))
       <==> m % TWO_48 < n % TWO_48
  {
    if m % TWO_48 < n % TWO_48 {
      forall r: Binary, r': Binary | |r| == RANDOM_BYTES && |r'| == RANDOM_BYTES
        ensures Below(Hex(Layout(m, Some(r))), Hex(Layout(n, Some(r'))))
      {
        IdsSortByTime(m, n, Some(r), Some(r'));
      }
    } else {
      var r: Binary := seq(RANDOM_BYTES, _ => 0);
      var a, b := Hex(Layout(m, Some(r))), Hex(Layout(n, Some(r)));
      if n % TWO_48 < m % TWO_48 {
        IdsSortByTime(n, m, Some(r), Some(r));
        BelowAsymmetric(b, a);
      } else {
        SixBytesWrap(m);
        SixBytesWrap(n);
        BelowIrreflexive(a);
      }
      assert |r| == RANDOM_BYTES && !Below(a, b);
    }
  }

  lemma SixBytesPower()
    ensures Power256(6) == TWO_48
  {
    assert Power256(3) == 0x100_0000;
  }

  /** When the clock passes 2^48 milliseconds the order breaks: the later id sorts
      first. */
  lemma OrderBreaksAfterWrap(random: Option<Binary>, random': Option<Binary>)
    ensures Below(Hex(Layout(TWO_48, random')), Hex(Layout(TWO_48 - 1, random)))
  {
    IdsSortByTime(TWO_48, TWO_48 - 1, random', random);
  }
}
