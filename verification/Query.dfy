/** atomefin/sign/canonical.go: the signing canonical of a query and its wire
    form, both percent-encoded as in section 2.1 of RFC 3986, and the gateway
    side that reads the wire form back. */
module Query {
  import opened Strings
  import opened Sorting
  import opened Wrappers

  /** A Go string: a sequence of bytes, one character each. */
  type Bytes = s: string | IsBytes(s)

  predicate IsBytes(s: string) {
    forall i | 0 <= i < |s| :: s[i] as int < 256
  }

  /** `url.Values`. */
  type Values = map<Bytes, seq<Bytes>>

  datatype Pair = Pair(key: Bytes, value: Bytes)

  datatype MultiValueQueryError = MultiValueQueryError(key: Bytes, count: nat)

  // ---------- Percent-encoding ----------

  /** The unreserved set of section 2.3 of RFC 3986. */
  predicate IsUnreserved(c: char) {
    'A' <= c <= 'Z' || 'a' <= c <= 'z' || '0' <= c <= '9' || c == '-' || c == '.' || c == '_' || c == '~'
  }

  function HexDigit(n: nat): char
    requires n < 16
  {
    "0123456789ABCDEF"[n]
  }

  function EscapeByte(c: char): string
    requires c as int < 256
  {
    if IsUnreserved(c) then [c] else ['%', HexDigit(c as int / 16), HexDigit(c as int % 16)]
  }

  function Escaped(s: Bytes): string {
    if s == [] then "" else EscapeByte(s[0]) + Escaped(s[1..])
  }

  lemma {:induction false} EscapedSnoc(s: Bytes, c: char)
    requires c as int < 256
    ensures Escaped(s + [c]) == Escaped(s) + EscapeByte(c)
  {
    if s == [] {
      assert s + [c] == [c] && [c][1..] == [];
      assert Escaped([]) == "";
    } else {
      assert (s + [c])[0] == s[0] && (s + [c])[1..] == s[1..] + [c];
      EscapedSnoc(s[1..], c);
    }
  }

  lemma {:induction false} UnreservedIsItself(s: Bytes)
    requires forall i | 0 <= i < |s| :: IsUnreserved(s[i])
    ensures Escaped(s) == s
  {
    if s != [] {
      UnreservedIsItself(s[1..]);
      assert s == [s[0]] + s[1..];
    }
  }

  // ---------- Which bytes these are ----------

  const HEX := "0123456789ABCDEF"

  /** The 66 unreserved characters, one by one. */
  const UNRESERVED := UPPER + LOWER + DIGITS + "-._~"

  lemma UnreservedIff(c: char)
    ensures IsUnreserved(c) <==> c in UNRESERVED
  {
    InAlphabets(c);
    hide UPPER, LOWER, DIGITS;
    assert c in "-._~" <==> c == '-' || c == '.' || c == '_' || c == '~';
  }

  lemma {:induction false} EscapedAppend(s: Bytes, t: Bytes)
    ensures Escaped(s + t) == Escaped(s) + Escaped(t)
  {
    if s == [] {
      assert s + t == t;
    } else {
      assert (s + t)[0] == s[0] && (s + t)[1..] == s[1..] + t;
      EscapedAppend(s[1..], t);
    }
  }

  /** A listed byte stands for itself; any other is written as a percent sign and its
      two upper-case hex digits. */
  lemma EscapedOne(c: char)
    requires c as int < 256
    ensures Escaped([c]) == if c in UNRESERVED then [c] else ['%', HEX[c as int / 16], HEX[c as int % 16]]
  {
    UnreservedIff(c);
    hide UNRESERVED;
    assert [c][1..] == [] && Escaped([]) == "";
    assert Escaped([c]) == EscapeByte(c) + "" == EscapeByte(c);
  }

  /** So a text is left as it is exactly when all its bytes are listed. */
  lemma {:induction false} EscapedIsItselfIff(s: Bytes)
    ensures Escaped(s) == s <==> forall i | 0 <= i < |s| :: s[i] in UNRESERVED
    ensures |Escaped(s)| >= |s|
  {
    hide UNRESERVED, Escaped;
    if s == [] {
      assert Escaped([]) == "" by { EmptyEscaped(); }
    } else {
      var first, rest := [s[0]], s[1..];
      assert s == first + rest;
      EscapedAppend(first, rest);
      EscapedOne(s[0]);
      EscapedIsItselfIff(rest);
      assert forall i | 1 <= i < |s| :: s[i] == rest[i - 1];
      if s[0] in UNRESERVED {
        assert Escaped(s) == s <==> Escaped(rest) == rest by {
          assert Escaped(s)[1..] == Escaped(rest);
        }
      }
    }
  }

  lemma EmptyEscaped()
    ensures Escaped([]) == ""
  {
  }

  /** `rfc3986Escape`, fast path included. */
  method Rfc3986Escape(s: Bytes) returns (r: string)
    ensures r == Escaped(s)
  {
    var needs := false;
    var i := 0;
    while i < |s|
      invariant 0 <= i <= |s|
      invariant !needs ==> forall j | 0 <= j < i :: IsUnreserved(s[j])
    {
      if !IsUnreserved(s[i]) {
        needs := true;
        break;
      }
      i := i + 1;
    }
    if !needs {
      UnreservedIsItself(s);
      return s;
    }
    r := "";
    i := 0;
    assert s[..0] == [] && Escaped([]) == "";
    hide Escaped;
    while i < |s|
      invariant 0 <= i <= |s|
      invariant r == Escaped(s[..i])
    {
      assert s[..i + 1] == s[..i] + [s[i]];
      EscapedSnoc(s[..i], s[i]);
      if IsUnreserved(s[i]) {
        r := r + [s[i]];
      } else {
        var b := s[i] as int;
        r := r + ['%'] + [HexDigit(b / 16)] + [HexDigit(b % 16)];
      }
      i := i + 1;
    }
    assert s[..i] == s;
  }

  // ---------- The printed query ----------

  function PairText(p: Pair): string {
    Escaped(p.key) + "=" + Escaped(p.value)
  }

  function PairsText(ps: seq<Pair>): string {
    if ps == [] then ""
    else if |ps| == 1 then PairText(ps[0])
    else PairsText(ps[..|ps| - 1]) + "&" + PairText(ps[|ps| - 1])
  }

  /** Indexing a Go map: nil for an absent key. */
  function Get(m: Values, k: Bytes): seq<Bytes> {
    if k in m then m[k] else []
  }

  function PairsOf(k: Bytes, vs: seq<Bytes>): seq<Pair> {
    if vs == [] then [] else PairsOf(k, vs[..|vs| - 1]) + [Pair(k, vs[|vs| - 1])]
  }

  /** Every value of every key, keys in the given order. */
  function WirePairs(keys: seq<Bytes>, m: Values): seq<Pair> {
    if keys == [] then []
    else WirePairs(keys[..|keys| - 1], m) + PairsOf(keys[|keys| - 1], Get(m, keys[|keys| - 1]))
  }

  /** The first value of every key that has one. */
  function FirstPairs(keys: seq<Bytes>, m: Values): seq<Pair> {
    if keys == [] then []
    else
      var k := keys[|keys| - 1];
      FirstPairs(keys[..|keys| - 1], m) + FirstOf(k, Get(m, k))
  }

  function FirstOf(k: Bytes, vs: seq<Bytes>): seq<Pair> {
    if vs == [] then [] else [Pair(k, vs[0])]
  }

  ghost function KeysOf(m: Values): (keys: seq<Bytes>)
    ensures StrictlySorted(keys) && Elements(keys) == m.Keys
  {
    var keys := Listing(m.Keys);
    BytesListing(keys, m.Keys);
    keys
  }

  lemma BytesListing(keys: seq<string>, s: set<Bytes>)
    requires Elements(keys) == s
    ensures forall i | 0 <= i < |keys| :: IsBytes(keys[i])
  {
    forall i | 0 <= i < |keys|
      ensures IsBytes(keys[i])
    {
      assert keys[i] in Elements(keys);
    }
  }

  ghost function WireText(m: Values): string {
    PairsText(WirePairs(KeysOf(m), m))
  }

  ghost function CanonicalText(m: Values): string {
    PairsText(FirstPairs(KeysOf(m), m))
  }

  lemma PairsTextSnoc(ps: seq<Pair>, p: Pair)
    ensures PairsText(ps + [p]) == if ps == [] then PairText(p) else PairsText(ps) + "&" + PairText(p)
  {
    assert (ps + [p])[..|ps|] == ps;
  }

  /** One turn of the string builder: a separator unless this is the first
      pair, then the pair. */
  lemma BuilderStep(ps: seq<Pair>, p: Pair, b: string, out: string)
    requires b == PairsText(ps)
    requires out == (if ps == [] then b else b + "&") + (Escaped(p.key) + "=" + Escaped(p.value))
    ensures out == PairsText(ps + [p])
  {
    PairsTextSnoc(ps, p);
    assert "" + PairText(p) == PairText(p);
  }

  lemma FirstPairsSnoc(keys: seq<Bytes>, m: Values, i: nat)
    requires i < |keys|
    ensures FirstPairs(keys[..i + 1], m) == FirstPairs(keys[..i], m) + FirstOf(keys[i], Get(m, keys[i]))
  {
    assert keys[..i + 1][..i] == keys[..i];
  }

  lemma WirePairsSnoc(keys: seq<Bytes>, m: Values, i: nat)
    requires i < |keys|
    ensures WirePairs(keys[..i + 1], m) == WirePairs(keys[..i], m) + PairsOf(keys[i], Get(m, keys[i]))
  {
    assert keys[..i + 1][..i] == keys[..i];
  }

  // ---------- The printers ----------

  /** Ranging over a Go map visits the keys in no particular order; sorting them
      makes the result depend on the map alone. */
  method SortedKeys(m: Values) returns (keys: seq<Bytes>)
    ensures keys == KeysOf(m)
  {
    var found: seq<string> := [];
    var rest := m.Keys;
    while rest != {}
      invariant rest <= m.Keys && NoDup(found)
      invariant Elements(found) == m.Keys - rest
      decreases rest
    {
      var k: Bytes :| k in rest;
      assert k in found <==> k in Elements(found);
      ElementsAppend(found, [k]);
      assert Elements([k]) == {k};
      found := found + [k];
      rest := rest - {k};
    }
    var a := new string[|found|](i requires 0 <= i < |found| => found[i]);
    assert a[..] == found;
    StableSort(a);
    var sorted := a[..];
    SameMultiset(found, sorted);
    SortedWithoutDup(sorted);
    SortedListingUnique(sorted, KeysOf(m));
    BytesListing(sorted, m.Keys);
    keys := sorted;
  }

  method WritePair(b: string, first: bool, k: Bytes, v: Bytes, ghost done: seq<Pair>) returns (out: string)
    requires b == PairsText(done) && (first <==> done == [])
    ensures out == PairsText(done + [Pair(k, v)])
  {
    out := b;
    if !first {
      out := out + "&";
    }
    var ek := Rfc3986Escape(k);
    var ev := Rfc3986Escape(v);
    out := out + (ek + "=" + ev);
    BuilderStep(done, Pair(k, v), b, out);
  }

  method WriteFirst(b: string, first: bool, k: Bytes, vs: seq<Bytes>, ghost done: seq<Pair>)
      returns (out: string, first': bool)
    requires b == PairsText(done) && (first <==> done == [])
    ensures out == PairsText(done + FirstOf(k, vs)) && (first' <==> done + FirstOf(k, vs) == [])
  {
    if vs == [] {
      assert done + [] == done;
      return b, first;
    }
    out := WritePair(b, first, k, vs[0], done);
    first' := false;
  }

  method CanonicalQueryFirstValue(m: Values) returns (b: string)
    ensures b == CanonicalText(m)
  {
    var keys := SortedKeys(m);
    b := "";
    var first := true;
    var i := 0;
    while i < |keys|
      invariant 0 <= i <= |keys|
      invariant b == PairsText(FirstPairs(keys[..i], m))
      invariant first <==> FirstPairs(keys[..i], m) == []
    {
      var k := keys[i];
      FirstPairsSnoc(keys, m, i);
      b, first := WriteFirst(b, first, k, Get(m, k), FirstPairs(keys[..i], m));
      i := i + 1;
    }
    assert keys[..i] == keys;
  }

  /** `e` reports the least key with several values, and how many it has. */
  ghost predicate LeastMultiValue(m: Values, e: MultiValueQueryError) {
    && e.key in m && e.count == |m[e.key]| && e.count > 1
    && forall k | k in m && |m[k]| > 1 :: AtMost(e.key, k)
  }

  ghost predicate SingleValued(m: Values) {
    forall k | k in m :: |m[k]| <= 1
  }

  /** Fails exactly when some key has several values, and then names the least
      such key. */
  method CanonicalQuery(m: Values) returns (r: Result<string, MultiValueQueryError>)
    ensures r.Ok? <==> SingleValued(m)
    ensures r.Ok? ==> r.value == CanonicalText(m)
    ensures r.Err? ==> LeastMultiValue(m, r.error)
  {
    var keys := SortedKeys(m);
    var b := "";
    var first := true;
    var i := 0;
    while i < |keys|
      invariant 0 <= i <= |keys|
      invariant b == PairsText(FirstPairs(keys[..i], m))
      invariant first <==> FirstPairs(keys[..i], m) == []
      invariant SingleUpTo(keys, m, i)
    {
      var k, vs := keys[i], Get(m, keys[i]);
      if |vs| > 1 {
        LeastOffender(keys, m, i);
        return Err(MultiValueQueryError(k, |vs|));
      }
      b, first := WriteFirst(b, first, k, vs, FirstPairs(keys[..i], m));
      FirstPairsSnoc(keys, m, i);
      i := i + 1;
    }
    assert keys[..i] == keys;
    NoOffender(keys, m);
    return Ok(b);
  }

  ghost predicate SingleUpTo(keys: seq<Bytes>, m: Values, i: nat)
    requires i <= |keys|
  {
    forall j | 0 <= j < i :: |Get(m, keys[j])| <= 1
  }

  lemma NoOffender(keys: seq<Bytes>, m: Values)
    requires Elements(keys) == m.Keys && SingleUpTo(keys, m, |keys|)
    ensures SingleValued(m)
  {
    forall k | k in m
      ensures |m[k]| <= 1
    {
      assert k in Elements(keys);
      var j :| 0 <= j < |keys| && keys[j] == k;
    }
  }

  lemma LeastOffender(keys: seq<Bytes>, m: Values, i: nat)
    requires StrictlySorted(keys) && Elements(keys) == m.Keys && i < |keys|
    requires SingleUpTo(keys, m, i) && |Get(m, keys[i])| > 1
    ensures LeastMultiValue(m, MultiValueQueryError(keys[i], |Get(m, keys[i])|)) && !SingleValued(m)
  {
    assert keys[i] in Elements(keys);
    forall k | k in m && |m[k]| > 1
      ensures AtMost(keys[i], k)
    {
      assert k in Elements(keys);
      var j :| 0 <= j < |keys| && keys[j] == k;
      BelowIrreflexive(k);
      if i < j {
        BelowAsymmetric(keys[i], k);
      }
    }
  }

  method EncodeWireQueryRFC3986(m: Values) returns (b: string)
    ensures b == WireText(m)
  {
    var keys := SortedKeys(m);
    b := "";
    var first := true;
    var i := 0;
    while i < |keys|
      invariant 0 <= i <= |keys|
      invariant b == PairsText(WirePairs(keys[..i], m))
      invariant first <==> WirePairs(keys[..i], m) == []
    {
      WirePairsSnoc(keys, m, i);
      b, first := WriteValues(b, first, keys[i], Get(m, keys[i]), WirePairs(keys[..i], m));
      i := i + 1;
    }
    assert keys[..i] == keys;
  }

  /** The inner loop of the wire encoder. */
  method WriteValues(b: string, first: bool, k: Bytes, vs: seq<Bytes>, ghost done: seq<Pair>)
      returns (out: string, first': bool)
    requires b == PairsText(done) && (first <==> done == [])
    ensures out == PairsText(done + PairsOf(k, vs)) && (first' <==> done + PairsOf(k, vs) == [])
  {
    out, first' := b, first;
    var j := 0;
    assert done + PairsOf(k, vs[..0]) == done;
    while j < |vs|
      invariant 0 <= j <= |vs|
      invariant out == PairsText(done + PairsOf(k, vs[..j]))
      invariant first' <==> done + PairsOf(k, vs[..j]) == []
    {
      assert vs[..j + 1][..j] == vs[..j];
      assert done + PairsOf(k, vs[..j + 1]) == done + PairsOf(k, vs[..j]) + [Pair(k, vs[j])];
      out := WritePair(out, first', k, vs[j], done + PairsOf(k, vs[..j]));
      first' := false;
      j := j + 1;
    }
    assert vs[..j] == vs;
  }
}
