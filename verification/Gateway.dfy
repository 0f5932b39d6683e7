/** The receiving end of a signed query: splitting on `&`, cutting at the first
    `=`, percent-decoding (section 2.1 of RFC 3986) and grouping by key. What the
    two printers of `Query` promise is stated against it. */
module Gateway {
  import opened Strings
  import opened Wrappers
  import opened Query

  // ---------- Decoding ----------

  function HexValue(c: char): Option<nat> {
    if '0' <= c <= '9' then Some(c as int - '0' as int)
    else if 'A' <= c <= 'F' then Some(c as int - 'A' as int + 10)
    else if 'a' <= c <= 'f' then Some(c as int - 'a' as int + 10)
    else None
  }

  /** Hex digits are read in either case. */
  lemma HexDigitsRead(n: nat, c: char)
    requires n < 16
    ensures HexValue("0123456789ABCDEF"[n]) == HexValue("0123456789abcdef"[n]) == Some(n)
    ensures HexValue(c) == Some(n) ==> c == "0123456789ABCDEF"[n] || c == "0123456789abcdef"[n]
  {
    assert n == 0 || n == 1 || n == 2 || n == 3 || n == 4 || n == 5 || n == 6 || n == 7
        || n == 8 || n == 9 || n == 10 || n == 11 || n == 12 || n == 13 || n == 14 || n == 15;
  }

  function PercentDecode(s: string): Option<Bytes> {
    if s == "" then Some("")
    else if s[0] == '%' then
      if |s| < 3 || HexValue(s[1]).None? || HexValue(s[2]).None? then None
      else
        var b := 16 * HexValue(s[1]).value + HexValue(s[2]).value;
        if b >= 256 then None else PrependByte(b as char, PercentDecode(s[3..]))
    else if s[0] as int >= 256 then None
    else PrependByte(s[0], PercentDecode(s[1..]))
  }

  function PrependByte(c: char, r: Option<Bytes>): Option<Bytes>
    requires c as int < 256
  {
    if r.Some? then Some([c] + r.value) else None
  }

  /** The place of the first `=`, or the length when there is none. */
  function CutPoint(s: string): (i: nat)
    ensures i <= |s|
  {
    if s == "" || s[0] == '=' then 0 else 1 + CutPoint(s[1..])
  }

  function ParsePart(part: string): Option<Pair> {
    var i := CutPoint(part);
    var k := PercentDecode(part[..i]);
    var v := PercentDecode(if i < |part| then part[i + 1..] else "");
    if k.Some? && v.Some? then Some(Pair(k.value, v.value)) else None
  }

  /** Empty parts are skipped; one undecodable part fails the whole query. */
  function ParseParts(parts: seq<string>): Option<seq<Pair>> {
    if parts == [] then Some([])
    else
      var rest := ParseParts(parts[1..]);
      if parts[0] == "" || rest.None? then rest
      else
        var p := ParsePart(parts[0]);
        if p.Some? then Some([p.value] + rest.value) else None
  }

  function ParseQuery(q: string): Option<seq<Pair>> {
    ParseParts(Split(q, '&'))
  }

  /** The multimap a list of pairs spells, values in order. */
  function Group(ps: seq<Pair>): Values {
    if ps == [] then map[]
    else
      var m, p := Group(ps[..|ps| - 1]), ps[|ps| - 1];
      m[p.key := Get(m, p.key) + [p.value]]
  }

  // ---------- Decoding undoes escaping ----------

  lemma {:induction false} DecodeEscaped(s: Bytes)
    ensures PercentDecode(Escaped(s)) == Some(s)
    ensures forall i | 0 <= i < |Escaped(s)| :: Escaped(s)[i] != '=' && Escaped(s)[i] != '&'
  {
    if s != [] {
      DecodeEscaped(s[1..]);
      var c, rest := s[0], Escaped(s[1..]);
      DecodeByte(c, rest);
      assert [c] + s[1..] == s;
    }
  }

  lemma HexRoundTrip(n: nat)
    requires n < 16
    ensures HexValue(HexDigit(n)) == Some(n) && HexDigit(n) != '=' && HexDigit(n) != '&'
  {
    assert n == 0 || n == 1 || n == 2 || n == 3 || n == 4 || n == 5 || n == 6 || n == 7
        || n == 8 || n == 9 || n == 10 || n == 11 || n == 12 || n == 13 || n == 14 || n == 15;
  }

  lemma DecodeByte(c: char, rest: string)
    requires c as int < 256 && PercentDecode(rest).Some?
    ensures PercentDecode(EscapeByte(c) + rest) == Some([c] + PercentDecode(rest).value)
    ensures forall i | 0 <= i < |EscapeByte(c)| :: EscapeByte(c)[i] != '=' && EscapeByte(c)[i] != '&'
  {
    var s := EscapeByte(c) + rest;
    if IsUnreserved(c) {
      assert s[0] == c && s[1..] == rest;
    } else {
      var n := c as int;
      HexRoundTrip(n / 16);
      HexRoundTrip(n % 16);
      assert s[0] == '%' && s[1] == HexDigit(n / 16) && s[2] == HexDigit(n % 16) && s[3..] == rest;
      assert 16 * (n / 16) + n % 16 == n;
      assert (n as char) == c;
    }
  }

  lemma {:induction false} CutPointSkips(a: string, b: string)
    requires forall i | 0 <= i < |a| :: a[i] != '='
    ensures CutPoint(a + "=" + b) == |a|
  {
    var s := a + "=" + b;
    if a != "" {
      assert s[1..] == a[1..] + "=" + b;
      CutPointSkips(a[1..], b);
    }
  }

  lemma ParsePairText(p: Pair)
    ensures ParsePart(PairText(p)) == Some(p)
    ensures PairText(p) != "" && '&' !in PairText(p)
  {
    DecodeEscaped(p.key);
    DecodeEscaped(p.value);
    var k, v := Escaped(p.key), Escaped(p.value);
    CutPointSkips(k, v);
    var s := k + "=" + v;
    assert s[..|k|] == k && s[|k| + 1..] == v && |k| < |s|;
  }

  // ---------- Parsing undoes printing ----------

  function Texts(ps: seq<Pair>): (texts: seq<string>)
    ensures |texts| == |ps|
  {
    seq(|ps|, i requires 0 <= i < |ps| => PairText(ps[i]))
  }

  lemma {:induction false} PairsTextIsJoin(ps: seq<Pair>)
    requires ps != []
    ensures PairsText(ps) == Join(Texts(ps), '&')
  {
    if |ps| > 1 {
      PairsTextIsJoin(ps[..|ps| - 1]);
      assert Texts(ps)[..|ps| - 1] == Texts(ps[..|ps| - 1]);
    }
  }

  lemma {:induction false} ParseTexts(ps: seq<Pair>)
    ensures ParseParts(Texts(ps)) == Some(ps)
  {
    if ps != [] {
      ParsePairText(ps[0]);
      assert Texts(ps)[1..] == Texts(ps[1..]);
      ParseTexts(ps[1..]);
      assert ps == [ps[0]] + ps[1..];
    }
  }

  /** Parsing a printed list of pairs gives the list back, whatever bytes the
      keys and values hold. */
  lemma ParsePrinted(ps: seq<Pair>)
    ensures ParseQuery(PairsText(ps)) == Some(ps)
  {
    if ps == [] {
      assert Split("", '&') == [""];
      assert [""][1..] == [];
      assert ParseParts([]) == Some([]);
    } else {
      PairsTextIsJoin(ps);
      forall i | 0 <= i < |ps|
        ensures '&' !in Texts(ps)[i]
      {
        ParsePairText(ps[i]);
      }
      SplitJoined(Texts(ps), '&');
      ParseTexts(ps);
    }
  }

  // ---------- Multimaps up to what the printers see ----------

  /** Keys with an empty value list dropped. */
  function NonEmpty(m: Values): Values {
    map k | k in m && m[k] != [] :: m[k]
  }

  /** The first value of every key that has one. */
  function Heads(m: Values): Values {
    map k | k in m && m[k] != [] :: [m[k][0]]
  }

  lemma HeadsFacts(m: Values)
    ensures Heads(NonEmpty(m)) == Heads(m) && NonEmpty(Heads(m)) == Heads(m)
  {
  }

  lemma GroupSnoc(ps: seq<Pair>, p: Pair)
    ensures Group(ps + [p]) == Group(ps)[p.key := Get(Group(ps), p.key) + [p.value]]
  {
    assert (ps + [p])[..|ps|] == ps;
  }

  function Extended(m: Values, k: Bytes, vs: seq<Bytes>): Values {
    if vs == [] then m else m[k := Get(m, k) + vs]
  }

  lemma ExtendedSnoc(m: Values, k: Bytes, vs: seq<Bytes>, v: Bytes)
    ensures var e := Extended(m, k, vs);
            e[k := Get(e, k) + [v]] == Extended(m, k, vs + [v])
  {
    if vs == [] {
      assert vs + [v] == [v];
    } else {
      assert Get(m, k) + vs + [v] == Get(m, k) + (vs + [v]);
    }
  }

  lemma {:induction false} GroupPairsOf(ps: seq<Pair>, k: Bytes, vs: seq<Bytes>)
    ensures Group(ps + PairsOf(k, vs)) == Extended(Group(ps), k, vs)
    decreases |vs|
  {
    if vs == [] {
      assert ps + PairsOf(k, vs) == ps;
    } else {
      var front, last := vs[..|vs| - 1], vs[|vs| - 1];
      assert ps + PairsOf(k, vs) == ps + PairsOf(k, front) + [Pair(k, last)];
      assert front + [last] == vs;
      calc {
        Group(ps + PairsOf(k, vs));
        { GroupSnoc(ps + PairsOf(k, front), Pair(k, last)); }
        var e := Group(ps + PairsOf(k, front)); e[k := Get(e, k) + [last]];
        { GroupPairsOf(ps, k, front); }
        var e := Extended(Group(ps), k, front); e[k := Get(e, k) + [last]];
        { ExtendedSnoc(Group(ps), k, front, last); }
        Extended(Group(ps), k, vs);
      }
    }
  }

  /** The part of a multimap at the given keys, empty lists dropped. */
  function At(keys: seq<Bytes>, m: Values): Values {
    map k | k in keys && Get(m, k) != [] :: Get(m, k)
  }

  lemma AtSnoc(keys: seq<Bytes>, m: Values, k: Bytes)
    requires k !in keys
    ensures At(keys + [k], m) == Extended(At(keys, m), k, Get(m, k))
  {
    assert [] + Get(m, k) == Get(m, k);
  }

  lemma {:induction false} GroupWirePairs(keys: seq<Bytes>, m: Values)
    requires NoDup(keys)
    ensures Group(WirePairs(keys, m)) == At(keys, m)
  {
    if keys != [] {
      var front, last := keys[..|keys| - 1], keys[|keys| - 1];
      GroupWirePairs(front, m);
      GroupPairsOf(WirePairs(front, m), last, Get(m, last));
      assert keys == front + [last];
      AtSnoc(front, m, last);
    }
  }

  lemma KeysOfNoDup(m: Values)
    ensures NoDup(KeysOf(m))
    ensures forall k :: k in KeysOf(m) <==> k in m
  {
    var keys := KeysOf(m);
    forall i, j | 0 <= i < j < |keys|
      ensures keys[i] != keys[j]
    {
      BelowIrreflexive(keys[i]);
    }
    assert forall k :: k in keys <==> k in Elements(keys);
  }

  /** Reading the wire query back gives every key's full value list in order. */
  lemma WireRoundTrip(m: Values)
    ensures ParseQuery(WireText(m)).Some? && Group(ParseQuery(WireText(m)).value) == NonEmpty(m)
  {
    ParsePrinted(WirePairs(KeysOf(m), m));
    KeysOfNoDup(m);
    GroupWirePairs(KeysOf(m), m);
    assert At(KeysOf(m), m) == NonEmpty(m);
  }

  // ---------- The canonical is the wire form of the first values ----------

  function Kept(keys: seq<Bytes>, m: Values): seq<Bytes> {
    if keys == [] then []
    else
      var k := keys[|keys| - 1];
      Kept(keys[..|keys| - 1], m) + if Get(m, k) == [] then [] else [k]
  }

  lemma {:induction false} KeptIsListing(keys: seq<Bytes>, m: Values)
    requires StrictlySorted(keys)
    ensures StrictlySorted(Kept(keys, m))
    ensures forall k :: k in Kept(keys, m) <==> k in keys && Get(m, k) != []
  {
    if keys != [] {
      var front, last := keys[..|keys| - 1], keys[|keys| - 1];
      KeptIsListing(front, m);
      assert keys == front + [last];
      forall i | 0 <= i < |Kept(front, m)|
        ensures Below(Kept(front, m)[i], last)
      {
        assert Kept(front, m)[i] in front;
        var j :| 0 <= j < |front| && front[j] == Kept(front, m)[i];
      }
    }
  }

  lemma KeptKeys(m: Values, n: Values)
    requires forall k :: k in n <==> k in m && m[k] != []
    ensures KeysOf(n) == Kept(KeysOf(m), m)
  {
    KeptIsListing(KeysOf(m), m);
    KeysOfNoDup(m);
    var kept := Kept(KeysOf(m), m);
    assert forall k: Bytes :: k in kept <==> k in n;
    assert Elements(kept) == n.Keys;
    SortedListingUnique(KeysOf(n), kept);
  }

  lemma {:induction false} WireOfKept(keys: seq<Bytes>, m: Values)
    ensures WirePairs(keys, m) == WirePairs(Kept(keys, m), NonEmpty(m))
    ensures FirstPairs(keys, m) == WirePairs(Kept(keys, m), Heads(m))
  {
    if keys != [] {
      var front, k := keys[..|keys| - 1], keys[|keys| - 1];
      WireOfKept(front, m);
      if Get(m, k) == [] {
        assert Kept(keys, m) == Kept(front, m);
      } else {
        assert Kept(keys, m)[..|Kept(front, m)|] == Kept(front, m);
        var one := [Get(m, k)[0]];
        assert one[..0] == [];
        assert PairsOf(k, one) == [Pair(k, Get(m, k)[0])];
      }
    }
  }

  lemma CanonicalIsWireOfHeads(m: Values)
    ensures CanonicalText(m) == WireText(Heads(m))
    ensures WireText(m) == WireText(NonEmpty(m))
  {
    WireOfKept(KeysOf(m), m);
    KeptKeys(m, Heads(m));
    KeptKeys(m, NonEmpty(m));
  }

  /** The gateway, recomputing the first-value canonical from the wire query,
      gets exactly the bytes that were signed. */
  lemma GatewaySeesSignedBytes(m: Values)
    ensures ParseQuery(WireText(m)).Some?
    ensures CanonicalText(Group(ParseQuery(WireText(m)).value)) == CanonicalText(m)
  {
    WireRoundTrip(m);
    CanonicalOfNonEmpty(m);
  }

  lemma CanonicalOfNonEmpty(m: Values)
    ensures CanonicalText(NonEmpty(m)) == CanonicalText(m)
  {
    CanonicalIsWireOfHeads(m);
    CanonicalIsWireOfHeads(NonEmpty(m));
    HeadsFacts(m);
  }

  lemma CanonicalDeterminesHeads(m: Values)
    ensures ParseQuery(CanonicalText(m)).Some? && Group(ParseQuery(CanonicalText(m)).value) == Heads(m)
  {
    CanonicalIsWireOfHeads(m);
    WireRoundTrip(Heads(m));
    HeadsFacts(m);
  }

  /** Two queries are signed alike exactly when they agree on first values. */
  lemma CanonicalIsInjective(m: Values, n: Values)
    ensures CanonicalText(m) == CanonicalText(n) <==> Heads(m) == Heads(n)
  {
    CanonicalDeterminesHeads(m);
    CanonicalDeterminesHeads(n);
    CanonicalIsWireOfHeads(m);
    CanonicalIsWireOfHeads(n);
  }

  /** With at most one value per key the wire bytes are the signed bytes, and
      otherwise they never are. */
  lemma WireEqualsCanonicalIff(m: Values)
    ensures WireText(m) == CanonicalText(m) <==> SingleValued(m)
  {
    CanonicalIsWireOfHeads(m);
    CanonicalDeterminesHeads(m);
    WireRoundTrip(m);
    HeadsIff(m);
  }

  lemma HeadsIff(m: Values)
    ensures NonEmpty(m) == Heads(m) <==> SingleValued(m)
  {
    if SingleValued(m) {
      forall k | k in NonEmpty(m)
        ensures NonEmpty(m)[k] == Heads(m)[k]
      {
        assert m[k] == [m[k][0]];
      }
      assert NonEmpty(m) == Heads(m);
    } else {
      var k :| k in m && |m[k]| > 1;
      assert k in NonEmpty(m) && NonEmpty(m)[k] != Heads(m)[k];
    }
  }
}
