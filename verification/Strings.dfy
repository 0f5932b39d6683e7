/** Strings as Go sees them: the byte-wise order behind `<` and `sort.Strings`,
    suffix tests, `strings.Split`, and the facts about sequences without
    repetition that every later module leans on. */
module Strings {

  // ---------- Elements and repetition ----------

  function Elements<T>(s: seq<T>): set<T> {
    set x | x in s
  }

  ghost predicate NoDup<T>(s: seq<T>) {
    forall i, j | 0 <= i < j < |s| :: s[i] != s[j]
  }

  lemma NoElements<T>(s: seq<T>)
    ensures Elements(s) == {} <==> s == []
  {
    if s != [] {
      assert s[0] in Elements(s);
    }
  }

  lemma ElementsAppend<T>(a: seq<T>, b: seq<T>)
    ensures Elements(a + b) == Elements(a) + Elements(b)
  {
  }

  lemma SameMultiset<T>(a: seq<T>, b: seq<T>)
    requires multiset(a) == multiset(b)
    ensures Elements(a) == Elements(b)
    ensures NoDup(a) ==> NoDup(b)
  {
    forall x
      ensures x in a <==> x in b
    {
      assert x in a <==> x in multiset(a);
      assert x in b <==> x in multiset(b);
    }
    if NoDup(a) {
      forall i, j | 0 <= i < j < |b|
        ensures b[i] != b[j]
      {
        if b[i] == b[j] {
          TwiceCounted(b, i, j);
          assert multiset(a)[b[i]] >= 2;
          OnceCounted(a, b[i]);
        }
      }
    }
  }

  lemma TwiceCounted<T>(s: seq<T>, i: nat, j: nat)
    requires i < j < |s| && s[i] == s[j]
    ensures multiset(s)[s[i]] >= 2
  {
    assert s == s[..j] + s[j..];
    assert s[i] in s[..j] && s[j] in s[j..];
  }

  lemma OnceCounted<T>(s: seq<T>, x: T)
    requires NoDup(s)
    ensures multiset(s)[x] <= 1
  {
    if s != [] {
      OnceCounted(s[1..], x);
      assert s == [s[0]] + s[1..];
      assert x in multiset(s[1..]) <==> x in s[1..];
    }
  }

  // ---------- Order ----------

  /** Go's `a < b` on strings. */
  predicate Below(a: string, b: string) {
    b != [] && (a == [] || a[0] < b[0] || (a[0] == b[0] && Below(a[1..], b[1..])))
  }

  predicate AtMost(a: string, b: string) {
    !Below(b, a)
  }

  /** It is the order of a dictionary: a shorter text before its continuations, else
      by the first character that differs. */
  lemma {:induction false} BelowIff(a: string, b: string)
    ensures Below(a, b)
       <==> || (|a| < |b| && a == b[..|a|])
            || exists k | 0 <= k < |a| && k < |b| :: a[..k] == b[..k] && a[k] < b[k]
  {
    if a != [] && b != [] && a[0] == b[0] {
      BelowIff(a[1..], b[1..]);
      assert forall k | 0 < k <= |a| && k <= |b| :: a[..k] == [a[0]] + a[1..][..k - 1] && b[..k] == [b[0]] + b[1..][..k - 1];
      assert forall k | 0 < k < |a| && k < |b| :: a[k] == a[1..][k - 1] && b[k] == b[1..][k - 1];
      if k :| 0 <= k < |a| && k < |b| && a[..k] == b[..k] && a[k] < b[k] {
        assert k > 0 && a[1..][..k - 1] == a[..k][1..] && b[1..][..k - 1] == b[..k][1..];
      }
      if k :| 0 <= k < |a[1..]| && k < |b[1..]| && a[1..][..k] == b[1..][..k] && a[1..][k] < b[1..][k] {
        assert a[..k + 1] == b[..k + 1] && a[k + 1] < b[k + 1];
      }
    } else if a != [] && b != [] {
      assert a[..0] == b[..0];
      assert forall k | 0 < k < |a| && k < |b| :: a[..k] == b[..k] ==> a[..k][0] == b[..k][0];
    }
  }

  lemma BelowIrreflexive(a: string)
    ensures !Below(a, a)
  {
  }

  lemma BelowTotal(a: string, b: string)
    ensures Below(a, b) || Below(b, a) || a == b
  {
    if a != [] && b != [] && a[0] == b[0] {
      BelowTotal(a[1..], b[1..]);
      if a[1..] == b[1..] {
        assert a == [a[0]] + a[1..] && b == [b[0]] + b[1..];
      }
    }
  }

  lemma BelowTransitive(a: string, b: string, c: string)
    requires Below(a, b) && Below(b, c)
    ensures Below(a, c)
  {
  }

  lemma BelowAsymmetric(a: string, b: string)
    requires Below(a, b)
    ensures !Below(b, a)
  {
  }

  lemma AtMostTransitive(a: string, b: string, c: string)
    requires AtMost(a, b) && AtMost(b, c)
    ensures AtMost(a, c)
  {
    if Below(c, a) {
      BelowTotal(a, b);
      if a != b {
        BelowTransitive(c, a, b);
      }
    }
  }

  ghost predicate Sorted(s: seq<string>) {
    forall i, j | 0 <= i < j < |s| :: AtMost(s[i], s[j])
  }

  ghost predicate StrictlySorted(s: seq<string>) {
    forall i, j | 0 <= i < j < |s| :: Below(s[i], s[j])
  }

  lemma SortedWithoutDup(s: seq<string>)
    requires Sorted(s) && NoDup(s)
    ensures StrictlySorted(s)
  {
    forall i, j | 0 <= i < j < |s|
      ensures Below(s[i], s[j])
    {
      BelowTotal(s[i], s[j]);
      assert AtMost(s[i], s[j]) && s[i] != s[j];
    }
  }

  /** A set of strings has one strictly sorted listing. */
  lemma {:induction false} SortedListingUnique(a: seq<string>, b: seq<string>)
    requires StrictlySorted(a) && StrictlySorted(b) && Elements(a) == Elements(b)
    ensures a == b
  {
    NoElements(a);
    NoElements(b);
    if a != [] && b != [] {
      assert a[0] in Elements(b) && b[0] in Elements(a);
      HeadIsLeast(a, b[0]);
      HeadIsLeast(b, a[0]);
      if a[0] != b[0] {
        BelowAsymmetric(a[0], b[0]);
      }
      forall x
        ensures x in a[1..] <==> x in b[1..]
      {
        TailElements(a, x);
        TailElements(b, x);
        assert x in a <==> x in Elements(a);
        assert x in b <==> x in Elements(b);
      }
      SortedListingUnique(a[1..], b[1..]);
      assert a == [a[0]] + a[1..] && b == [b[0]] + b[1..];
    }
  }

  lemma HeadIsLeast(s: seq<string>, x: string)
    requires StrictlySorted(s) && s != [] && x in s
    ensures s[0] == x || Below(s[0], x)
  {
  }

  lemma TailElements(s: seq<string>, x: string)
    requires StrictlySorted(s) && s != []
    ensures x in s[1..] <==> x in s && x != s[0]
  {
    BelowIrreflexive(s[0]);
    assert s == [s[0]] + s[1..];
  }

  // ---------- Affixes and splitting ----------

  predicate HasPrefix(s: string, p: string) {
    |p| <= |s| && s[..|p|] == p
  }

  predicate HasSuffix(s: string, p: string) {
    |p| <= |s| && s[|s| - |p|..] == p
  }

  function TrimPrefix(s: string, p: string): string {
    if HasPrefix(s, p) then s[|p|..] else s
  }

  function TrimSuffix(s: string, p: string): string {
    if HasSuffix(s, p) then s[..|s| - |p|] else s
  }

  lemma PrefixIff(s: string, p: string)
    ensures HasPrefix(s, p) <==> exists t :: s == p + t
    ensures HasPrefix(s, p) ==> s == p + TrimPrefix(s, p)
    ensures !HasPrefix(s, p) ==> TrimPrefix(s, p) == s
  {
    if HasPrefix(s, p) {
      assert s == p + s[|p|..];
    }
  }

  lemma SuffixIff(s: string, p: string)
    ensures HasSuffix(s, p) <==> exists t :: s == t + p
    ensures HasSuffix(s, p) ==> s == TrimSuffix(s, p) + p
    ensures !HasSuffix(s, p) ==> TrimSuffix(s, p) == s
  {
    if HasSuffix(s, p) {
      assert s == s[..|s| - |p|] + p;
    }
  }

  // ---------- White space ----------

  /** ASCII white space. */
  predicate IsSpace(c: char) {
    c == ' ' || 9 <= c as int <= 13
  }

  lemma SpacesAre(c: char)
    ensures IsSpace(c) <==> c in {' ', '\t', '\n', '\r', 11 as char, 12 as char}
  {
  }

  /** `strings.TrimSpace`. */
  function TrimSpace(s: string): (r: string)
    ensures r == "" <==> forall i | 0 <= i < |s| :: IsSpace(s[i])
    ensures r != "" ==> !IsSpace(r[0]) && !IsSpace(r[|r| - 1])
  {
    if s == "" then ""
    else if IsSpace(s[0]) then TrimSpace(s[1..])
    else if IsSpace(s[|s| - 1]) then TrimSpace(s[..|s| - 1])
    else s
  }

  lemma TrimmedAlready(s: string)
    requires s == "" || (!IsSpace(s[0]) && !IsSpace(s[|s| - 1]))
    ensures TrimSpace(s) == s
  {
  }

  lemma {:induction false} TrimPadded(before: string, s: string, after: string)
    requires forall i | 0 <= i < |before| :: IsSpace(before[i])
    requires forall i | 0 <= i < |after| :: IsSpace(after[i])
    requires s != "" && !IsSpace(s[0]) && !IsSpace(s[|s| - 1])
    ensures TrimSpace(before + s + after) == s
    decreases |before| + |after|
  {
    var t := before + s + after;
    if before != "" {
      assert t[0] == before[0] && t[1..] == before[1..] + s + after;
      TrimPadded(before[1..], s, after);
    } else if after != "" {
      assert t[0] == s[0] && t[|t| - 1] == after[|after| - 1] && t[..|t| - 1] == before + s + after[..|after| - 1];
      TrimPadded(before, s, after[..|after| - 1]);
    } else {
      assert t == s;
      TrimmedAlready(s);
    }
  }

  /** `strings.Split(s, sep)` for a one-character separator. */
  function Split(s: string, sep: char): (parts: seq<string>)
    ensures parts != []
  {
    if s == [] then [""]
    else
      var before := Split(s[..|s| - 1], sep);
      if s[|s| - 1] == sep then before + [""]
      else before[..|before| - 1] + [before[|before| - 1] + [s[|s| - 1]]]
  }

  function Join(parts: seq<string>, sep: char): string
    requires parts != []
  {
    if |parts| == 1 then parts[0]
    else Join(parts[..|parts| - 1], sep) + [sep] + parts[|parts| - 1]
  }

  lemma JoinAppend(parts: seq<string>, last: string, sep: char)
    requires parts != []
    ensures Join(parts + [last], sep) == Join(parts, sep) + [sep] + last
  {
    assert (parts + [last])[..|parts|] == parts;
  }

  lemma JoinExtend(parts: seq<string>, ch: char, sep: char)
    requires parts != []
    ensures Join(parts[..|parts| - 1] + [parts[|parts| - 1] + [ch]], sep) == Join(parts, sep) + [ch]
  {
    var front, last := parts[..|parts| - 1], parts[|parts| - 1];
    if front != [] {
      JoinAppend(front, last, sep);
      JoinAppend(front, last + [ch], sep);
      assert parts == front + [last];
      assert Join(front, sep) + [sep] + (last + [ch]) == Join(front, sep) + [sep] + last + [ch];
    }
  }

  /** The two facts that pin `Split` down: the parts are free of the
      separator, and joining them restores the text. */
  lemma {:induction false} SplitIsExact(s: string, sep: char)
    ensures Join(Split(s, sep), sep) == s
    ensures forall i | 0 <= i < |Split(s, sep)| :: sep !in Split(s, sep)[i]
  {
    if s != [] {
      var init, last := s[..|s| - 1], s[|s| - 1];
      SplitIsExact(init, sep);
      var before := Split(init, sep);
      assert s == init + [last];
      if last == sep {
        JoinAppend(before, "", sep);
      } else {
        JoinExtend(before, last, sep);
      }
    }
  }

  lemma SplitSnoc(s: string, ch: char, sep: char)
    requires ch != sep
    ensures var before := Split(s, sep);
            Split(s + [ch], sep) == before[..|before| - 1] + [before[|before| - 1] + [ch]]
  {
    assert (s + [ch])[..|s|] == s;
  }

  /** Text without the separator extends the last part. */
  lemma {:induction false} SplitExtend(s: string, t: string, sep: char)
    requires sep !in t
    ensures var before := Split(s, sep);
            Split(s + t, sep) == before[..|before| - 1] + [before[|before| - 1] + t]
  {
    hide Split;
    var before := Split(s, sep);
    if t == [] {
      assert s + t == s && before[|before| - 1] + t == before[|before| - 1];
    } else {
      var init, last := t[..|t| - 1], t[|t| - 1];
      SplitExtend(s, init, sep);
      SplitSnoc(s + init, last, sep);
      assert s + t == s + init + [last];
      assert (before[|before| - 1] + init) + [last] == before[|before| - 1] + t;
    }
  }

  /** A separator followed by separator-free text adds one part. */
  lemma SplitAppend(s: string, t: string, sep: char)
    requires sep !in t
    ensures Split(s + [sep] + t, sep) == Split(s, sep) + [t]
  {
    assert (s + [sep])[..|s + [sep]| - 1] == s;
    SplitExtend(s + [sep], t, sep);
    assert "" + t == t;
  }

  /** `Split` undoes `Join` on separator-free parts. */
  lemma {:induction false} SplitJoined(parts: seq<string>, sep: char)
    requires parts != [] && forall i | 0 <= i < |parts| :: sep !in parts[i]
    ensures Split(Join(parts, sep), sep) == parts
  {
    var front, last := parts[..|parts| - 1], parts[|parts| - 1];
    assert parts == front + [last];
    if front == [] {
      SplitExtend("", last, sep);
      assert "" + last == last;
    } else {
      SplitJoined(front, sep);
      SplitAppend(Join(front, sep), last, sep);
    }
  }

  // ---------- The sorted listing of a set ----------

  function InsertSorted(x: string, s: seq<string>): seq<string> {
    if s == [] then [x]
    else if Below(x, s[0]) then [x] + s
    else [s[0]] + InsertSorted(x, s[1..])
  }

  lemma {:induction false} InsertKeepsSorted(x: string, s: seq<string>)
    requires StrictlySorted(s) && x !in s
    ensures StrictlySorted(InsertSorted(x, s)) && Elements(InsertSorted(x, s)) == Elements(s) + {x}
  {
    if s != [] {
      assert s == [s[0]] + s[1..];
      if Below(x, s[0]) {
        forall j | 0 <= j < |s|
          ensures Below(x, s[j])
        {
          if j > 0 {
            BelowTransitive(x, s[0], s[j]);
          }
        }
      } else {
        BelowTotal(x, s[0]);
        InsertKeepsSorted(x, s[1..]);
        var rest := InsertSorted(x, s[1..]);
        forall j | 0 <= j < |rest|
          ensures Below(s[0], rest[j])
        {
          assert rest[j] in Elements(rest);
        }
        assert Elements([s[0]] + rest) == {s[0]} + Elements(rest);
      }
    }
  }

  /** The strictly sorted listing of a set; by `SortedListingUnique` it does not
      depend on the order in which the elements are taken. */
  ghost function Listing(s: set<string>): (keys: seq<string>)
    ensures StrictlySorted(keys) && Elements(keys) == s
  {
    if s == {} then []
    else
      var x :| x in s;
      var rest := Listing(s - {x});
      assert x in rest <==> x in Elements(rest);
      InsertKeepsSorted(x, rest);
      InsertSorted(x, rest)
  }

  // ---------- Decimal numerals ----------

  function Decimal(n: nat): (s: string)
    ensures s != []
  {
    if n < 10 then ["0123456789"[n]] else Decimal(n / 10) + ["0123456789"[n % 10]]
  }

  // ---------- Letters and digits ----------

  const UPPER := "ABCDEFGHIJKLMNOPQRSTUVWXYZ"
  const LOWER := "abcdefghijklmnopqrstuvwxyz"
  const DIGITS := "0123456789"

  predicate Consecutive(s: string, first: char) {
    forall i | 0 <= i < |s| :: s[i] as int == first as int + i
  }

  lemma InConsecutive(s: string, first: char, c: char)
    requires Consecutive(s, first)
    ensures c in s <==> first as int <= c as int < first as int + |s|
  {
    if first as int <= c as int < first as int + |s| {
      assert s[c as int - first as int] == c;
    }
  }

  lemma Alphabets()
    ensures Consecutive(UPPER, 'A') && Consecutive(LOWER, 'a') && Consecutive(DIGITS, '0')
    ensures |UPPER| == |LOWER| == 26 && |DIGITS| == 10
  {
  }

  lemma InAlphabets(c: char)
    ensures c in UPPER <==> 'A' <= c <= 'Z'
    ensures c in LOWER <==> 'a' <= c <= 'z'
    ensures c in DIGITS <==> '0' <= c <= '9'
  {
    Alphabets();
    hide Consecutive, UPPER, LOWER, DIGITS;
    InConsecutive(UPPER, 'A', c);
    InConsecutive(LOWER, 'a', c);
    InConsecutive(DIGITS, '0', c);
  }

  /** The same character, or the two forms of one letter. */
  predicate SameLetter(c: char, d: char) {
    c == d || exists k | 0 <= k < 26 :: (c == UPPER[k] && d == LOWER[k]) || (c == LOWER[k] && d == UPPER[k])
  }

  lemma SameLetterIff(c: char, d: char)
    ensures SameLetter(c, d)
       <==> || c == d || ('A' <= c <= 'Z' && d as int == c as int + 32) || ('A' <= d <= 'Z' && c as int == d as int + 32)
  {
    Alphabets();
    hide UPPER, LOWER;
    if 'A' <= c <= 'Z' && d as int == c as int + 32 {
      assert c == UPPER[c as int - 65] && d == LOWER[c as int - 65];
    }
    if 'A' <= d <= 'Z' && c as int == d as int + 32 {
      assert d == UPPER[d as int - 65] && c == LOWER[d as int - 65];
    }
  }

  predicate SameIgnoringCase(a: string, b: string) {
    |a| == |b| && forall i | 0 <= i < |a| :: SameLetter(a[i], b[i])
  }
}
