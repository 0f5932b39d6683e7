/** atomefin/encrypt/key.go: the rejection-sampled AES key. */
module AesKey {
  import opened Wrappers
  import opened AesBody

  const ALPHABET_SIZE := 26
  const CUTOFF := ALPHABET_SIZE * 9
  const LETTER_A := 65
  const LETTER_Z := 90

  datatype KeyError = RandomSource | WrongLength(n: nat) | BadByte(i: nat, b: Byte)

  /** The random source: the bytes it will deliver before it fails. */
  class Source {
    const data: Binary
    var pos: nat

    constructor (d: Binary)
      ensures data == d && pos == 0
    {
      data, pos := d, 0;
    }

    ghost predicate Valid()
      reads this
    {
      pos <= |data|
    }

    method Read() returns (b: Option<Byte>)
      requires Valid()
      modifies this
      ensures Valid()
      ensures old(pos) < |data| ==> b == Some(data[old(pos)]) && pos == old(pos) + 1
      ensures old(pos) == |data| ==> b == None && pos == old(pos)
    {
      if pos == |data| {
        return None;
      }
      pos := pos + 1;
      return Some(data[pos - 1]);
    }
  }

  predicate Accepted(b: Byte) {
    b < CUTOFF
  }

  function Letter(b: Byte): Byte {
    LETTER_A + b % ALPHABET_SIZE
  }

  /** The letters of the accepted bytes of `s`, in order. */
  function Letters(s: Binary): Binary {
    if s == [] then []
    else Letters(s[..|s| - 1]) + if Accepted(s[|s| - 1]) then [Letter(s[|s| - 1])] else []
  }

  predicate IsKey(key: Binary) {
    |key| == KEY_BYTES && forall i | 0 <= i < |key| :: LETTER_A <= key[i] <= LETTER_Z
  }

  /** Keys are 32 upper-case letters in ASCII; the bytes below 234 are accepted, and
      mapped to the letters in turn. */
  lemma KeysAre(key: Binary, b: Byte)
    ensures IsKey(key) <==> |key| == 32 && forall i | 0 <= i < |key| :: 'A' as int <= key[i] <= 'Z' as int
    ensures Accepted(b) <==> b < 234
    ensures exists q :: 0 <= q < 10 && b == 26 * q + (Letter(b) - 'A' as int) && 'A' as int <= Letter(b) <= 'Z' as int
  {
    assert b == 26 * (b / 26) + b % 26;
  }

  lemma LettersSnoc(s: Binary, b: Byte)
    ensures Letters(s + [b]) == Letters(s) + if Accepted(b) then [Letter(b)] else []
  {
    assert (s + [b])[..|s|] == s;
  }

  lemma {:induction false} LettersMonotone(s: Binary, t: Binary)
    ensures |Letters(s + t)| >= |Letters(s)|
  {
    if t == [] {
      assert s + t == s;
    } else {
      LettersMonotone(s, t[..|t| - 1]);
      assert s + t == s + t[..|t| - 1] + [t[|t| - 1]];
      LettersSnoc(s + t[..|t| - 1], t[|t| - 1]);
    }
  }

  /** `RandomAESKey`: the letters of the first 32 accepted bytes, and an error
      exactly when the source fails before it has delivered that many. */
  method RandomAESKey(src: Source) returns (r: Result<Binary, KeyError>)
    requires src.Valid()
    modifies src
    ensures src.Valid() && src.pos >= old(src.pos)
    ensures r.Ok? ==>
              r.value == Letters(src.data[old(src.pos)..src.pos]) && |r.value| == KEY_BYTES
              && src.pos > old(src.pos) && Accepted(src.data[src.pos - 1])
    ensures r.Err? ==> r.error == RandomSource && src.pos == |src.data|
    ensures r.Ok? <==> |Letters(src.data[old(src.pos)..])| >= KEY_BYTES
  {
    ghost var start := src.pos;
    var out := new Byte[KEY_BYTES];
    var i := 0;
    while i < KEY_BYTES
      invariant 0 <= i <= KEY_BYTES && src.Valid() && src.pos >= start
      invariant out[..i] == Letters(src.data[start..src.pos])
      invariant i > 0 ==> src.pos > start && Accepted(src.data[src.pos - 1])
    {
      var next := NextLetter(src, start);
      if next.None? {
        return Err(RandomSource);
      }
      out[i] := next.value;
      i := i + 1;
    }
    assert out[..] == out[..i];
    assert src.data[start..] == src.data[start..src.pos] + src.data[src.pos..];
    LettersMonotone(src.data[start..src.pos], src.data[src.pos..]);
    return Ok(out[..]);
  }

  /** The inner loop: re-roll until a byte is accepted. */
  method NextLetter(src: Source, ghost start: nat) returns (b: Option<Byte>)
    requires src.Valid() && start <= src.pos
    modifies src
    ensures src.Valid() && src.pos >= old(src.pos)
    ensures b.Some? ==>
              Letters(src.data[start..src.pos]) == Letters(src.data[start..old(src.pos)]) + [b.value]
              && src.pos > old(src.pos) && Accepted(src.data[src.pos - 1])
    ensures b.None? ==>
              Letters(src.data[start..]) == Letters(src.data[start..old(src.pos)]) && src.pos == |src.data|
  {
    hide Letters;
    while true
      invariant src.Valid() && src.pos >= old(src.pos)
      invariant Letters(src.data[start..src.pos]) == Letters(src.data[start..old(src.pos)])
      decreases |src.data| - src.pos
    {
      ghost var before := src.pos;
      var one := src.Read();
      if one.None? {
        assert src.data[start..src.pos] == src.data[start..];
        return None;
      }
      assert src.data[start..src.pos] == src.data[start..before] + [one.value];
      LettersSnoc(src.data[start..before], one.value);
      if one.value < CUTOFF {
        return Some(LETTER_A + one.value % ALPHABET_SIZE);
      }
    }
  }

  /** The first byte from i on that is no letter. */
  function BadFrom(key: Binary, i: nat): (v: Option<KeyError>)
    requires i <= |key|
    ensures v.None? <==> forall j | i <= j < |key| :: LETTER_A <= key[j] <= LETTER_Z
    decreases |key| - i
  {
    if i == |key| then None
    else if key[i] < LETTER_A || key[i] > LETTER_Z then Some(BadByte(i, key[i]))
    else BadFrom(key, i + 1)
  }

  function Verdict(key: Binary): (v: Option<KeyError>)
    ensures v.None? <==> IsKey(key)
  {
    if |key| != KEY_BYTES then Some(WrongLength(|key|)) else BadFrom(key, 0)
  }

  method ValidateAESKey(key: Binary) returns (v: Option<KeyError>)
    ensures v == Verdict(key)
  {
    if |key| != KEY_BYTES {
      return Some(WrongLength(|key|));
    }
    var i := 0;
    while i < |key|
      invariant 0 <= i <= |key|
      invariant BadFrom(key, 0) == BadFrom(key, i)
    {
      if key[i] < LETTER_A || key[i] > LETTER_Z {
        return Some(BadByte(i, key[i]));
      }
      i := i + 1;
    }
    return None;
  }

  /** Whatever the source delivers, a sampled key passes validation. */
  lemma {:induction false} SampledIsValid(s: Binary)
    ensures forall i | 0 <= i < |Letters(s)| :: LETTER_A <= Letters(s)[i] <= LETTER_Z
    ensures |Letters(s)| == KEY_BYTES ==> Verdict(Letters(s)) == None
  {
    if s != [] {
      SampledIsValid(s[..|s| - 1]);
    }
  }

  /** No letter is favoured: each is the image of exactly nine accepted bytes,
      and no accepted byte has an image elsewhere. */
  lemma NineBytesPerLetter(letter: Byte)
    requires LETTER_A <= letter <= LETTER_Z
    ensures |set b: Byte | 0 <= b < CUTOFF && Letter(b) == letter| == 9
  {
    var n := letter - LETTER_A;
    forall b: Byte
      ensures 0 <= b < CUTOFF && Letter(b) == letter <==> b in Nine(n)
    {
      assert b == 26 * (b / 26) + b % 26;
    }
    assert (set b: Byte | 0 <= b < CUTOFF && Letter(b) == letter) == Nine(n);
  }

  function Nine(n: nat): (s: set<Byte>)
    requires n < ALPHABET_SIZE
    ensures |s| == 9
  {
    {n, n + 26, n + 52, n + 78, n + 104, n + 130, n + 156, n + 182, n + 208}
  }

  /** Without the cut-off the reduction would favour A to V, with ten bytes
      each, over W to Z. */
  lemma ReductionAloneIsBiased(letter: Byte)
    requires LETTER_A <= letter <= LETTER_Z
    ensures |set b: Byte | 0 <= b < 256 && Letter(b) == letter| == if letter < LETTER_A + 22 then 10 else 9
  {
    var n := letter - LETTER_A;
    var all := set b: Byte | 0 <= b < 256 && Letter(b) == letter;
    var images := set b: Byte | 0 <= b < CUTOFF && Letter(b) == letter;
    NineBytesPerLetter(letter);
    if n < 22 {
      var tenth: Byte := n + 234;
      forall b: Byte
        ensures b in all <==> b in images + {tenth}
      {
        assert b == 26 * (b / 26) + b % 26;
      }
      assert all == images + {tenth};
    } else {
      forall b: Byte
        ensures b in all <==> b in images
      {
        assert b == 26 * (b / 26) + b % 26;
      }
      assert all == images;
    }
  }
}
