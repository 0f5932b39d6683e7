/** atomefin/encrypt/aes.go: PKCS padding and the block-by-block cipher over an
    abstract block permutation. */
module AesBody {
  import opened Wrappers
  import Query

  const KEY_BYTES := 32
  const BLOCK_BYTES := 16

  type Byte = x: int | 0 <= x < 256
  type Binary = seq<Byte>
  type Key = k: Binary | |k| == KEY_BYTES witness seq(KEY_BYTES, _ => 0)
  type Block = b: Binary | |b| == BLOCK_BYTES witness seq(BLOCK_BYTES, _ => 0)

  /** The library functions this package calls: one block under AES, and
      standard base64. */
  datatype Cipher = Cipher(
    encrypt: (Key, Block) -> Block,
    decrypt: (Key, Block) -> Block,
    toBase64: Binary -> Query.Bytes,
    fromBase64: string -> Option<Binary>)

  /** Every key is a permutation of the blocks, and base64 can be undone. */
  ghost predicate Lawful(c: Cipher) {
    && (forall k: Key, b: Block :: c.decrypt(k, c.encrypt(k, b)) == b)
    && (forall k: Key, b: Block :: c.encrypt(k, c.decrypt(k, b)) == b)
    && (forall x: Binary :: c.fromBase64(c.toBase64(x)) == Some(x)) && c.fromBase64("") == Some([])
  }

  datatype BodyError =
    | KeyLength(n: nat)
    | NotBase64
    | Empty
    | NotWholeBlocks(n: nat)
    | PaddedLength(n: nat)
    | PaddingRange(n: nat)
    | PaddingMismatch

  // ---------- Padding (section 6.3 of RFC 5652) ----------

  function Repeat(b: Byte, n: nat): (r: Binary)
    ensures |r| == n && forall i | 0 <= i < n :: r[i] == b
  {
    seq(n, _ => b)
  }

  function PadLen(n: nat, blockSize: nat): (p: nat)
    requires blockSize > 0
    ensures 1 <= p <= blockSize && (n + p) % blockSize == 0
  {
    WholeBlocks(n, blockSize);
    blockSize - n % blockSize
  }

  lemma WholeBlocks(n: nat, m: nat)
    requires m > 0
    ensures (n + (m - n % m)) % m == 0
  {
    assert n == m * (n / m) + n % m;
    MultipleHasNoRest(n / m + 1, m, n + (m - n % m));
  }

  lemma MultipleHasNoRest(q: nat, m: nat, x: nat)
    requires m > 0 && x == m * q
    ensures x % m == 0
  {
    var d: int := x / m - q;
    assert m * d + x % m == 0;
    assert d <= -1 ==> m * d + m <= 0;
    assert d >= 1 ==> m * d >= m;
  }

  /** `byte(padLen)` keeps the low eight bits. */
  function Padded(x: Binary, blockSize: nat): Binary
    requires blockSize > 0
  {
    var p := PadLen(|x|, blockSize);
    x + Repeat(p % 256, p)
  }

  method Pkcs5Pad(input: Binary, blockSize: nat) returns (out: array<Byte>)
    requires blockSize > 0
    ensures fresh(out) && out[..] == Padded(input, blockSize)
  {
    var padLen := blockSize - |input| % blockSize;
    out := new Byte[|input| + padLen];
    forall i | 0 <= i < |input| {
      out[i] := input[i];
    }
    var i := |input|;
    while i < out.Length
      invariant |input| <= i <= out.Length
      invariant out[..i] == input + Repeat(padLen % 256, i - |input|)
    {
      out[i] := padLen % 256;
      i := i + 1;
    }
  }

  function Pkcs5Unpad(x: Binary, blockSize: nat): Result<Binary, BodyError>
    requires blockSize > 0
  {
    if |x| == 0 || |x| % blockSize != 0 then Err(PaddedLength(|x|))
    else
      var padLen := x[|x| - 1];
      if padLen == 0 || padLen > blockSize then Err(PaddingRange(padLen))
      else
        MultipleIsLarge(|x|, blockSize);
        if x[|x| - padLen..] != Repeat(padLen, padLen) then Err(PaddingMismatch)
        else Ok(x[..|x| - padLen])
  }

  /** Why a text is not unpadded: its length, its last byte, or the bytes before. */
  lemma UnpadRefuses(x: Binary, blockSize: nat)
    requires blockSize > 0
    ensures x == [] || |x| % blockSize != 0 ==> Pkcs5Unpad(x, blockSize) == Err(PaddedLength(|x|))
    ensures x != [] && |x| % blockSize == 0 && !(1 <= x[|x| - 1] <= blockSize) ==>
              Pkcs5Unpad(x, blockSize) == Err(PaddingRange(x[|x| - 1]))
    ensures Pkcs5Unpad(x, blockSize) == Err(PaddingMismatch) ==>
              x != [] && x[|x| - 1] <= |x| && exists i :: |x| - x[|x| - 1] <= i < |x| && x[i] != x[|x| - 1]
  {
    if x != [] && |x| % blockSize == 0 {
      MultipleIsLarge(|x|, blockSize);
      if x[|x| - 1] <= blockSize {
        TailIff(x, x[|x| - 1]);
      }
    }
  }

  lemma TailIff(x: Binary, p: Byte)
    requires p <= |x|
    ensures x[|x| - p..] == Repeat(p, p) <==> forall i | |x| - p <= i < |x| :: x[i] == p
  {
    var tail := x[|x| - p..];
    assert forall i | |x| - p <= i < |x| :: x[i] == tail[i - (|x| - p)];
  }

  lemma MultipleIsLarge(n: nat, m: nat)
    requires n > 0 && m > 0 && n % m == 0
    ensures n >= m
  {
  }

  /** Unpadding accepts exactly the padded texts whose padding fits a byte:
      nothing else, and with no other result. */
  lemma UnpadIffPad(x: Binary, y: Binary, blockSize: nat)
    requires blockSize > 0
    ensures Pkcs5Unpad(x, blockSize) == Ok(y) <==> x == Padded(y, blockSize) && PadLen(|y|, blockSize) < 256
  {
    if Pkcs5Unpad(x, blockSize) == Ok(y) {
      UnpadOnlyPadded(x, y, blockSize);
    }
    if x == Padded(y, blockSize) && PadLen(|y|, blockSize) < 256 {
      var p := PadLen(|y|, blockSize);
      assert x[|x| - p..] == Repeat(p, p) && x[..|x| - p] == y;
    }
  }

  lemma UnpadOnlyPadded(x: Binary, y: Binary, blockSize: nat)
    requires blockSize > 0 && Pkcs5Unpad(x, blockSize) == Ok(y)
    ensures x == Padded(y, blockSize) && PadLen(|y|, blockSize) < 256
  {
    hide Pkcs5Unpad, PadLen;
    var p := UnpadFacts(x, y, blockSize);
    PaddingSplits(x, y, p);
    PadLenOfRest(|x|, p, blockSize);
  }

  lemma UnpadFacts(x: Binary, y: Binary, blockSize: nat) returns (p: Byte)
    requires blockSize > 0 && Pkcs5Unpad(x, blockSize) == Ok(y)
    ensures 1 <= p <= |x| && p <= blockSize && |x| % blockSize == 0
    ensures x[|x| - p..] == Repeat(p, p) && y == x[..|x| - p]
  {
    p := x[|x| - 1];
    MultipleIsLarge(|x|, blockSize);
  }

  lemma PaddingSplits(x: Binary, y: Binary, p: Byte)
    requires p <= |x| && x[|x| - p..] == Repeat(p, p) && y == x[..|x| - p]
    ensures x == y + Repeat(p, p) && |y| == |x| - p
  {
  }

  lemma PadLenOfRest(n: nat, p: nat, m: nat)
    requires m > 0 && n % m == 0 && 1 <= p <= m && p <= n
    ensures PadLen(n - p, m) == p
  {
    var q := PadLen(n - p, m);
    assert (n - p + q) % m == 0;
    CloseMultiples(n, n - p + q, m);
  }

  lemma CloseMultiples(a: nat, b: nat, m: nat)
    requires m > 0 && a % m == 0 && b % m == 0 && a < b + m && b < a + m
    ensures a == b
  {
    var d: int := a / m - b / m;
    assert a - b == m * d;
    assert d <= -1 ==> m * d + m <= 0;
    assert d >= 1 ==> m * d >= m;
  }

  /** With blocks of 256 bytes an empty text is padded with 256 zero bytes, which
      do not spell their own number: the blocks must be smaller than that. */
  lemma LargeBlocksDoNotUnpad()
    ensures Pkcs5Unpad(Padded([], 256), 256) == Err(PaddingRange(0))
  {
    assert PadLen(0, 256) == 256;
  }

  // ---------- One block after another ----------

  predicate Whole(n: nat) {
    n % BLOCK_BYTES == 0
  }

  lemma NextBlock(i: nat, n: nat)
    requires Whole(i) && Whole(n) && i < n
    ensures i + BLOCK_BYTES <= n && Whole(i + BLOCK_BYTES) && Whole(n - BLOCK_BYTES)
  {
  }

  function EncryptBlocks(c: Cipher, key: Key, s: Binary): (r: Binary)
    requires Whole(|s|)
    ensures |r| == |s|
  {
    if s == [] then []
    else
      NextBlock(0, |s|);
      EncryptBlocks(c, key, s[..|s| - BLOCK_BYTES]) + c.encrypt(key, s[|s| - BLOCK_BYTES..])
  }

  function DecryptBlocks(c: Cipher, key: Key, s: Binary): (r: Binary)
    requires Whole(|s|)
    ensures |r| == |s|
  {
    if s == [] then []
    else
      NextBlock(0, |s|);
      DecryptBlocks(c, key, s[..|s| - BLOCK_BYTES]) + c.decrypt(key, s[|s| - BLOCK_BYTES..])
  }

  /** Each block of the output is the encryption of the same block of the input,
      and of nothing else. */
  lemma {:induction false} EncryptBlocksAt(c: Cipher, key: Key, s: Binary, i: nat)
    requires Whole(|s|) && Whole(i) && i < |s|
    ensures i + BLOCK_BYTES <= |s|
    ensures EncryptBlocks(c, key, s)[i..i + BLOCK_BYTES] == c.encrypt(key, s[i..i + BLOCK_BYTES])
  {
    hide Whole;
    NextBlock(i, |s|);
    var n := |s| - BLOCK_BYTES;
    var front, last := EncryptBlocks(c, key, s[..n]), c.encrypt(key, s[n..]);
    assert EncryptBlocks(c, key, s) == front + last;
    if i == n {
      assert s[i..i + BLOCK_BYTES] == s[n..] && (front + last)[n..n + BLOCK_BYTES] == last;
    } else {
      NextBlock(i, n);
      EncryptBlocksAt(c, key, s[..n], i);
      SliceOfPrefix(s, n, i);
      SliceOfPrefix(front + last, n, i);
      assert (front + last)[..n] == front;
    }
  }

  lemma SliceOfPrefix(s: Binary, n: nat, i: nat)
    requires i + BLOCK_BYTES <= n <= |s|
    ensures s[..n][i..i + BLOCK_BYTES] == s[i..i + BLOCK_BYTES]
  {
  }

  lemma NoBlocks(c: Cipher, key: Key)
    ensures Whole(0) && EncryptBlocks(c, key, []) == [] && DecryptBlocks(c, key, []) == []
  {
  }

  /** One more block at the end. */
  lemma LastBlock(c: Cipher, key: Key, front: Binary, last: Block)
    requires Whole(|front|)
    ensures Whole(|front + last|)
    ensures EncryptBlocks(c, key, front + last) == EncryptBlocks(c, key, front) + c.encrypt(key, last)
    ensures DecryptBlocks(c, key, front + last) == DecryptBlocks(c, key, front) + c.decrypt(key, last)
  {
    var s := front + last;
    assert s[..|s| - BLOCK_BYTES] == front && s[|s| - BLOCK_BYTES..] == last;
  }

  lemma {:induction false} DecryptUndoesEncrypt(c: Cipher, key: Key, s: Binary)
    requires Lawful(c) && Whole(|s|)
    ensures DecryptBlocks(c, key, EncryptBlocks(c, key, s)) == s
  {
    hide Whole, EncryptBlocks, DecryptBlocks;
    if s == [] {
      NoBlocks(c, key);
    } else {
      NoBlocks(c, key);
      NextBlock(0, |s|);
      var front, last: Block := s[..|s| - BLOCK_BYTES], s[|s| - BLOCK_BYTES..];
      assert s == front + last;
      DecryptUndoesEncrypt(c, key, front);
      LastBlock(c, key, front, last);
      LastBlock(c, key, EncryptBlocks(c, key, front), c.encrypt(key, last));
    }
  }

  lemma {:induction false} EncryptUndoesDecrypt(c: Cipher, key: Key, s: Binary)
    requires Lawful(c) && Whole(|s|)
    ensures EncryptBlocks(c, key, DecryptBlocks(c, key, s)) == s
  {
    hide Whole, EncryptBlocks, DecryptBlocks;
    if s == [] {
      NoBlocks(c, key);
    } else {
      NoBlocks(c, key);
      NextBlock(0, |s|);
      var front, last: Block := s[..|s| - BLOCK_BYTES], s[|s| - BLOCK_BYTES..];
      assert s == front + last;
      EncryptUndoesDecrypt(c, key, front);
      LastBlock(c, key, front, last);
      LastBlock(c, key, DecryptBlocks(c, key, front), c.decrypt(key, last));
    }
  }

  /** The block after the first i bytes. */
  lemma BlockStep(c: Cipher, key: Key, s: Binary, i: nat)
    requires Whole(i) && i + BLOCK_BYTES <= |s|
    ensures Whole(i + BLOCK_BYTES)
    ensures EncryptBlocks(c, key, s[..i + BLOCK_BYTES])
         == EncryptBlocks(c, key, s[..i]) + c.encrypt(key, s[i..i + BLOCK_BYTES])
    ensures DecryptBlocks(c, key, s[..i + BLOCK_BYTES])
         == DecryptBlocks(c, key, s[..i]) + c.decrypt(key, s[i..i + BLOCK_BYTES])
  {
    hide EncryptBlocks, DecryptBlocks;
    assert s[..i + BLOCK_BYTES] == s[..i] + s[i..i + BLOCK_BYTES];
    LastBlock(c, key, s[..i], s[i..i + BLOCK_BYTES]);
  }

  // ---------- Bodies ----------

  /** The padded text, encrypted block by block. */
  function Ciphertext(c: Cipher, key: Key, plain: Binary): Binary {
    EncryptBlocks(c, key, Padded(plain, BLOCK_BYTES))
  }

  function Encrypted(c: Cipher, plain: Binary, key: Binary): Result<Query.Bytes, BodyError> {
    if |key| != KEY_BYTES then Err(KeyLength(|key|))
    else Ok(c.toBase64(Ciphertext(c, key, plain)))
  }

  function Decrypted(c: Cipher, b64: string, key: Binary): Result<Binary, BodyError> {
    if |key| != KEY_BYTES then Err(KeyLength(|key|))
    else
      var bytes := c.fromBase64(b64);
      if bytes.None? then Err(NotBase64)
      else if |bytes.value| == 0 then Err(Empty)
      else if |bytes.value| % BLOCK_BYTES != 0 then Err(NotWholeBlocks(|bytes.value|))
      else Pkcs5Unpad(DecryptBlocks(c, key, bytes.value), BLOCK_BYTES)
  }

  /** `block.Encrypt(dst[i:i+bs], src[i:i+bs])`, and the same for Decrypt. */
  method PutBlock(dst: array<Byte>, i: nat, block: Block)
    requires i + BLOCK_BYTES <= dst.Length
    modifies dst
    ensures dst[..i] == old(dst[..i]) && dst[i..i + BLOCK_BYTES] == block
  {
    forall j | 0 <= j < BLOCK_BYTES {
      dst[i + j] := block[j];
    }
  }

  method EncryptBody(c: Cipher, plain: Binary, key: Binary) returns (r: Result<Query.Bytes, BodyError>)
    ensures r == Encrypted(c, plain, key)
  {
    if |key| != KEY_BYTES {
      return Err(KeyLength(|key|));
    }
    var padded := Pkcs5Pad(plain, BLOCK_BYTES);
    var out := EncryptAll(c, key, padded[..]);
    return Ok(c.toBase64(out[..]));
  }

  /** The block loop of `EncryptBody`. */
  method EncryptAll(c: Cipher, key: Key, padded: Binary) returns (out: array<Byte>)
    requires Whole(|padded|)
    ensures fresh(out) && out[..] == EncryptBlocks(c, key, padded)
  {
    hide Whole, EncryptBlocks;
    NoBlocks(c, key);
    out := new Byte[|padded|];
    var i := 0;
    while i < |padded|
      invariant 0 <= i <= |padded| == out.Length && Whole(i) && fresh(out)
      invariant out[..i] == EncryptBlocks(c, key, padded[..i])
    {
      NextBlock(i, |padded|);
      BlockStep(c, key, padded, i);
      PutBlock(out, i, c.encrypt(key, padded[i..i + BLOCK_BYTES]));
      i := i + BLOCK_BYTES;
    }
    assert out[..] == out[..i] && padded == padded[..i];
  }

  method DecryptBody(c: Cipher, b64: string, key: Binary) returns (r: Result<Binary, BodyError>)
    ensures r == Decrypted(c, b64, key)
  {
    if |key| != KEY_BYTES {
      return Err(KeyLength(|key|));
    }
    var decoded := c.fromBase64(b64);
    if decoded.None? {
      return Err(NotBase64);
    }
    var bytes := decoded.value;
    if |bytes| == 0 {
      return Err(Empty);
    }
    if |bytes| % BLOCK_BYTES != 0 {
      return Err(NotWholeBlocks(|bytes|));
    }
    var out := DecryptAll(c, key, bytes);
    return Pkcs5Unpad(out[..], BLOCK_BYTES);
  }

  /** The block loop of `DecryptBody`. */
  method DecryptAll(c: Cipher, key: Key, bytes: Binary) returns (out: array<Byte>)
    requires Whole(|bytes|)
    ensures fresh(out) && out[..] == DecryptBlocks(c, key, bytes)
  {
    hide Whole, DecryptBlocks;
    NoBlocks(c, key);
    out := new Byte[|bytes|];
    var i := 0;
    while i < |bytes|
      invariant 0 <= i <= |bytes| == out.Length && Whole(i) && fresh(out)
      invariant out[..i] == DecryptBlocks(c, key, bytes[..i])
    {
      NextBlock(i, |bytes|);
      BlockStep(c, key, bytes, i);
      PutBlock(out, i, c.decrypt(key, bytes[i..i + BLOCK_BYTES]));
      i := i + BLOCK_BYTES;
    }
    assert out[..] == out[..i] && bytes == bytes[..i];
  }

  /** A body decrypts to `plain` exactly when its base64 is that of the padded,
      encrypted `plain`. */
  lemma DecryptedIff(c: Cipher, b64: string, key: Key, plain: Binary)
    requires Lawful(c)
    ensures Decrypted(c, b64, key) == Ok(plain)
       <==> c.fromBase64(b64) == Some(Ciphertext(c, key, plain))
  {
    var padded := Padded(plain, BLOCK_BYTES);
    DecryptUndoesEncrypt(c, key, padded);
    UnpadIffPad(padded, plain, BLOCK_BYTES);
    if Decrypted(c, b64, key) == Ok(plain) {
      var bytes := c.fromBase64(b64).value;
      UnpadIffPad(DecryptBlocks(c, key, bytes), plain, BLOCK_BYTES);
      EncryptUndoesDecrypt(c, key, bytes);
    }
  }

  /** Decrypting an encrypted body gives the body back, whatever its length. */
  lemma BodyRoundTrip(c: Cipher, plain: Binary, key: Key)
    requires Lawful(c)
    ensures Encrypted(c, plain, key).Ok? && Decrypted(c, Encrypted(c, plain, key).value, key) == Ok(plain)
  {
    DecryptedIff(c, Encrypted(c, plain, key).value, key, plain);
  }

  /** Only keys of 32 bytes encrypt, and what they encrypt is padded to whole blocks of
      16 bytes, with at least one byte and at most one block. */
  lemma EncryptedSize(c: Cipher, plain: Binary, key: Binary)
    ensures Encrypted(c, plain, key).Ok? <==> |key| == 32
    ensures |key| == 32 ==>
              var n := |Ciphertext(c, key, plain)|;
              n % 16 == 0 && |plain| < n <= |plain| + 16 && Encrypted(c, plain, key) == Ok(c.toBase64(Ciphertext(c, key, plain)))
  {
  }

  /** Which bodies are refused, and why. */
  lemma RefusedBody(c: Cipher, b64: string, key: Binary)
    ensures |key| != 32 ==> Decrypted(c, b64, key) == Err(KeyLength(|key|))
    ensures |key| == 32 && c.fromBase64(b64).None? ==> Decrypted(c, b64, key) == Err(NotBase64)
    ensures |key| == 32 && c.fromBase64(b64) == Some([]) ==> Decrypted(c, b64, key) == Err(Empty)
    ensures |key| == 32 && c.fromBase64(b64).Some? && |c.fromBase64(b64).value| % 16 != 0 ==>
              Decrypted(c, b64, key) == Err(NotWholeBlocks(|c.fromBase64(b64).value|))
  {
  }
}
