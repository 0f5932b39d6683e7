/** atomefin/encrypt/envelope.go: the hybrid envelope, sealed and opened. */
module Envelope {
  import opened Wrappers
  import opened AesBody
  import opened AesKey
  import opened EncryptHeader

  const MIN_KEY_BITS := 2048

  /** An RSA key is its size and its library function. Wrapping is randomised:
      it takes a salt. */
  datatype PublicKey = PublicKey(bits: nat, wrap: (Binary, nat) -> Option<Binary>)
  datatype PrivateKey = PrivateKey(bits: nat, unwrap: Binary -> Option<Binary>)

  /** The two halves of one key pair. */
  ghost predicate IsPair(pub: PublicKey, priv: PrivateKey) {
    pub.bits == priv.bits
    && forall k: Binary, salt: nat | pub.wrap(k, salt).Some? ::
         pub.wrap(k, salt).value != [] && priv.unwrap(pub.wrap(k, salt).value) == Some(k)
  }

  datatype EnvelopeError =
    | NoKey
    | SmallKey(bits: nat)
    | WrapFails
    | UnwrapFails
    | WrappedNotBase64
    | InHeader(header: HeaderError)
    | InKey(key: KeyError)
    | InBody(body: BodyError)

  datatype Sealed = Sealed(header: string, body: Query.Bytes)

  function WrapAESKey(c: Cipher, key: Binary, pub: Option<PublicKey>, salt: nat): Result<Query.Bytes, EnvelopeError> {
    if pub.None? then Err(NoKey)
    else if pub.value.bits < MIN_KEY_BITS then Err(SmallKey(pub.value.bits))
    else
      var wrapped := pub.value.wrap(key, salt);
      if wrapped.None? then Err(WrapFails) else Ok(c.toBase64(wrapped.value))
  }

  function UnwrapAESKey(c: Cipher, wrapped: string, priv: Option<PrivateKey>): Result<Binary, EnvelopeError> {
    if priv.None? then Err(NoKey)
    else if priv.value.bits < MIN_KEY_BITS then Err(SmallKey(priv.value.bits))
    else
      var bytes := c.fromBase64(wrapped);
      if bytes.None? then Err(WrappedNotBase64)
      else
        var key := priv.value.unwrap(bytes.value);
        if key.None? then Err(UnwrapFails) else Ok(key.value)
  }

  /** The envelope around `plain` under a given AES key. */
  function Seal(c: Cipher, plain: Binary, key: Key, pub: PublicKey, salt: nat): Result<Sealed, EnvelopeError> {
    var wrapped := WrapAESKey(c, key, Some(pub), salt);
    if wrapped.Err? then Err(wrapped.error)
    else Ok(Sealed(BuildEncryptHeader(wrapped.value), c.toBase64(Ciphertext(c, key, plain))))
  }

  /** `Marshal`: seals under the key sampled from `src`. */
  method Marshal(c: Cipher, plain: Binary, pub: Option<PublicKey>, src: Source, salt: nat)
      returns (r: Result<Sealed, EnvelopeError>)
    requires src.Valid()
    modifies src
    ensures src.Valid() && src.pos >= old(src.pos)
    ensures pub.None? ==> r == Err(NoKey) && src.pos == old(src.pos)
    ensures pub.Some? && |Letters(src.data[old(src.pos)..])| < KEY_BYTES ==> r == Err(InKey(RandomSource))
    ensures pub.Some? && |Letters(src.data[old(src.pos)..])| >= KEY_BYTES ==>
              var key := Letters(src.data[old(src.pos)..src.pos]);
              IsKey(key) && r == Seal(c, plain, key, pub.value, salt)
  {
    if pub.None? {
      return Err(NoKey);
    }
    var sampled := RandomAESKey(src);
    if sampled.Err? {
      return Err(InKey(sampled.error));
    }
    SampledIsValid(src.data[old(src.pos)..src.pos]);
    var body := EncryptBody(c, plain, sampled.value);
    if body.Err? {
      assert false;
    }
    var wrapped := WrapAESKey(c, sampled.value, pub, salt);
    if wrapped.Err? {
      return Err(wrapped.error);
    }
    return Ok(Sealed(BuildEncryptHeader(wrapped.value), body.value));
  }

  function Open(c: Cipher, header: string, body: string, priv: Option<PrivateKey>): Result<Binary, EnvelopeError> {
    if priv.None? then Err(NoKey)
    else
      var kv := Parsed(header);
      if kv.Err? then Err(InHeader(kv.error))
      else
        var wrapped := SymmetricKeyFrom(kv.value);
        if wrapped.Err? then Err(InHeader(wrapped.error))
        else
          var key := UnwrapAESKey(c, wrapped.value, priv);
          if key.Err? then Err(key.error)
          else if Verdict(key.value).Some? then Err(InKey(Verdict(key.value).value))
          else
            var plain := Decrypted(c, body, key.value);
            if plain.Err? then Err(InBody(plain.error)) else Ok(plain.value)
  }

  method Unmarshal(c: Cipher, header: string, body: string, priv: Option<PrivateKey>)
      returns (r: Result<Binary, EnvelopeError>)
    ensures r == Open(c, header, body, priv)
  {
    if priv.None? {
      return Err(NoKey);
    }
    var kv := ParseEncryptHeader(header);
    if kv.Err? {
      return Err(InHeader(kv.error));
    }
    var wrapped := SymmetricKeyFrom(kv.value);
    if wrapped.Err? {
      return Err(InHeader(wrapped.error));
    }
    var key := UnwrapAESKey(c, wrapped.value, priv);
    if key.Err? {
      return Err(key.error);
    }
    var invalid := ValidateAESKey(key.value);
    if invalid.Some? {
      return Err(InKey(invalid.value));
    }
    var plain := DecryptBody(c, body, key.value);
    if plain.Err? {
      return Err(InBody(plain.error));
    }
    return Ok(plain.value);
  }

  // ---------- Opening undoes sealing ----------

  /** The AES key a header carries for the holder of `priv`. */
  predicate Carries(c: Cipher, header: string, priv: PrivateKey, key: Binary) {
    Parsed(header).Ok? && SymmetricKeyFrom(Parsed(header).value).Ok?
    && UnwrapAESKey(c, SymmetricKeyFrom(Parsed(header).value).value, Some(priv)) == Ok(key)
  }

  lemma SealedHeaderCarries(c: Cipher, plain: Binary, key: Key, pub: PublicKey, priv: PrivateKey, salt: nat)
    requires Lawful(c) && IsPair(pub, priv) && Seal(c, plain, key, pub, salt).Ok?
    ensures Carries(c, Seal(c, plain, key, pub, salt).value.header, priv, key)
  {
    hide Parsed, BuildEncryptHeader, SymmetricKeyFrom, Ciphertext;
    var rsa := pub.wrap(key, salt).value;
    var wrapped := c.toBase64(rsa);
    ParseUndoesBuild(wrapped);
    assert wrapped == "" ==> Some(rsa) == Some([]);
  }

  /** Opening succeeds with `plain` exactly when the header carries a valid key
      and the body is the encryption of `plain` under it. */
  lemma OpenIff(c: Cipher, header: string, body: string, priv: PrivateKey, plain: Binary)
    requires Lawful(c)
    ensures Open(c, header, body, Some(priv)) == Ok(plain)
       <==> exists key: Key :: Carries(c, header, priv, key) && IsKey(key)
                               && c.fromBase64(body) == Some(Ciphertext(c, key, plain))
  {
    hide Parsed, SymmetricKeyFrom, UnwrapAESKey, Decrypted, Ciphertext;
    forall key: Key | Carries(c, header, priv, key)
      ensures Decrypted(c, body, key) == Ok(plain)
         <==> c.fromBase64(body) == Some(Ciphertext(c, key, plain))
    {
      DecryptedIff(c, body, key, plain);
    }
    if Open(c, header, body, Some(priv)) == Ok(plain) {
      var key := UnwrapAESKey(c, SymmetricKeyFrom(Parsed(header).value).value, Some(priv)).value;
      assert Carries(c, header, priv, key);
    }
  }

  /** The holder of the private key gets back every body of every length. */
  lemma OpenUndoesSeal(c: Cipher, plain: Binary, key: Key, pub: PublicKey, priv: PrivateKey, salt: nat)
    requires Lawful(c) && IsPair(pub, priv) && IsKey(key) && Seal(c, plain, key, pub, salt).Ok?
    ensures var sealed := Seal(c, plain, key, pub, salt).value;
            Open(c, sealed.header, sealed.body, Some(priv)) == Ok(plain)
  {
    var sealed := Seal(c, plain, key, pub, salt).value;
    SealedHeaderCarries(c, plain, key, pub, priv, salt);
    OpenIff(c, sealed.header, sealed.body, priv, plain);
  }

  /** `Unmarshal` after `Marshal`: the plaintext comes back whatever the random
      bytes were, unless they run out, the key is too small, or wrapping the
      sampled key fails, and each of these has its own error. */
  method RoundTrip(c: Cipher, plain: Binary, pub: PublicKey, priv: PrivateKey, src: Source, salt: nat)
      returns (r: Result<Binary, EnvelopeError>)
    requires Lawful(c) && IsPair(pub, priv) && src.Valid()
    modifies src
    ensures src.Valid() && src.pos >= old(src.pos)
    ensures var key := Letters(src.data[old(src.pos)..src.pos]);
            if |Letters(src.data[old(src.pos)..])| < KEY_BYTES then r == Err(InKey(RandomSource))
            else if pub.bits < MIN_KEY_BITS then r == Err(SmallKey(pub.bits))
            else if pub.wrap(key, salt).None? then r == Err(WrapFails)
            else r == Ok(plain)
  {
    var sealed := Marshal(c, plain, Some(pub), src, salt);
    if sealed.Err? {
      return Err(sealed.error);
    }
    OpenUndoesSeal(c, plain, Letters(src.data[old(src.pos)..src.pos]), pub, priv, salt);
    r := Unmarshal(c, sealed.value.header, sealed.value.body, Some(priv));
  }

  /** Keys below 2048 bits are refused on both sides, before anything is done with
      them; from 2048 bits on the library's answer is passed on. */
  lemma KeySizeDecides(c: Cipher, key: Binary, wrapped: string, pub: PublicKey, priv: PrivateKey, salt: nat)
    ensures pub.bits < 2048 ==> WrapAESKey(c, key, Some(pub), salt) == Err(SmallKey(pub.bits))
    ensures pub.bits >= 2048 && pub.wrap(key, salt).Some? ==>
              WrapAESKey(c, key, Some(pub), salt) == Ok(c.toBase64(pub.wrap(key, salt).value))
    ensures pub.bits >= 2048 && pub.wrap(key, salt).None? ==> WrapAESKey(c, key, Some(pub), salt) == Err(WrapFails)
    ensures priv.bits < 2048 ==> UnwrapAESKey(c, wrapped, Some(priv)) == Err(SmallKey(priv.bits))
    ensures priv.bits >= 2048 ==>
              (UnwrapAESKey(c, wrapped, Some(priv)) == Ok(key)
               <==> c.fromBase64(wrapped).Some? && priv.unwrap(c.fromBase64(wrapped).value) == Some(key))
    ensures priv.bits >= 2048 && c.fromBase64(wrapped).None? ==>
              UnwrapAESKey(c, wrapped, Some(priv)) == Err(WrappedNotBase64)
    ensures priv.bits >= 2048 && c.fromBase64(wrapped).Some? && priv.unwrap(c.fromBase64(wrapped).value).None? ==>
              UnwrapAESKey(c, wrapped, Some(priv)) == Err(UnwrapFails)
    ensures WrapAESKey(c, key, None, salt) == Err(NoKey) && UnwrapAESKey(c, wrapped, None) == Err(NoKey)
  {
  }
}
