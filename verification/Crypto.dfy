/** The cryptographic library as a record of functions, with the hypotheses the proofs use
    stated as predicates. AES-GCM follows sections 7.1 and 7.2 of NIST SP 800-38D: sealing
    yields the ciphertext followed by a 16-byte tag, unsealing returns the plaintext or FAIL. */
module Crypto {
  import opened Options
  import opened Bytes

  const IV_BYTES := 12
  const KEY_BYTES := 32
  const TAG_BYTES := 16
  const HASH_BYTES := 28
  const NONCE_BYTES := 12

  type Iv = b: Bytes | |b| == 12 witness seq(12, _ => 0)
  type Key = b: Bytes | |b| == 32 witness seq(32, _ => 0)

  datatype Suite = Suite(
    seal: (Bytes, Bytes, Bytes, Bytes) -> Bytes,          // key, iv, associated data, plaintext
    unseal: (Bytes, Bytes, Bytes, Bytes) -> Option<Bytes>, // key, iv, associated data, sealed
    sha224: Bytes -> Bytes,
    b64Encode: Bytes -> Bytes,
    b64Decode: Bytes -> Bytes)

  ghost predicate DigestLength(c: Suite) {
    forall m :: |c.sha224(m)| == HASH_BYTES
  }

  /** Functional correctness: lengths, and decoding undoes encoding. */
  ghost predicate Correct(c: Suite) {
    && (forall k, iv, a, p :: |c.seal(k, iv, a, p)| == |p| + TAG_BYTES)
    && (forall k, iv, a, p :: c.unseal(k, iv, a, c.seal(k, iv, a, p)) == Some(p))
    && DigestLength(c)
    && (forall m :: c.b64Decode(c.b64Encode(m)) == m)
  }

  /** Authenticity of one sealed text: it is refused under this key and this associated data. It is asked
      only of texts that were made: for no two AES-GCM keys does it hold of every plaintext, because some
      plaintext gives both the same tag. */
  ghost predicate Refuses(c: Suite, key: Bytes, iv: Bytes, aad: Bytes, plain: Bytes, key': Bytes, aad': Bytes) {
    c.unseal(key', iv, aad', c.seal(key, iv, aad, plain)) == None
  }

  /** Encryption.kt and Envelope.kt: how an opening attempt ends without a key. */
  datatype Failure =
    | NotInEnvelope     // "User key not in envelope"
    | BadTag            // AEADBadTagException
    | InvalidKey        // IllegalArgumentException / InvalidKeyException of the cipher set-up
    | BufferUnderflow   // BufferUnderflowException
    | IndexOutOfBounds  // IndexOutOfBoundsException of copyInto
    | EndOfFile         // EOFException of readInt
    | NegativeLength    // IllegalArgumentException of readNBytes
    | TooLarge          // no Java array can hold the result

  datatype Result = Ok(value: Bytes) | Err(failure: Failure)

  predicate KeySizeOk(key: Bytes) {
    |key| == 16 || |key| == 24 || |key| == 32
  }

  datatype Mode = Encrypt | Decrypt

  /** `cipherAes` as an expression, in the order in which its steps can throw. */
  function CipherAes(c: Suite, data: Bytes, key: Bytes, aad: Bytes, mode: Mode, random: Iv): Result {
    if key == [] then Err(InvalidKey)
    else if mode.Decrypt? && |data| < IV_BYTES then Err(BufferUnderflow)
    else if !KeySizeOk(key) then Err(InvalidKey)
    else if mode.Encrypt? then Ok(random + c.seal(key, random, aad, data))
    else match c.unseal(key, data[..IV_BYTES], aad, data[IV_BYTES..])
      case None => Err(BadTag)
      case Some(p) => Ok(p)
  }

  function DecryptAes(c: Suite, data: Bytes, key: Bytes, aad: Bytes): Result {
    CipherAes(c, data, key, aad, Decrypt, seq(12, _ => 0))
  }

  /** The bytes of an encryption: the IV first, then what the cipher yields; or a refusal of the key. */
  lemma EncryptionBytes(c: Suite, data: Bytes, key: Bytes, aad: Bytes, iv: Iv)
    ensures var e := CipherAes(c, data, key, aad, Encrypt, iv);
            if |key| == 16 || |key| == 24 || |key| == 32
            then e.Ok? && |e.value| >= 12 && e.value[..12] == iv && e.value[12..] == c.seal(key, iv, aad, data)
            else e == Err(InvalidKey)
  {
    var sealed := c.seal(key, iv, aad, data);
    assert (iv + sealed)[..12] == iv && (iv + sealed)[12..] == sealed;
  }

  /** What decides a decryption, of any data under any key: the IV is the first 12 bytes. */
  lemma DecryptionDecidedBy(c: Suite, data: Bytes, key: Bytes, aad: Bytes)
    ensures var d := DecryptAes(c, data, key, aad);
            && (d == Err(BufferUnderflow) <==> key != [] && |data| < 12)
            && (d == Err(InvalidKey) <==>
                key == [] || (|data| >= 12 && |key| != 16 && |key| != 24 && |key| != 32))
            && (|data| >= 12 && (|key| == 16 || |key| == 24 || |key| == 32) ==>
                  && (d == Err(BadTag) <==> c.unseal(key, data[..12], aad, data[12..]) == None)
                  && (forall p :: d == Ok(p) <==> c.unseal(key, data[..12], aad, data[12..]) == Some(p)))
  {
  }

  /** Decryption undoes encryption under the same key and associated data, and fails under others that
      refuse the sealed text. */
  lemma DecryptAfterEncrypt(c: Suite, data: Bytes, key: Bytes, aad: Bytes, iv: Iv, key': Bytes, aad': Bytes)
    requires Correct(c) && KeySizeOk(key) && KeySizeOk(key')
    requires (key == key' && aad == aad') || Refuses(c, key, iv, aad, data, key', aad')
    ensures var e := CipherAes(c, data, key, aad, Encrypt, iv);
            && e.Ok? && |e.value| == IV_BYTES + |data| + TAG_BYTES
            && DecryptAes(c, e.value, key', aad') ==
               if key == key' && aad == aad' then Ok(data) else Err(BadTag)
  {
    var sealed := c.seal(key, iv, aad, data);
    assert (iv + sealed)[..IV_BYTES] == iv && (iv + sealed)[IV_BYTES..] == sealed;
  }

  /** `cipherAes` step by step: the IV array is filled from the random source or from the head of
      the data, the cipher runs past the IV, and encryption prefixes the result with the IV. */
  method CipherAesInPlace(c: Suite, data: array<byte>, key: Bytes, aad: Bytes, mode: Mode, random: Iv)
    returns (r: Result)
    ensures r == CipherAes(c, data[..], key, aad, mode, random)
  {
    if key == [] { return Err(InvalidKey); }
    var iv := new byte[IV_BYTES];
    match mode {
      case Encrypt =>
        forall i | 0 <= i < IV_BYTES { iv[i] := random[i]; }
        assert iv[..] == random;
      case Decrypt =>
        if data.Length < IV_BYTES { return Err(BufferUnderflow); }
        forall i | 0 <= i < IV_BYTES { iv[i] := data[i]; }
        assert iv[..] == data[..][..IV_BYTES];
    }
    if !KeySizeOk(key) { return Err(InvalidKey); }
    var dataOffset := if mode.Decrypt? then IV_BYTES else 0;
    var input := data[dataOffset..];
    match mode {
      case Encrypt =>
        assert input == data[..];
        assert iv[..] == random;
        var processed := c.seal(key, iv[..], aad, input);
        var result := new byte[IV_BYTES + |processed|];
        forall i | 0 <= i < IV_BYTES { result[i] := iv[i]; }
        forall i | 0 <= i < |processed| { result[IV_BYTES + i] := processed[i]; }
        assert result[..] == random + processed && data[..] == input;
        return Ok(result[..]);
      case Decrypt =>
        assert input == data[..][IV_BYTES..];
        match c.unseal(key, iv[..], aad, input) {
          case None => return Err(BadTag);
          case Some(p) => return Ok(p);
        }
    }
  }

  // ---------- The hypotheses can be met ----------

  function ToyTag(k: Bytes, a: Bytes): Bytes {
    Resize(k, 8) + Resize(a, 8)
  }

  function ToyUnseal(k: Bytes, a: Bytes, s: Bytes): Option<Bytes> {
    if |s| >= TAG_BYTES && s[|s| - TAG_BYTES..] == ToyTag(k, a) then Some(s[..|s| - TAG_BYTES]) else None
  }

  /** A suite in which the tag spells out the head of the key and of the associated data. */
  function Toy(): Suite {
    Suite((k, iv, a, p) => p + ToyTag(k, a),
          (k, iv, a, s) => ToyUnseal(k, a, s),
          m => Resize(m[|m| - (if |m| < 28 then |m| else 28)..], 28),
          m => m,
          m => m)
  }

  lemma ToyCorrect()
    ensures Correct(Toy())
  {
    forall k, iv, a, p
      ensures |Toy().seal(k, iv, a, p)| == |p| + TAG_BYTES
      ensures Toy().unseal(k, iv, a, Toy().seal(k, iv, a, p)) == Some(p)
    {
      var s := p + ToyTag(k, a);
      assert s[|s| - TAG_BYTES..] == ToyTag(k, a) && s[..|s| - TAG_BYTES] == p;
    }
  }

  lemma ToyRejects(k: Bytes, k': Bytes, a: Bytes, a': Bytes, p: Bytes)
    requires Resize(k, 8) != Resize(k', 8) || Resize(a, 8) != Resize(a', 8)
    ensures ToyUnseal(k', a', p + ToyTag(k, a)) == None
  {
    var s := p + ToyTag(k, a);
    assert s[|s| - TAG_BYTES..] == ToyTag(k, a);
    assert ToyTag(k, a)[..8] == Resize(k, 8) && ToyTag(k', a')[..8] == Resize(k', 8);
    assert ToyTag(k, a)[8..] == Resize(a, 8) && ToyTag(k', a')[8..] == Resize(a', 8);
  }

  lemma ToyRefuses(k: Bytes, k': Bytes, iv: Bytes, a: Bytes, a': Bytes, p: Bytes)
    requires ToyUnseal(k', a', p + ToyTag(k, a)) == None
    ensures Refuses(Toy(), k, iv, a, p, k', a')
  {
  }

  /** The toy suite is correct and refuses every text sealed under a key, or for associated data, that
      differs within its first eight bytes, so the hypotheses are consistent. */
  lemma HypothesesSatisfiable(k: Bytes, k': Bytes, iv: Bytes, a: Bytes, a': Bytes, p: Bytes)
    requires Resize(k, 8) != Resize(k', 8) || Resize(a, 8) != Resize(a', 8)
    ensures Correct(Toy()) && Refuses(Toy(), k, iv, a, p, k', a')
  {
    ToyCorrect();
    ToyRejects(k, k', a, a', p);
    ToyRefuses(k, k', iv, a, a', p);
  }
}
