/** The C client (client.cpp): trial decryption of 64-byte records under AES in counter mode, and the
    simulated monitor that writes them. */
module Trials {
  import opened Bytes
  import opened Options
  import opened Crypto

  // ---------- Counter mode ----------

  function Pow2(n: nat): nat {
    if n == 0 then 1 else 2 * Pow2(n - 1)
  }

  /** Exclusive or of the lowest n bits. */
  function XorBits(a: nat, b: nat, n: nat): (r: nat)
    ensures r < Pow2(n)
  {
    if n == 0 then 0 else 2 * XorBits(a / 2, b / 2, n - 1) + if a % 2 == b % 2 then 0 else 1
  }

  lemma {:induction false} XorBitsCancel(a: nat, b: nat, n: nat)
    requires a < Pow2(n)
    ensures XorBits(XorBits(a, b, n), b, n) == a
  {
    if n != 0 {
      XorBitsCancel(a / 2, b / 2, n - 1);
      assert XorBits(a, b, n) / 2 == XorBits(a / 2, b / 2, n - 1);
    }
  }

  lemma {:induction false} XorBitsInjective(a: nat, b: nat, c: nat, n: nat)
    requires b < Pow2(n) && c < Pow2(n) && XorBits(a, b, n) == XorBits(a, c, n)
    ensures b == c
  {
    if n != 0 {
      assert XorBits(a, b, n) / 2 == XorBits(a / 2, b / 2, n - 1);
      assert XorBits(a, c, n) / 2 == XorBits(a / 2, c / 2, n - 1);
      XorBitsInjective(a / 2, b / 2, c / 2, n - 1);
    }
  }

  lemma Pow2Of8()
    ensures Pow2(8) == 256
  {
    assert Pow2(4) == 16;
  }

  function Xor(a: byte, b: byte): byte {
    Pow2Of8();
    XorBits(a as int, b as int, 8) as byte
  }

  lemma XorCancel(a: byte, b: byte)
    ensures Xor(Xor(a, b), b) == a
  {
    Pow2Of8();
    XorBitsCancel(a as int, b as int, 8);
  }

  lemma XorInjective(a: byte, b: byte, c: byte)
    requires Xor(a, b) == Xor(a, c)
    ensures b == c
  {
    Pow2Of8();
    XorBitsInjective(a as int, b as int, c as int, 8);
  }

  /** The first 32 bytes of the key stream that a key produces under the one IV of the program. Every
      call of aes_encrypt and aes_decrypt starts the counter anew, so both halves of a record meet the
      same stream (section 6.5 of NIST SP 800-38A). */
  type Stream = Bytes -> Key

  function Ctr(stream: Stream, key: Bytes, block: Key): Key {
    seq(32, i requires 0 <= i < 32 => Xor(block[i], stream(key)[i]))
  }

  /** Decryption is encryption. */
  lemma CtrInvolution(stream: Stream, key: Bytes, block: Key)
    ensures Ctr(stream, key, Ctr(stream, key, block)) == block
  {
    forall i | 0 <= i < 32 ensures Ctr(stream, key, Ctr(stream, key, block))[i] == block[i] {
      XorCancel(block[i], stream(key)[i]);
    }
  }

  /** A block encrypted under one key and decrypted under another comes back unchanged only if both keys
      produce the same stream, and then every block does. */
  lemma CrossDecryptUnchanged(stream: Stream, k: Bytes, k': Bytes, block: Key)
    requires Ctr(stream, k, Ctr(stream, k', block)) == block
    ensures stream(k) == stream(k')
  {
    var x := Ctr(stream, k', block);
    forall i | 0 <= i < 32 ensures stream(k)[i] == stream(k')[i] {
      assert Ctr(stream, k, x)[i] == block[i] && x[i] == Xor(block[i], stream(k')[i]);
      XorCancel(x[i], stream(k)[i]);
      XorInjective(block[i], stream(k)[i], stream(k')[i]);
    }
  }

  /** Bit k of an exclusive or is set exactly when the two bits differ. */
  lemma {:induction false} XorBitAt(a: nat, b: nat, n: nat, k: nat)
    requires k < n
    ensures BitAt(XorBits(a, b, n), k) <==> (BitAt(a, k) != BitAt(b, k))
  {
    assert XorBits(a, b, n) / 2 == XorBits(a / 2, b / 2, n - 1);
    if k > 0 { XorBitAt(a / 2, b / 2, n - 1, k - 1); }
  }

  predicate BitAt(a: nat, k: nat) {
    if k == 0 then a % 2 == 1 else BitAt(a / 2, k - 1)
  }

  /** Counter mode flips exactly the bits that are set in the key stream. */
  lemma CtrFlipsBits(stream: Stream, key: Bytes, block: Key, i: nat, k: nat)
    requires i < 32 && k < 8
    ensures BitAt(Ctr(stream, key, block)[i] as int, k)
            <==> (BitAt(block[i] as int, k) != BitAt(stream(key)[i] as int, k))
  {
    XorBitAt(block[i] as int, stream(key)[i] as int, 8, k);
  }

  // ---------- Records ----------

  /** Thirty-two characters '1'. */
  function PositiveHint(): Key { Repeated(0x31) }

  /** Thirty-two characters '0'. */
  function NegativeHint(): Key { Repeated(0x30) }

  function Repeated(b: byte): Key { seq(32, _ => b) }

  function Hint(ciphertext: Bytes, i: nat): Key
    requires 64 * i + 64 <= |ciphertext|
  {
    ciphertext[64 * i..64 * i + 32]
  }

  function SealedKey(ciphertext: Bytes, i: nat): Key
    requires 64 * i + 64 <= |ciphertext|
  {
    ciphertext[64 * i + 32..64 * i + 64]
  }

  predicate Match(stream: Stream, userKey: Bytes, ciphertext: Bytes, i: nat) {
    64 * i + 64 <= |ciphertext| && Ctr(stream, userKey, Hint(ciphertext, i)) == PositiveHint()
  }

  /** The first matching record at or after i. */
  function FirstMatch(stream: Stream, userKey: Bytes, ciphertext: Bytes, i: nat): (r: Option<nat>)
    ensures r.Some? ==> i <= r.value && Match(stream, userKey, ciphertext, r.value)
    decreases |ciphertext| - 64 * i
  {
    if 64 * i + 64 > |ciphertext| then None
    else if Match(stream, userKey, ciphertext, i) then Some(i)
    else FirstMatch(stream, userKey, ciphertext, i + 1)
  }

  lemma {:induction false} FirstMatchIsFirst(stream: Stream, userKey: Bytes, ciphertext: Bytes, i: nat, j: nat)
    requires i <= j
    ensures var r := FirstMatch(stream, userKey, ciphertext, i);
            r == None || j < r.value ==> !Match(stream, userKey, ciphertext, j)
    decreases |ciphertext| - 64 * i
  {
    if 64 * i + 64 <= |ciphertext| && i < j { FirstMatchIsFirst(stream, userKey, ciphertext, i + 1, j); }
  }

  /** user_get_file_key: None stands for the return value -1. */
  function FileKey(stream: Stream, userKey: Bytes, ciphertext: Bytes): Option<Key> {
    match FirstMatch(stream, userKey, ciphertext, 0)
    case None => None
    case Some(i) => Some(Ctr(stream, userKey, SealedKey(ciphertext, i)))
  }

  /** The scan with its advancing pointer. */
  method UserGetFileKey(stream: Stream, userKey: Bytes, ciphertext: Bytes) returns (r: Option<Key>)
    requires |ciphertext| / 64 < INT_LIMIT
    ensures r == FileKey(stream, userKey, ciphertext)
  {
    var trials: int32 := (|ciphertext| / 64) as int32;
    var pointer := 0;
    var i: int32 := 0;
    while i < trials
      invariant 0 <= i <= trials && pointer == 64 * i as int
      invariant FirstMatch(stream, userKey, ciphertext, 0) == FirstMatch(stream, userKey, ciphertext, i as int)
    {
      var decHint := Ctr(stream, userKey, ciphertext[pointer..pointer + 32]);
      if decHint == PositiveHint() {
        return Some(Ctr(stream, userKey, ciphertext[pointer + 32..pointer + 64]));
      }
      pointer := pointer + 64;
      i := i + 1;
    }
    r := None;
  }

  /** The 32 bytes at `at` decrypt to thirty-two characters '1'. */
  ghost predicate ShowsOnes(stream: Stream, userKey: Bytes, ciphertext: Bytes, at: nat)
    requires at + 32 <= |ciphertext|
  {
    AllAre(Ctr(stream, userKey, ciphertext[at..at + 32]), 0x31)
  }

  predicate AllAre(block: Key, x: byte) {
    forall b :: 0 <= b < 32 ==> block[b] == x
  }

  lemma MatchIff(stream: Stream, userKey: Bytes, ciphertext: Bytes, i: nat)
    requires 64 * i + 64 <= |ciphertext|
    ensures Match(stream, userKey, ciphertext, i) <==> ShowsOnes(stream, userKey, ciphertext, 64 * i)
  {
    var shown: Key := Ctr(stream, userKey, ciphertext[64 * i..64 * i + 32]);
    if ShowsOnes(stream, userKey, ciphertext, 64 * i) {
      assert forall b :: 0 <= b < 32 ==> shown[b] == PositiveHint()[b];
    }
  }

  /** By bytes: the first 64-byte record whose first half shows ones decides, and its second half is the key. */
  lemma FileKeyFirst(stream: Stream, userKey: Bytes, ciphertext: Bytes, i: nat)
    requires 64 * i + 64 <= |ciphertext| && ShowsOnes(stream, userKey, ciphertext, 64 * i)
    requires forall j :: 0 <= j < i ==> !ShowsOnes(stream, userKey, ciphertext, 64 * j)
    ensures FileKey(stream, userKey, ciphertext) ==
            Some(Ctr(stream, userKey, ciphertext[64 * i + 32..64 * i + 64]))
  {
    MatchIff(stream, userKey, ciphertext, i);
    FirstMatchIsFirst(stream, userKey, ciphertext, 0, i);
    var f := FirstMatch(stream, userKey, ciphertext, 0).value;
    MatchIff(stream, userKey, ciphertext, f);
  }

  /** If there is none, no key is found; a rest of fewer than 64 bytes is not looked at. */
  lemma FileKeyNone(stream: Stream, userKey: Bytes, ciphertext: Bytes)
    requires forall j :: 0 <= j && 64 * j + 64 <= |ciphertext| ==> !ShowsOnes(stream, userKey, ciphertext, 64 * j)
    ensures FileKey(stream, userKey, ciphertext) == None
  {
    var first := FirstMatch(stream, userKey, ciphertext, 0);
    if first.Some? { MatchIff(stream, userKey, ciphertext, first.value); }
  }
}
