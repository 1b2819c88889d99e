/** The stored file (Client.kt): a 4-byte big-endian length, the envelope, then the data encrypted with
    the envelope as associated data. */
module FileFormat {
  import opened Bytes
  import opened Options
  import opened Crypto
  import opened Envelope

  // ---------- 32-bit integers as bytes ----------

  /** The bit pattern of an Int, as a number. */
  function Unsigned(v: int32): (u: nat)
    ensures u < 0x1_0000_0000 && (u < INT_LIMIT <==> v >= 0)
    ensures u == v as int || u == v as int + 0x1_0000_0000
  {
    if v < 0 then v as int + 0x1_0000_0000 else v as int
  }

  /** `v >>> 8 * n`. */
  function Shifted(v: int32, n: nat): nat {
    if n == 0 then Unsigned(v) else Shifted(v, n - 1) / 0x100
  }

  lemma ShiftedOut(v: int32)
    ensures Shifted(v, 1) == Unsigned(v) / 0x100 && Shifted(v, 2) == Shifted(v, 1) / 0x100
    ensures Shifted(v, 3) == Shifted(v, 2) / 0x100 && Shifted(v, 3) < 0x100
  {
  }

  /** The most significant byte comes first. */
  function BigEndian(v: int32): (b: Bytes)
    ensures |b| == 4
    ensures Unsigned(v) == b[0] as int * 0x100_0000 + b[1] as int * 0x1_0000 + b[2] as int * 0x100 + b[3] as int
  {
    ShiftedOut(v);
    [(Shifted(v, 3) % 0x100) as byte, (Shifted(v, 2) % 0x100) as byte,
     (Shifted(v, 1) % 0x100) as byte, (Shifted(v, 0) % 0x100) as byte]
  }

  function FromBigEndian(b: Bytes): (v: int32)
    requires |b| == 4
    ensures Unsigned(v) == b[0] as int * 0x100_0000 + b[1] as int * 0x1_0000 + b[2] as int * 0x100 + b[3] as int
  {
    var u := ((b[0] as int * 0x100 + b[1] as int) * 0x100 + b[2] as int) * 0x100 + b[3] as int;
    (if u >= INT_LIMIT then u - 0x1_0000_0000 else u) as int32
  }

  lemma FromBigEndianOfBigEndian(v: int32)
    ensures FromBigEndian(BigEndian(v)) == v
  {
    ShiftedOut(v);
    var b := BigEndian(v);
    assert b[0] as int == Shifted(v, 3);
    assert Shifted(v, 2) == b[0] as int * 0x100 + b[1] as int;
    assert Shifted(v, 1) == Shifted(v, 2) * 0x100 + b[2] as int;
    assert Unsigned(v) == Shifted(v, 1) * 0x100 + b[3] as int;
  }

  lemma BigEndianOfFromBigEndian(b: Bytes)
    requires |b| == 4
    ensures BigEndian(FromBigEndian(b)) == b
  {
    var v := FromBigEndian(b);
    ShiftedOut(v);
    var hi := (b[0] as int * 0x100 + b[1] as int) * 0x100 + b[2] as int;
    assert Unsigned(v) == hi * 0x100 + b[3] as int;
    assert Shifted(v, 1) == hi;
    assert Shifted(v, 2) == b[0] as int * 0x100 + b[1] as int;
  }

  // ---------- Framing ----------

  function Frame(envelope: Bytes, data: Bytes): Bytes
    requires |envelope| < INT_LIMIT
  {
    BigEndian(|envelope| as int32) + envelope + data
  }

  datatype Unframed = Unframed(envelope: Bytes, data: Bytes) | Unreadable(failure: Failure)

  /** `readNBytes` returns fewer bytes at the end of the stream, without an exception. */
  function Unframe(file: Bytes): Unframed {
    if |file| < 4 then Unreadable(EndOfFile)
    else
      var n := FromBigEndian(file[..4]) as int;
      if n < 0 then Unreadable(NegativeLength)
      else
        var m := if n <= |file| - 4 then n else |file| - 4;
        Unframed(file[4..4 + m], file[4 + m..])
  }

  /** Parsing undoes framing for every envelope that a Java array can hold. */
  lemma UnframeOfFrame(envelope: Bytes, data: Bytes)
    requires |envelope| < INT_LIMIT
    ensures Unframe(Frame(envelope, data)) == Unframed(envelope, data)
  {
    var file := Frame(envelope, data);
    FromBigEndianOfBigEndian(|envelope| as int32);
    assert file[..4] == BigEndian(|envelope| as int32);
    assert file[4..4 + |envelope|] == envelope && file[4 + |envelope|..] == data;
  }

  /** The bytes of a frame: the size of the envelope in four bytes, most significant first, the envelope, the
      data. */
  lemma FrameBytes(envelope: Bytes, data: Bytes)
    requires |envelope| < INT_LIMIT
    ensures var file := Frame(envelope, data);
            && |file| == 4 + |envelope| + |data|
            && file[0] as int * 0x100_0000 + file[1] as int * 0x1_0000 + file[2] as int * 0x100 + file[3] as int
               == |envelope|
            && file[4..4 + |envelope|] == envelope && file[4 + |envelope|..] == data
  {
    var head := BigEndian(|envelope| as int32);
    var file := Frame(envelope, data);
    assert file[0] == head[0] && file[1] == head[1] && file[2] == head[2] && file[3] == head[3];
  }

  /** Parsing any file: it ends too early, its length is negative, or the envelope is as long as the first four
      bytes say, and shorter only where the file ends. */
  lemma UnframeMeaning(file: Bytes)
    ensures Unframe(file) == Unreadable(EndOfFile) <==> |file| < 4
    ensures |file| >= 4 ==>
              var n := file[0] as int * 0x100_0000 + file[1] as int * 0x1_0000 + file[2] as int * 0x100
                       + file[3] as int;
              && (Unframe(file) == Unreadable(NegativeLength) <==> n >= 0x8000_0000)
              && (4 + n <= |file| && n < 0x8000_0000 ==> Unframe(file) == Unframed(file[4..4 + n], file[4 + n..]))
              && (4 + n > |file| && n < 0x8000_0000 ==> Unframe(file) == Unframed(file[4..], []))
  {
    if |file| >= 4 {
      var head := file[..4];
      assert head[0] == file[0] && head[1] == file[1] && head[2] == file[2] && head[3] == file[3];
      assert FromBigEndian(head) >= 0 ==> FromBigEndian(head) as int == Unsigned(FromBigEndian(head));
      assert file[4..][..|file| - 4] == file[4..];
    }
  }

  /** Framing undoes parsing exactly for the files that are not cut off within the envelope. */
  lemma FrameOfUnframeIff(file: Bytes)
    requires Unframe(file).Unframed?
    ensures var u := Unframe(file);
            Frame(u.envelope, u.data) == file <==> FromBigEndian(file[..4]) as int <= |file| - 4
  {
    var u := Unframe(file);
    BigEndianOfFromBigEndian(file[..4]);
    assert file == file[..4] + u.envelope + u.data;
  }

  /** `DataOutputStream` over a growing byte array. */
  class OutputStream {
    var buffer: Bytes

    constructor ()
      ensures buffer == []
    {
      buffer := [];
    }

    method WriteInt(v: int32)
      modifies this
      ensures buffer == old(buffer) + BigEndian(v)
    {
      for n := 0 to 4
        invariant buffer == old(buffer) + BigEndian(v)[..n]
      {
        buffer := buffer + [(Shifted(v, 3 - n) % 0x100) as byte];
      }
    }

    method Write(b: Bytes)
      modifies this
      ensures buffer == old(buffer) + b
    {
      buffer := buffer + b;
    }
  }

  /** `DataInputStream` over the stored object. */
  class InputStream {
    const data: Bytes
    var position: nat

    ghost predicate Valid()
      reads this
    {
      position <= |data|
    }

    ghost function Remaining(): Bytes
      requires Valid()
      reads this
    {
      data[position..]
    }

    constructor (data: Bytes)
      ensures this.data == data && Valid() && Remaining() == data
    {
      this.data, position := data, 0;
    }

    method ReadInt() returns (r: Option<int32>)
      requires Valid()
      modifies this
      ensures Valid()
      ensures |old(Remaining())| < 4 ==> r == None
      ensures |old(Remaining())| >= 4 ==>
                r == Some(FromBigEndian(old(Remaining())[..4])) && Remaining() == old(Remaining())[4..]
    {
      if |data| - position < 4 { position := |data|; return None; }
      var b := data[position..position + 4];
      assert b == Remaining()[..4];
      position := position + 4;
      r := Some(FromBigEndian(b));
    }

    method ReadNBytes(n: nat) returns (b: Bytes)
      requires Valid()
      modifies this
      ensures Valid() && b + Remaining() == old(Remaining())
      ensures |b| == if n <= |old(Remaining())| then n else |old(Remaining())|
    {
      var m := if n <= |data| - position then n else |data| - position;
      b := data[position..position + m];
      position := position + m;
    }
  }

  /** Reading an envelope of a given length, then all the rest. */
  method ReadParts(input: InputStream, n: nat) returns (envelope: Bytes, data: Bytes)
    requires input.Valid()
    modifies input
    ensures var all := old(input.Remaining());
            var m := if n <= |all| then n else |all|;
            envelope == all[..m] && data == all[m..]
  {
    ghost var all := input.Remaining();
    envelope := input.ReadNBytes(n);
    data := input.ReadNBytes(|input.data| - input.position);
    assert all[..|envelope|] == envelope && all[|envelope|..] == data;
  }

  lemma UnframeParts(file: Bytes, n: nat)
    requires |file| >= 4 && FromBigEndian(file[..4]) as int == n
    ensures var m := if n <= |file[4..]| then n else |file[4..]|;
            Unframe(file) == Unframed(file[4..][..m], file[4..][m..])
  {
  }

  /** encodeEnvelopeAndData: length, envelope, data. The declared buffer size overflows an Int, or no
      array can hold the result, when the file would reach 2^31 bytes. */
  method EncodeEnvelopeAndData(envelope: Bytes, data: Bytes) returns (r: Result)
    requires |envelope| < INT_LIMIT
    ensures r == if 4 + |envelope| + |data| < INT_LIMIT then Ok(Frame(envelope, data)) else Err(TooLarge)
    ensures r.Ok? ==>
              && |r.value| == 4 + |envelope| + |data|
              && r.value[0] as int * 0x100_0000 + r.value[1] as int * 0x1_0000 + r.value[2] as int * 0x100
                 + r.value[3] as int == |envelope|
              && r.value[4..4 + |envelope|] == envelope && r.value[4 + |envelope|..] == data
  {
    if 4 + |envelope| + |data| >= INT_LIMIT { return Err(TooLarge); }
    var out := new OutputStream();
    out.WriteInt(|envelope| as int32);
    out.Write(envelope);
    out.Write(data);
    assert [] + BigEndian(|envelope| as int32) == BigEndian(|envelope| as int32);
    FrameBytes(envelope, data);
    r := Ok(out.buffer);
  }

  /** The reading half of retrieveFromCloud. */
  method ReadFile(file: Bytes) returns (r: Unframed)
    ensures r == Unframe(file)
  {
    var input := new InputStream(file);
    var length := input.ReadInt();
    if length == None { return Unreadable(EndOfFile); }
    if length.value < 0 { return Unreadable(NegativeLength); }
    UnframeParts(file, length.value as nat);
    var envelope, data := ReadParts(input, length.value as nat);
    r := Unframed(envelope, data);
  }

  // ---------- Encrypting and decrypting the file ----------

  function Open(c: Suite, indexed: bool, envelope: Bytes, userKey: Bytes): Result {
    if indexed then IndexedOpen(c, envelope, userKey) else LinearOpen(c, envelope, userKey)
  }

  /** encryptAndEncodeFile. */
  function EncryptAndEncodeFile(c: Suite, data: Bytes, envelope: Bytes, key: Bytes, iv: Iv): Result
    requires |envelope| < INT_LIMIT
  {
    match CipherAes(c, data, key, envelope, Encrypt, iv)
    case Err(f) => Err(f)
    case Ok(sealed) =>
      if 4 + |envelope| + |sealed| < INT_LIMIT then Ok(Frame(envelope, sealed)) else Err(TooLarge)
  }

  /** retrieveFromCloud, with tryDecrypt. */
  function Retrieve(c: Suite, indexed: bool, file: Bytes, userKey: Bytes): Result {
    match Unframe(file)
    case Unreadable(f) => Err(f)
    case Unframed(envelope, sealed) =>
      match Open(c, indexed, envelope, userKey)
      case Err(f) => Err(f)
      case Ok(key) => DecryptAes(c, sealed, key, envelope)
  }

  /** Retrieving what was encoded gives back the data, for every envelope that the user can open; the
      encoding succeeds exactly when the file stays below 2^31 bytes. */
  lemma FileRoundTrip(c: Suite, indexed: bool, data: Bytes, envelope: Bytes, key: Bytes, iv: Iv, userKey: Bytes)
    requires Correct(c) && |envelope| < INT_LIMIT && KeySizeOk(key)
    requires Open(c, indexed, envelope, userKey) == Ok(key)
    ensures var f := EncryptAndEncodeFile(c, data, envelope, key, iv);
            && (f.Ok? <==> 4 + |envelope| + 12 + |data| + 16 < INT_LIMIT)
            && (f.Ok? ==> Retrieve(c, indexed, f.value, userKey) == Ok(data))
  {
    DecryptAfterEncrypt(c, data, key, envelope, iv, key, envelope);
    var sealed := CipherAes(c, data, key, envelope, Encrypt, iv).value;
    UnframeOfFrame(envelope, sealed);
  }

  /** The envelope is authenticated: put in front of the same data, any other envelope that opens to the
      same key makes retrieval fail. */
  lemma SwappedEnvelopeFails(c: Suite, indexed: bool, data: Bytes, envelope: Bytes, other: Bytes, key: Bytes, iv: Iv,
                             userKey: Bytes)
    requires Correct(c) && |other| < INT_LIMIT && KeySizeOk(key)
    requires other != envelope && Refuses(c, key, iv, envelope, data, key, other)
    requires Open(c, indexed, other, userKey) == Ok(key)
    ensures var sealed := CipherAes(c, data, key, envelope, Encrypt, iv);
            sealed.Ok? && Retrieve(c, indexed, Frame(other, sealed.value), userKey) == Err(BadTag)
  {
    DecryptAfterEncrypt(c, data, key, envelope, iv, key, other);
    UnframeOfFrame(other, CipherAes(c, data, key, envelope, Encrypt, iv).value);
  }

  /** The bytes of a stored file: length, envelope, IV, and the data sealed with the envelope as associated
      data. */
  lemma StoredFileBytes(c: Suite, data: Bytes, envelope: Bytes, key: Bytes, iv: Iv)
    requires |envelope| < INT_LIMIT
    requires EncryptAndEncodeFile(c, data, envelope, key, iv).Ok?
    ensures var file, n := EncryptAndEncodeFile(c, data, envelope, key, iv).value, |envelope|;
            && |file| >= 16 + n
            && file[0] as int * 0x100_0000 + file[1] as int * 0x1_0000 + file[2] as int * 0x100 + file[3] as int == n
            && file[4..4 + n] == envelope && file[4 + n..16 + n] == iv
            && file[16 + n..] == c.seal(key, iv, envelope, data)
  {
    EncryptionBytes(c, data, key, envelope, iv);
    var sealed := CipherAes(c, data, key, envelope, Encrypt, iv).value;
    FrameBytes(envelope, sealed);
    SealedPart(Frame(envelope, sealed), sealed, 4 + |envelope|);
  }

  lemma SealedPart(file: Bytes, sealed: Bytes, at: nat)
    requires at <= |file| && file[at..] == sealed && |sealed| >= 12
    ensures at + 12 <= |file| && file[at..at + 12] == sealed[..12] && file[at + 12..] == sealed[12..]
  {
    assert file[at..at + 12] == file[at..][..12] && file[at + 12..] == file[at..][12..];
  }

  /** What retrieval returns from any file that is not cut off within its envelope: p exactly if the envelope
      opens to some key, and the cipher yields p under that key for the IV behind the envelope and with the
      envelope as associated data. */
  lemma RetrieveIff(c: Suite, indexed: bool, file: Bytes, userKey: Bytes, envelope: Bytes, sealed: Bytes, p: Bytes)
    requires Unframe(file) == Unframed(envelope, sealed)
    ensures var k := Open(c, indexed, envelope, userKey);
            && (k.Err? ==> Retrieve(c, indexed, file, userKey) == k)
            && (k.Ok? ==>
                  (Retrieve(c, indexed, file, userKey) == Ok(p) <==>
                     && (|k.value| == 16 || |k.value| == 24 || |k.value| == 32) && |sealed| >= 12
                     && c.unseal(k.value, sealed[..12], envelope, sealed[12..]) == Some(p)))
  {
    var k := Open(c, indexed, envelope, userKey);
    if k.Ok? { DecryptionDecidedBy(c, sealed, k.value, envelope); }
  }
}
