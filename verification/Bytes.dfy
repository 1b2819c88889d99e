/** Byte strings and the one order that the server and the client must share:
    `std::map<std::string, ...>` compares strings as unsigned bytes, and so does the
    client's `ByteArray.compareTo`. */
module Bytes {

  newtype byte = x: int | 0 <= x < 256
  newtype int32 = x: int | -0x8000_0000 <= x < 0x8000_0000

  const INT_LIMIT := 0x8000_0000

  type Bytes = seq<byte>

  /** Unsigned lexicographic order; a proper prefix comes first. */
  predicate Less(a: Bytes, b: Bytes) {
    if b == [] then false
    else if a == [] then true
    else a[0] < b[0] || (a[0] == b[0] && Less(a[1..], b[1..]))
  }

  lemma {:induction false} LessIrreflexive(a: Bytes)
    ensures !Less(a, a)
  {
    if a != [] { LessIrreflexive(a[1..]); }
  }

  lemma {:induction false} LessTransitive(a: Bytes, b: Bytes, c: Bytes)
    requires Less(a, b) && Less(b, c)
    ensures Less(a, c)
  {
    if a != [] && a[0] == b[0] == c[0] { LessTransitive(a[1..], b[1..], c[1..]); }
  }

  lemma {:induction false} LessTotal(a: Bytes, b: Bytes)
    ensures Less(a, b) || a == b || Less(b, a)
  {
    if a != [] && b != [] && a[0] == b[0] {
      LessTotal(a[1..], b[1..]);
      assert a == [a[0]] + a[1..] && b == [b[0]] + b[1..];
    }
  }

  lemma LessAsymmetric(a: Bytes, b: Bytes)
    requires Less(a, b)
    ensures !Less(b, a) && a != b
  {
    LessIrreflexive(a);
    if Less(b, a) { LessTransitive(a, b, a); }
  }

  /** A common prefix does not affect the order. */
  lemma {:induction false} LessAfterPrefix(a: Bytes, b: Bytes, i: nat)
    requires i <= |a| && i <= |b| && a[..i] == b[..i]
    ensures Less(a, b) == Less(a[i..], b[i..])
  {
    if i == 0 {
      assert a[0..] == a && b[0..] == b;
    } else {
      assert a[0] == a[..i][0] && b[0] == b[..i][0];
      assert a[1..][..i - 1] == a[..i][1..] && b[1..][..i - 1] == b[..i][1..];
      LessAfterPrefix(a[1..], b[1..], i - 1);
      assert a[1..][i - 1..] == a[i..] && b[1..][i - 1..] == b[i..];
    }
  }

  /** The order by positions: at the first difference the smaller unsigned byte, or the end of the string,
      comes first. */
  lemma LessIff(a: Bytes, b: Bytes)
    ensures Less(a, b) <==>
              exists i: nat :: && i <= |a| && i <= |b| && a[..i] == b[..i]
                               && ((i == |a| && i < |b|) || (i < |a| && i < |b| && a[i] as int < b[i] as int))
  {
    if Less(a, b) {
      var i := FirstDifference(a, b);
      assert a[..i] == b[..i];
    }
    forall i: nat | && i <= |a| && i <= |b| && a[..i] == b[..i]
                    && ((i == |a| && i < |b|) || (i < |a| && i < |b| && a[i] as int < b[i] as int))
      ensures Less(a, b)
    {
      LessAfterPrefix(a, b, i);
    }
  }

  lemma {:induction false} FirstDifference(a: Bytes, b: Bytes) returns (i: nat)
    requires Less(a, b)
    ensures i <= |a| && i < |b| && a[..i] == b[..i] && (i < |a| ==> a[i] as int < b[i] as int)
  {
    if a == [] || a[0] != b[0] {
      i := 0;
    } else {
      i := FirstDifference(a[1..], b[1..]);
      i := i + 1;
      assert a[..i] == [a[0]] + a[1..][..i - 1] && b[..i] == [b[0]] + b[1..][..i - 1];
    }
  }

  ghost predicate StrictlySorted(s: seq<Bytes>) {
    forall i, j :: 0 <= i < j < |s| ==> Less(s[i], s[j])
  }

  /** The client's `ByteArray.compareTo`: an early-return loop over unsigned bytes. */
  method CompareTo(a: Bytes, b: Bytes) returns (comparison: int32)
    requires |a| == |b|
    ensures comparison == 0 <==> a == b
    ensures comparison != 0 ==>
              exists i :: 0 <= i < |a| && a[..i] == b[..i] && (if comparison < 0 then a[i] as int < b[i] as int
                                                                                  else a[i] as int > b[i] as int)
    ensures comparison < 0 <==> Less(a, b)
    ensures comparison > 0 <==> Less(b, a)
  {
    for i := 0 to |a|
      invariant a[..i] == b[..i]
    {
      LessAfterPrefix(a, b, i);
      LessAfterPrefix(b, a, i);
      assert a[i..][0] == a[i] && b[i..][0] == b[i];
      if a[i] != b[i] {
        LessTotal(a, b);
        if a[i] < b[i] {
          LessAsymmetric(a, b);
          return -1;
        } else {
          LessAsymmetric(b, a);
          return 1;
        }
      }
    }
    assert a == a[..|a|] && b == b[..|b|];
    LessIrreflexive(a);
    return 0;
  }

  /** `std::string::resize(n, 0)`, and the zero fill plus bounded copy of a stored key. */
  function Resize(b: Bytes, n: nat): (r: Bytes)
    ensures |r| == n
    ensures forall i :: 0 <= i < n ==> r[i] == if i < |b| then b[i] else 0
  {
    if n <= |b| then b[..n] else b + seq(n - |b|, _ => 0)
  }

  /** `std::string(s.c_str())`: what is left of a string that passes through a C string. */
  function CString(b: Bytes): (r: Bytes)
    ensures r <= b && 0 !in r
    ensures r == b <==> 0 !in b
    ensures |r| < |b| ==> b[|r|] == 0
  {
    if b == [] || b[0] == 0 then []
    else
      assert b == [b[0]] + b[1..];
      [b[0]] + CString(b[1..])
  }
}
