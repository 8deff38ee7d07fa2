/** UUIDv7 by byte assembly: layout, recovered timestamp, and order. */
module Uuid7 {
  import opened Wrappers

  type Byte = b: int | 0 <= b < 256

  datatype Error = OverflowError

  // ----- Big-endian bytes -----

  /** int.to_bytes(n, "big") */
  function ToBytes(v: nat, n: nat): (r: seq<Byte>)
    ensures |r| == n
  {
    if n == 0 then [] else ToBytes(v / 256, n - 1) + [v % 256]
  }

  function FromBytes(s: seq<Byte>): nat {
    if s == [] then 0 else FromBytes(s[..|s| - 1]) * 256 + s[|s| - 1]
  }

  function Power256(n: nat): nat {
    if n == 0 then 1 else 256 * Power256(n - 1)
  }

  lemma SixBytes()
    ensures Power256(6) == 0x1_0000_0000_0000
  {
    assert Power256(3) == 0x100_0000;
  }

  lemma Quotient(v: nat, p: nat)
    requires v < 256 * p
    ensures v / 256 < p && v / 256 * 256 + v % 256 == v
  {}

  lemma {:induction false} BytesRoundTrip(v: nat, n: nat)
    requires v < Power256(n)
    ensures FromBytes(ToBytes(v, n)) == v
  {
    if n > 0 {
      Quotient(v, Power256(n - 1));
      BytesRoundTrip(v / 256, n - 1);
      var s := ToBytes(v, n);
      assert s[..n - 1] == ToBytes(v / 256, n - 1) && s[n - 1] == v % 256;
    }
  }

  // ----- Lexicographic order -----

  predicate BytesLess(a: seq<Byte>, b: seq<Byte>) {
    b != [] && (a == [] || a[0] < b[0] || (a[0] == b[0] && BytesLess(a[1..], b[1..])))
  }

  ghost predicate DifferAt(a: seq<Byte>, b: seq<Byte>, k: nat) {
    k < |a| && k < |b| && a[..k] == b[..k] && a[k] < b[k]
  }

  lemma {:induction false} FirstDifference(a: seq<Byte>, b: seq<Byte>, k: nat)
    requires DifferAt(a, b, k)
    ensures BytesLess(a, b)
  {
    if k > 0 {
      assert a[..k][0] == b[..k][0];
      assert a[1..][..k - 1] == a[..k][1..] && b[1..][..k - 1] == b[..k][1..];
      FirstDifference(a[1..], b[1..], k - 1);
    }
  }

  lemma {:induction false} NumberOrder(a: seq<Byte>, b: seq<Byte>) returns (k: nat)
    requires |a| == |b| && FromBytes(a) < FromBytes(b)
    ensures DifferAt(a, b, k)
  {
    var n := |a| - 1;
    if FromBytes(a[..n]) < FromBytes(b[..n]) {
      k := NumberOrder(a[..n], b[..n]);
      assert a[..n][..k] == a[..k] && b[..n][..k] == b[..k];
    } else {
      k := n;
      LastByte(a, b);
    }
  }

  lemma {:induction false} LastByte(a: seq<Byte>, b: seq<Byte>)
    requires |a| == |b| > 0 && FromBytes(a) < FromBytes(b)
    requires FromBytes(a[..|a| - 1]) >= FromBytes(b[..|b| - 1])
    ensures a[..|a| - 1] == b[..|b| - 1] && a[|a| - 1] < b[|b| - 1]
  {
    var n := |a| - 1;
    assert FromBytes(a[..n]) == FromBytes(b[..n]);
    SameNumber(a[..n], b[..n]);
  }

  lemma Digits(x: nat, y: nat, c: int, d: int)
    requires 0 <= c < 256 && 0 <= d < 256 && x * 256 + c == y * 256 + d
    ensures x == y && c == d
  {}

  lemma {:induction false} SameNumber(a: seq<Byte>, b: seq<Byte>)
    requires |a| == |b| && FromBytes(a) == FromBytes(b)
    ensures a == b
  {
    if a != [] {
      var n := |a| - 1;
      Digits(FromBytes(a[..n]), FromBytes(b[..n]), a[n], b[n]);
      SameNumber(a[..n], b[..n]);
      assert a == a[..n] + [a[n]] && b == b[..n] + [b[n]];
    }
  }

  // ----- The identifier -----

  /** (b & 0x0F) | 0x70 */
  function Versioned(b: Byte): Byte { b % 16 + 0x70 }

  /** (b & 0x3F) | 0x80 */
  function Variant(b: Byte): Byte { b % 64 + 0x80 }

  /** Masking off the high bits and setting others is a remainder and a sum. */
  lemma MasksAsArithmetic(b: bv8)
    ensures (b & 0x0F) | 0x70 == b % 16 + 0x70
    ensures (b & 0x3F) | 0x80 == b % 64 + 0x80
  {}

  /** The sixteen bytes for a timestamp and ten random bytes. */
  function Assembled(unixMs: nat, random: seq<Byte>): seq<Byte>
    requires |random| == 10
  {
    ToBytes(unixMs, 6) + [Versioned(random[0]), random[1], Variant(random[2])] + random[3..]
  }

  /** uuid7 where the interpreter has none of its own; a timestamp that does not fit six bytes is an error. */
  method Uuid7(unixMs: int, random: seq<Byte>) returns (r: Result<seq<Byte>, Error>)
    requires |random| == 10
    ensures if 0 <= unixMs < 0x1_0000_0000_0000 then r == Ok(Assembled(unixMs, random)) else r == Err(OverflowError)
  {
    var limit := Power256(6);
    SixBytes();
    if unixMs < 0 || unixMs >= limit {
      return Err(OverflowError);
    }
    var value := new Byte[16](_ => 0);
    var stamp := ToBytes(unixMs, 6);
    for i := 0 to 6
      invariant forall j :: 0 <= j < i ==> value[j] == stamp[j]
    {
      value[i] := stamp[i];
    }
    for i := 6 to 16
      invariant forall j :: 0 <= j < 6 ==> value[j] == stamp[j]
      invariant forall j :: 6 <= j < i ==> value[j] == random[j - 6]
    {
      value[i] := random[i - 6];
    }
    value[6] := Versioned(value[6]);
    value[8] := Variant(value[8]);
    assert value[..] == Assembled(unixMs, random);
    return Ok(value[..]);
  }

  /**
    Whatever the random bytes: the version in the high four bits of byte 6 and the variant in
    the high two bits of byte 8 (section 5.7 of RFC 9562), the timestamp back from the first six
    bytes, and every other random bit as it was drawn.
  */
  lemma Layout(unixMs: nat, random: seq<Byte>)
    requires |random| == 10 && unixMs < 0x1_0000_0000_0000
    ensures var u := Assembled(unixMs, random);
            && |u| == 16
            && FromBytes(u[..6]) == unixMs
            && u[6] / 16 == 7 && u[8] / 64 == 2
            && u[6] % 16 == random[0] % 16 && u[7] == random[1] && u[8] % 64 == random[2] % 64
            && u[9..] == random[3..]
  {
    SixBytes();
    BytesRoundTrip(unixMs, 6);
    assert Assembled(unixMs, random)[..6] == ToBytes(unixMs, 6);
  }

  /** A smaller timestamp gives a lexicographically smaller identifier, whatever the random bytes. */
  lemma TimeOrdered(early: nat, late: nat, random: seq<Byte>, random': seq<Byte>)
    requires early < late < 0x1_0000_0000_0000 && |random| == 10 && |random'| == 10
    ensures BytesLess(Assembled(early, random), Assembled(late, random'))
    ensures var a, b := Assembled(early, random), Assembled(late, random');
            exists k :: 0 <= k < 6 && a[..k] == b[..k] && a[k] < b[k]
  {
    var a, b := Assembled(early, random), Assembled(late, random');
    SixBytes();
    BytesRoundTrip(early, 6);
    BytesRoundTrip(late, 6);
    var k := NumberOrder(ToBytes(early, 6), ToBytes(late, 6));
    assert a[..6] == ToBytes(early, 6) && b[..6] == ToBytes(late, 6);
    assert a[..k] == a[..6][..k] && b[..k] == b[..6][..k];
    FirstDifference(a, b, k);
  }
}
