/**
 * UTF-8 as the Unicode Standard defines it (section 3.9, Table 3-7 "Well-Formed UTF-8
 * Byte Sequences"): the encoder Python's `str.encode('utf-8')` applies to a string of
 * scalar values, and the well-formedness test Rust's `String::from_utf8` applies to bytes.
 */
module Utf8 {
  import opened Bytes

  /** A Unicode scalar value: a code point that is not a surrogate. */
  type Scalar = c: nat | c < 0x11_0000 && !(0xD800 <= c <= 0xDFFF)

  /** The UTF-8 bytes of one scalar value. */
  function EncodeScalar(c: Scalar): (r: seq<Byte>)
    ensures 1 <= |r| <= 4
    ensures |r| == 1 <==> c < 0x80
  {
    if c < 0x80 then
      [c]
    else if c < 0x800 then
      [0xC0 + c / 0x40, 0x80 + c % 0x40]
    else if c < 0x1_0000 then
      [0xE0 + c / 0x1000, 0x80 + (c / 0x40) % 0x40, 0x80 + c % 0x40]
    else
      [0xF0 + c / 0x4_0000, 0x80 + (c / 0x1000) % 0x40, 0x80 + (c / 0x40) % 0x40, 0x80 + c % 0x40]
  }

  /** Each encoded scalar value is one well-formed sequence of Table 3-7. */
  lemma EncodeScalarWellFormed(c: Scalar)
    ensures WellFormedPrefix(EncodeScalar(c)) == |EncodeScalar(c)|
  {
    if c < 0x80 {
    } else if c < 0x800 {
      TwoByteWellFormed(c);
    } else if c < 0x1_0000 {
      ThreeByteWellFormed(c);
    } else {
      FourByteWellFormed(c);
    }
  }

  lemma TwoByteWellFormed(c: Scalar)
    requires 0x80 <= c < 0x800
    ensures WellFormedPrefix(EncodeScalar(c)) == 2
  {
    var r := EncodeScalar(c);
    assert 2 <= c / 0x40 < 0x20;
    assert 0xC2 <= r[0] <= 0xDF;
  }

  lemma ThreeByteWellFormed(c: Scalar)
    requires 0x800 <= c < 0x1_0000
    ensures WellFormedPrefix(EncodeScalar(c)) == 3
  {
    var r := EncodeScalar(c);
    var q, m := c / 0x1000, c / 0x40;
    assert q * 0x1000 <= c < q * 0x1000 + 0x1000;
    assert m * 0x40 <= c < m * 0x40 + 0x40;
    assert m % 0x40 == m - q * 0x40;
    assert r[1] == 0x80 + m - q * 0x40;
    if q == 0 {
      assert r[1] >= 0xA0;
    } else if q == 0xD {
      assert r[1] <= 0x9F;
    }
  }

  lemma FourByteWellFormed(c: Scalar)
    requires 0x1_0000 <= c
    ensures WellFormedPrefix(EncodeScalar(c)) == 4
  {
    var r := EncodeScalar(c);
    var q, m := c / 0x4_0000, c / 0x1000;
    assert q * 0x4_0000 <= c < q * 0x4_0000 + 0x4_0000;
    assert m * 0x1000 <= c < m * 0x1000 + 0x1000;
    assert m % 0x40 == m - q * 0x40;
    assert r[1] == 0x80 + m - q * 0x40;
    assert q <= 4;
    if q == 4 {
      assert r[1] <= 0x8F;
    } else if q == 0 {
      assert r[1] >= 0x90;
    }
  }

  /** The UTF-8 bytes of a string of scalar values, one after another. */
  function Encode(s: seq<Scalar>): seq<Byte> {
    if s == [] then [] else EncodeScalar(s[0]) + Encode(s[1..])
  }

  predicate Continuation(b: Byte) {
    0x80 <= b <= 0xBF
  }

  /**
   * The length of the well-formed sequence that starts `b`, following each row of
   * Table 3-7, or 0 when `b` does not start with one.
   */
  function WellFormedPrefix(b: seq<Byte>): (r: nat)
    ensures r <= 4 && r <= |b|
  {
    if |b| == 0 then 0
    else
      var b0 := b[0];
      if b0 <= 0x7F then 1
      else if 0xC2 <= b0 <= 0xDF then
        if |b| >= 2 && Continuation(b[1]) then 2 else 0
      else if 0xE0 <= b0 <= 0xEF then
        var lo := if b0 == 0xE0 then 0xA0 else 0x80;
        var hi := if b0 == 0xED then 0x9F else 0xBF;
        if |b| >= 3 && lo <= b[1] <= hi && Continuation(b[2]) then 3 else 0
      else if 0xF0 <= b0 <= 0xF4 then
        var lo := if b0 == 0xF0 then 0x90 else 0x80;
        var hi := if b0 == 0xF4 then 0x8F else 0xBF;
        if |b| >= 4 && lo <= b[1] <= hi && Continuation(b[2]) && Continuation(b[3]) then 4 else 0
      else 0
  }

  /** Well-formed UTF-8: the bytes split into well-formed sequences with nothing left over. */
  predicate ValidUtf8(b: seq<Byte>)
    decreases |b|
  {
    b == [] || (WellFormedPrefix(b) > 0 && ValidUtf8(b[WellFormedPrefix(b)..]))
  }

  /** The sequence that starts a buffer is recognised whatever follows it. */
  lemma PrefixUnaffectedBySuffix(a: seq<Byte>, b: seq<Byte>)
    requires WellFormedPrefix(a) == |a| > 0
    ensures WellFormedPrefix(a + b) == |a|
  {
    var c := a + b;
    assert c[0] == a[0];
    if |a| >= 2 { assert c[1] == a[1]; }
    if |a| >= 3 { assert c[2] == a[2]; }
    if |a| >= 4 { assert c[3] == a[3]; }
  }

  /** Every encoded string is well-formed UTF-8. */
  lemma {:induction false} EncodeIsValid(s: seq<Scalar>)
    ensures ValidUtf8(Encode(s))
  {
    if s != [] {
      var e := EncodeScalar(s[0]);
      EncodeIsValid(s[1..]);
      EncodeScalarWellFormed(s[0]);
      PrefixUnaffectedBySuffix(e, Encode(s[1..]));
      assert (e + Encode(s[1..]))[|e|..] == Encode(s[1..]);
    }
  }

  /** Encoding never shortens a string, and keeps its length exactly when every character is ASCII. */
  lemma {:induction false} EncodeLength(s: seq<Scalar>)
    ensures |Encode(s)| >= |s|
    ensures |Encode(s)| == |s| <==> forall i :: 0 <= i < |s| ==> s[i] < 0x80
  {
    if s != [] {
      EncodeLength(s[1..]);
      assert forall i :: 1 <= i < |s| ==> s[i] == s[1..][i - 1];
    }
  }

  /** Encoding distributes over concatenation. */
  lemma {:induction false} EncodeAppend(s: seq<Scalar>, t: seq<Scalar>)
    ensures Encode(s + t) == Encode(s) + Encode(t)
  {
    if s == [] {
      assert s + t == t;
    } else {
      assert (s + t)[1..] == s[1..] + t;
      EncodeAppend(s[1..], t);
    }
  }
}
