/** Rendering of a message digest as lowercase hexadecimal text, as the
    program's `sha1` helper does with `String.format("%02x", b)` for every
    byte of the digest, and a decoder that inverts it. */
module Hex {
  import opened Wrappers

  /** A Java `byte`: a signed 8-bit value. */
  type int8 = b: int | -128 <= b < 128

  /** The bytes a digest function returns, in order. */
  type Digest = seq<int8>

  /** `%02x` formats a negative `Byte` through its unsigned reading
      (the value plus 256), so every byte is a number in [0, 256). */
  function Unsigned(b: int8): (u: nat)
    ensures u < 256
    ensures u % 256 == b % 256
  {
    if b < 0 then b + 256 else b
  }

  /** The two's-complement reading of an unsigned byte value. */
  function Signed(u: nat): (b: int8)
    requires u < 256
    ensures Unsigned(b) == u
  {
    if u < 128 then u else u - 256
  }

  predicate IsLowerHexDigit(c: char) {
    '0' <= c <= '9' || 'a' <= c <= 'f'
  }

  /** The value of one lowercase hexadecimal digit. */
  function DigitValue(c: char): (n: nat)
    requires IsLowerHexDigit(c)
    ensures n < 16
  {
    if c <= '9' then c as int - '0' as int else c as int - 'a' as int + 10
  }

  /** The lowercase digit for a value below sixteen. */
  function HexDigit(n: nat): (c: char)
    requires n < 16
    ensures IsLowerHexDigit(c)
    ensures DigitValue(c) == n
  {
    if n < 10 then ('0' as int + n) as char else ('a' as int + n - 10) as char
  }

  /** One byte as exactly two digits, high nibble first. */
  function ByteHex(b: int8): (s: string)
    ensures |s| == 2
    ensures IsLowerHexDigit(s[0]) && IsLowerHexDigit(s[1])
    ensures DigitValue(s[0]) * 16 + DigitValue(s[1]) == Unsigned(b)
  {
    [HexDigit(Unsigned(b) / 16), HexDigit(Unsigned(b) % 16)]
  }

  /** The digest rendered byte after byte. */
  function HexOf(d: Digest): (s: string)
    ensures |s| == 2 * |d|
    ensures forall k :: 0 <= k < |s| ==> IsLowerHexDigit(s[k])
    ensures forall i :: 0 <= i < |d| ==> s[2 * i .. 2 * i + 2] == ByteHex(d[i])
  {
    if |d| == 0 then ""
    else
      var rest := HexOf(d[1..]);
      var s := ByteHex(d[0]) + rest;
      assert forall i :: 1 <= i < |d| ==> s[2 * i .. 2 * i + 2] == rest[2 * (i - 1) .. 2 * (i - 1) + 2];
      s
  }

  /** Reads lowercase hexadecimal text back into bytes; odd length or any
      other character is rejected. */
  function Unhex(s: string): (r: Option<Digest>)
    ensures r.Some? ==> 2 * |r.value| == |s|
  {
    if |s| == 0 then Some([])
    else if |s| == 1 || !IsLowerHexDigit(s[0]) || !IsLowerHexDigit(s[1]) then None
    else
      match Unhex(s[2..])
      case None => None
      case Some(rest) => Some([Signed(DigitValue(s[0]) * 16 + DigitValue(s[1]))] + rest)
  }

  lemma DigitRoundTrip(c: char)
    requires IsLowerHexDigit(c)
    ensures HexDigit(DigitValue(c)) == c
  {
  }

  /** Decoding the rendering gives back the digest. */
  lemma {:induction false} UnhexHexOf(d: Digest)
    ensures Unhex(HexOf(d)) == Some(d)
  {
    if |d| > 0 {
      var s := HexOf(d);
      var rest := HexOf(d[1..]);
      assert s == ByteHex(d[0]) + rest;
      assert s[2..] == rest;
      UnhexHexOf(d[1..]);
      var v := DigitValue(s[0]) * 16 + DigitValue(s[1]);
      assert v == Unsigned(d[0]);
      assert Unhex(s) == Some([Signed(v)] + d[1..]);
      assert [d[0]] + d[1..] == d;
    }
  }

  /** Two digits read as a byte render back to themselves. */
  lemma ByteHexOfDigits(hi: char, lo: char)
    requires IsLowerHexDigit(hi) && IsLowerHexDigit(lo)
    ensures ByteHex(Signed(DigitValue(hi) * 16 + DigitValue(lo))) == [hi, lo]
  {
    var v := DigitValue(hi) * 16 + DigitValue(lo);
    assert Unsigned(Signed(v)) == v;
    assert v / 16 == DigitValue(hi) && v % 16 == DigitValue(lo);
    DigitRoundTrip(hi);
    DigitRoundTrip(lo);
  }

  /** Every text the decoder accepts is the rendering of what it decodes
      to: the rendering is the one canonical spelling. */
  lemma {:induction false} HexOfUnhex(s: string, d: Digest)
    requires Unhex(s) == Some(d)
    ensures HexOf(d) == s
  {
    if |s| > 0 {
      assert |s| >= 2 && IsLowerHexDigit(s[0]) && IsLowerHexDigit(s[1]);
      var r := Unhex(s[2..]);
      assert r.Some?;
      var rest := r.value;
      HexOfUnhex(s[2..], rest);
      var v := DigitValue(s[0]) * 16 + DigitValue(s[1]);
      assert d == [Signed(v)] + rest;
      assert d[0] == Signed(v) && d[1..] == rest;
      ByteHexOfDigits(s[0], s[1]);
      assert HexOf(d) == ByteHex(d[0]) + HexOf(d[1..]);
      assert s == [s[0], s[1]] + s[2..];
    }
  }

  /** Different digests never render to the same text. */
  lemma HexOfInjective(a: Digest, b: Digest)
    requires HexOf(a) == HexOf(b)
    ensures a == b
  {
    UnhexHexOf(a);
    UnhexHexOf(b);
  }

  /** Rendering distributes over appending one byte, the step the
      builder loop takes. */
  lemma {:induction false} HexOfSnoc(d: Digest, b: int8)
    ensures HexOf(d + [b]) == HexOf(d) + ByteHex(b)
  {
    if |d| > 0 {
      assert (d + [b])[1..] == d[1..] + [b];
      HexOfSnoc(d[1..], b);
    } else {
      assert d + [b] == [b];
    }
  }

  /** The builder loop of `sha1`: one two-digit chunk appended per byte. */
  method RenderDigest(d: Digest) returns (s: string)
    ensures s == HexOf(d)
    ensures |s| == 2 * |d|
  {
    s := "";
    var i := 0;
    while i < |d|
      invariant 0 <= i <= |d|
      invariant s == HexOf(d[..i])
    {
      HexOfSnoc(d[..i], d[i]);
      assert d[..i + 1] == d[..i] + [d[i]];
      s := s + ByteHex(d[i]);
      i := i + 1;
    }
    assert d[..i] == d;
  }
}
