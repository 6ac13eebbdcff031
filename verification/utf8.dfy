/**
 UTF-8, the byte encoding Rust's `String::as_bytes` exposes (section 3 of
 RFC 3629). A Dafny `char` is a Unicode scalar value, so every string has
 exactly one encoding; the strict decoder below is its inverse in both
 directions, which makes the encoding injective.
 */
module Utf8 {
  import opened Primitives

  /** The one-to-four bytes of one scalar value. */
  function EncodeChar(c: char): (bs: seq<byte>)
  {
    var cp := c as int;
    if cp < 0x80 then
      [cp]
    else if cp < 0x800 then
      [0xC0 + cp / 0x40, 0x80 + cp % 0x40]
    else if cp < 0x1_0000 then
      [0xE0 + cp / 0x1000, 0x80 + (cp / 0x40) % 0x40, 0x80 + cp % 0x40]
    else
      [0xF0 + cp / 0x4_0000, 0x80 + (cp / 0x1000) % 0x40, 0x80 + (cp / 0x40) % 0x40, 0x80 + cp % 0x40]
  }

  /** `s.as_bytes()`. */
  function Encode(s: string): (bs: seq<byte>)
    ensures |bs| >= |s|
    ensures |s| == 0 <==> |bs| == 0
  {
    if |s| == 0 then [] else EncodeChar(s[0]) + Encode(s[1..])
  }

  predicate IsContinuation(b: byte) {
    0x80 <= b < 0xC0
  }

  /** The length of the sequence the lead byte `b` opens, 0 if it opens none. */
  function SequenceLength(b: byte): (n: nat)
    ensures n <= 4
  {
    if b < 0x80 then 1
    else if 0xC0 <= b < 0xE0 then 2
    else if 0xE0 <= b < 0xF0 then 3
    else if 0xF0 <= b < 0xF8 then 4
    else 0
  }

  predicate IsScalarValue(cp: int) {
    (0 <= cp < 0xD800) || (0xE000 <= cp < 0x11_0000)
  }

  /** The smallest code point a sequence of length `n` may carry: a larger
      sequence for a smaller code point is an overlong form, which is invalid. */
  function MinCodePoint(n: nat): int {
    if n == 2 then 0x80 else if n == 3 then 0x800 else if n == 4 then 0x1_0000 else 0
  }

  /** The code point of the `n`-byte sequence at the front of `bs`, before any
      validity check. */
  function RawCodePoint(bs: seq<byte>, n: nat): int
    requires 1 <= n <= 4 && n <= |bs|
  {
    if n == 1 then bs[0] as int
    else if n == 2 then (bs[0] as int - 0xC0) * 0x40 + (bs[1] as int - 0x80)
    else if n == 3 then (bs[0] as int - 0xE0) * 0x1000 + (bs[1] as int - 0x80) * 0x40 + (bs[2] as int - 0x80)
    else (bs[0] as int - 0xF0) * 0x4_0000 + (bs[1] as int - 0x80) * 0x1000 + (bs[2] as int - 0x80) * 0x40 + (bs[3] as int - 0x80)
  }

  /** The scalar value at the front of `bs` and the number of bytes it takes,
      or None when the front is not a well-formed, shortest-form sequence. */
  function DecodeChar(bs: seq<byte>): (r: Option<(char, nat)>)
    ensures r.Some? ==> 1 <= r.value.1 <= |bs| && r.value.1 == SequenceLength(bs[0])
  {
    if |bs| == 0 then None
    else
      var n := SequenceLength(bs[0]);
      if n == 0 || |bs| < n then None
      else if exists i :: 1 <= i < n && !IsContinuation(bs[i]) then None
      else
        var cp := RawCodePoint(bs, n);
        if cp < MinCodePoint(n) || !IsScalarValue(cp) then None
        else Some((cp as char, n))
  }

  /** The string whose encoding is `bs`, or None when `bs` is not valid UTF-8. */
  function Decode(bs: seq<byte>): Option<string>
    decreases |bs|
  {
    if |bs| == 0 then Some([])
    else
      match DecodeChar(bs)
      case None => None
      case Some((c, n)) =>
        match Decode(bs[n..])
        case None => None
        case Some(rest) => Some([c] + rest)
  }

  /** Encoding distributes over concatenation, so `as_bytes` of a `format!`
      concatenation is the concatenation of the parts' bytes. */
  lemma {:induction false} EncodeAppend(a: string, b: string)
    ensures Encode(a + b) == Encode(a) + Encode(b)
    decreases |a|
  {
    if |a| > 0 {
      assert (a + b)[0] == a[0];
      assert (a + b)[1..] == a[1..] + b;
      EncodeAppend(a[1..], b);
      calc {
        Encode(a + b);
        EncodeChar(a[0]) + Encode(a[1..] + b);
        EncodeChar(a[0]) + (Encode(a[1..]) + Encode(b));
        Encode(a) + Encode(b);
      }
    } else {
      assert a + b == b;
    }
  }

  /** An ASCII string encodes to its code points, one byte per character. */
  lemma {:induction false} EncodeAscii(s: string)
    requires forall i :: 0 <= i < |s| ==> s[i] as int < 0x80
    ensures |Encode(s)| == |s|
    ensures forall i :: 0 <= i < |s| ==> Encode(s)[i] == s[i] as int
    decreases |s|
  {
    if |s| > 0 {
      EncodeAscii(s[1..]);
    }
  }

  /** Splitting off six bits twice is splitting off twelve, and so on. */
  lemma DivSixBits(x: int)
    requires x >= 0
    ensures (x / 0x40) / 0x40 == x / 0x1000
    ensures (x / 0x1000) / 0x40 == x / 0x4_0000
  {
  }

  /** The raw code point of a multi-byte encoding is the character's code point. */
  lemma RawCodePointOfEncoding(c: char, rest: seq<byte>)
    requires c as int >= 0x80
    ensures var bs := EncodeChar(c) + rest; RawCodePoint(bs, |EncodeChar(c)|) == c as int
  {
    var cp := c as int;
    var bs := EncodeChar(c) + rest;
    DivSixBits(cp);
    var q, q2 := cp / 0x40, cp / 0x1000;
    assert cp == q * 0x40 + cp % 0x40;
    assert q == q2 * 0x40 + q % 0x40;
    if cp < 0x800 {
      assert bs[0] as int - 0xC0 == q && bs[1] as int - 0x80 == cp % 0x40;
    } else if cp < 0x1_0000 {
      assert bs[0] as int - 0xE0 == q2 && bs[1] as int - 0x80 == q % 0x40 && bs[2] as int - 0x80 == cp % 0x40;
      assert RawCodePoint(bs, 3) == (q2 * 0x40 + q % 0x40) * 0x40 + cp % 0x40;
    } else {
      var q3 := cp / 0x4_0000;
      assert q2 == q3 * 0x40 + q2 % 0x40;
      assert bs[0] as int - 0xF0 == q3 && bs[1] as int - 0x80 == q2 % 0x40;
      assert bs[2] as int - 0x80 == q % 0x40 && bs[3] as int - 0x80 == cp % 0x40;
      assert RawCodePoint(bs, 4) == ((q3 * 0x40 + q2 % 0x40) * 0x40 + q % 0x40) * 0x40 + cp % 0x40;
    }
  }

  /** Decoding the front of one character's encoding followed by anything
      recovers that character and its length. */
  lemma DecodeEncodeChar(c: char, rest: seq<byte>)
    ensures DecodeChar(EncodeChar(c) + rest) == Some((c, |EncodeChar(c)|))
  {
    var cp := c as int;
    var bs := EncodeChar(c) + rest;
    var n := |EncodeChar(c)|;
    assert SequenceLength(bs[0]) == n;
    assert forall i :: 1 <= i < n ==> IsContinuation(bs[i]);
    if cp >= 0x80 {
      RawCodePointOfEncoding(c, rest);
    }
    assert RawCodePoint(bs, n) == cp;
  }

  /** Decoding inverts encoding. */
  lemma {:induction false} DecodeEncode(s: string)
    ensures Decode(Encode(s)) == Some(s)
    decreases |s|
  {
    if |s| > 0 {
      var e := EncodeChar(s[0]);
      var bs := Encode(s);
      DecodeEncodeChar(s[0], Encode(s[1..]));
      assert bs[|e|..] == Encode(s[1..]);
      DecodeEncode(s[1..]);
      assert s == [s[0]] + s[1..];
    }
  }

  /** Re-encoding a decoded character gives back exactly the bytes it was
      decoded from: the decoder accepts shortest forms only. */
  lemma EncodeDecodeChar(bs: seq<byte>)
    requires DecodeChar(bs).Some?
    ensures EncodeChar(DecodeChar(bs).value.0) == bs[..DecodeChar(bs).value.1]
  {
    var n := SequenceLength(bs[0]);
    var cp := RawCodePoint(bs, n);
    assert forall i :: 1 <= i < n ==> IsContinuation(bs[i]);
    var e := EncodeChar(cp as char);
    if n == 1 {
      assert e == bs[..1];
    } else if n == 2 {
      var b0, b1 := bs[0] as int - 0xC0, bs[1] as int - 0x80;
      assert cp == b0 * 0x40 + b1 && 0 <= b1 < 0x40;
      assert cp / 0x40 == b0 && cp % 0x40 == b1;
      assert e == bs[..2];
    } else if n == 3 {
      var b0, b1, b2 := bs[0] as int - 0xE0, bs[1] as int - 0x80, bs[2] as int - 0x80;
      var q := b0 * 0x40 + b1;
      assert cp == q * 0x40 + b2 && 0 <= b2 < 0x40;
      assert cp / 0x40 == q && cp % 0x40 == b2;
      assert q / 0x40 == b0 && q % 0x40 == b1;
      assert cp / 0x1000 == b0;
      assert e == bs[..3];
    } else {
      var b0, b1, b2, b3 := bs[0] as int - 0xF0, bs[1] as int - 0x80, bs[2] as int - 0x80, bs[3] as int - 0x80;
      var q2 := b0 * 0x40 + b1;
      var q := q2 * 0x40 + b2;
      assert cp == q * 0x40 + b3 && 0 <= b3 < 0x40;
      assert cp / 0x40 == q && cp % 0x40 == b3;
      assert q / 0x40 == q2 && q % 0x40 == b2;
      assert q2 / 0x40 == b0 && q2 % 0x40 == b1;
      assert cp / 0x1000 == q2;
      assert cp / 0x4_0000 == b0;
      assert e == bs[..4];
    }
  }

  /** Encoding inverts decoding: a byte string the decoder accepts is the
      encoding of the string it decodes to. */
  lemma {:induction false} EncodeDecode(bs: seq<byte>)
    requires Decode(bs).Some?
    ensures Encode(Decode(bs).value) == bs
    decreases |bs|
  {
    if |bs| > 0 {
      var c := DecodeChar(bs).value.0;
      var n := DecodeChar(bs).value.1;
      EncodeDecodeChar(bs);
      EncodeDecode(bs[n..]);
      var s := Decode(bs).value;
      assert s == [c] + Decode(bs[n..]).value;
      assert s[0] == c && s[1..] == Decode(bs[n..]).value;
      assert bs == bs[..n] + bs[n..];
    }
  }

  /** Distinct strings have distinct encodings. */
  lemma EncodeInjective(a: string, b: string)
    ensures Encode(a) == Encode(b) <==> a == b
  {
    DecodeEncode(a);
    DecodeEncode(b);
  }
}
