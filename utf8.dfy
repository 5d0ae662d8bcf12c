/** Python's `str.encode()` with its default codec: UTF-8 (RFC 3629, section 3).
    A Dafny `char` is a Unicode scalar value, so encoding never fails here.
    The strict decoder is the partner of the encoder: it proves the encoding
    loses nothing, hence distinct strings give distinct byte sequences. */
module Utf8 {
  import opened Wrappers

  type Byte = b: int | 0 <= b < 256

  predicate IsContinuation(b: Byte) { 0x80 <= b < 0xC0 }

  /** Number of bytes of the sequence a lead byte opens, or 0 for a byte that cannot lead. */
  function SequenceLength(b: Byte): nat
  {
    if b < 0x80 then 1
    else if 0xC2 <= b < 0xE0 then 2
    else if 0xE0 <= b < 0xF0 then 3
    else if 0xF0 <= b < 0xF5 then 4
    else 0
  }

  /** The smallest code point that needs `n` bytes (anything smaller would be overlong). */
  function MinCodePoint(n: nat): int
  {
    if n <= 1 then 0 else if n == 2 then 0x80 else if n == 3 then 0x800 else 0x1_0000
  }

  predicate IsScalar(cp: int)
  {
    0 <= cp < 0xD800 || 0xE000 <= cp < 0x11_0000
  }

  /** The bytes of one character, most significant bits first. */
  function EncodeChar(c: char): (r: seq<Byte>)
    ensures 1 <= |r| <= 4
    ensures SequenceLength(r[0]) == |r|
    ensures forall i :: 1 <= i < |r| ==> IsContinuation(r[i])
    ensures |r| == 1 <==> (c as int) < 0x80
    ensures |r| == 1 ==> r[0] == c as int
  {
    var cp := c as int;
    if cp < 0x80 then [cp]
    else if cp < 0x800 then [0xC0 + cp / 0x40, 0x80 + cp % 0x40]
    else if cp < 0x1_0000 then [0xE0 + cp / 0x1000, 0x80 + cp / 0x40 % 0x40, 0x80 + cp % 0x40]
    else [0xF0 + cp / 0x4_0000, 0x80 + cp / 0x1000 % 0x40, 0x80 + cp / 0x40 % 0x40, 0x80 + cp % 0x40]
  }

  /** `s.encode()`: each character's bytes in turn; every character takes one
      to four bytes, so only the empty string encodes to no bytes. */
  function Encode(s: string): (r: seq<Byte>)
    ensures |s| <= |r| <= 4 * |s|
  {
    if s == [] then [] else EncodeChar(s[0]) + Encode(s[1..])
  }

  /** ASCII text encodes to its code points, one byte per character. */
  lemma {:induction false} EncodeAscii(s: string)
    requires forall i :: 0 <= i < |s| ==> (s[i] as int) < 0x80
    ensures Encode(s) == seq(|s|, i requires 0 <= i < |s| => s[i] as int)
  {
    if s != [] {
      EncodeAscii(s[1..]);
    }
  }

  /** The six bits a continuation byte carries. */
  function Payload(b: Byte): int { b as int - 0x80 }

  /** The code point carried by a lead byte and its continuation bytes. */
  function CodePoint(bs: seq<Byte>): int
    requires 1 <= |bs| <= 4
  {
    var n := |bs|;
    var b0 := bs[0] as int;
    var lead := if n == 1 then b0 else if n == 2 then b0 - 0xC0 else if n == 3 then b0 - 0xE0 else b0 - 0xF0;
    if n == 1 then lead
    else if n == 2 then lead * 0x40 + Payload(bs[1])
    else if n == 3 then lead * 0x1000 + Payload(bs[1]) * 0x40 + Payload(bs[2])
    else lead * 0x4_0000 + Payload(bs[1]) * 0x1000 + Payload(bs[2]) * 0x40 + Payload(bs[3])
  }

  /** Decodes the first character of `bs`, with the number of bytes it took;
      None on a bad lead byte, a truncated or broken sequence, an overlong form,
      a surrogate or a code point beyond U+10FFFF. */
  function DecodeChar(bs: seq<Byte>): (r: Option<(char, nat)>)
    ensures r.Some? ==> 1 <= r.value.1 <= |bs|
  {
    if bs == [] then None
    else
      var n := SequenceLength(bs[0]);
      if n == 0 || |bs| < n then None
      else if exists i :: 1 <= i < n && !IsContinuation(bs[i]) then None
      else
        var cp := CodePoint(bs[..n]);
        if cp < MinCodePoint(n) || !IsScalar(cp) then None
        else Some((cp as char, n))
  }

  function Decode(bs: seq<Byte>): (r: Option<string>)
    decreases |bs|
  {
    if bs == [] then Some([])
    else match DecodeChar(bs)
      case None => None
      case Some((c, n)) =>
        match Decode(bs[n..])
        case None => None
        case Some(rest) => Some([c] + rest)
  }

  /** Encoding distributes over concatenation: feeding `a` then `b` to a hash
      object feeds the same bytes as feeding `a + b`. */
  lemma {:induction false} EncodeAppend(a: string, b: string)
    ensures Encode(a + b) == Encode(a) + Encode(b)
  {
    if a == [] {
      assert a + b == b;
    } else {
      assert (a + b)[0] == a[0];
      assert (a + b)[1..] == a[1..] + b;
      EncodeAppend(a[1..], b);
    }
  }

  lemma CodePointOfEncodeChar(c: char)
    ensures CodePoint(EncodeChar(c)) == c as int
  {
    var cp := c as int;
    var e := EncodeChar(c);
    if 0x1_0000 <= cp {
      SplitFour(cp);
      assert CodePoint(e) == (cp / 0x4_0000) * 0x4_0000 + (cp / 0x1000 % 0x40) * 0x1000
                             + (cp / 0x40 % 0x40) * 0x40 + cp % 0x40;
    } else if 0x800 <= cp {
      SplitThree(cp);
      assert CodePoint(e) == (cp / 0x1000) * 0x1000 + (cp / 0x40 % 0x40) * 0x40 + cp % 0x40;
    }
  }

  lemma SplitThree(cp: nat)
    ensures (cp / 0x1000) * 0x1000 + (cp / 0x40 % 0x40) * 0x40 + cp % 0x40 == cp
  {
    assert cp / 0x40 == (cp / 0x1000) * 0x40 + cp / 0x40 % 0x40;
  }

  lemma SplitFour(cp: nat)
    ensures (cp / 0x4_0000) * 0x4_0000 + (cp / 0x1000 % 0x40) * 0x1000 + (cp / 0x40 % 0x40) * 0x40 + cp % 0x40 == cp
  {
    assert cp / 0x1000 == (cp / 0x4_0000) * 0x40 + cp / 0x1000 % 0x40;
    SplitThree(cp);
  }

  lemma DecodeCharOfEncodeChar(c: char, rest: seq<Byte>)
    ensures DecodeChar(EncodeChar(c) + rest) == Some((c, |EncodeChar(c)|))
  {
    var e := EncodeChar(c);
    var bs := e + rest;
    var n := |e|;
    assert bs[0] == e[0];
    assert bs[..n] == e;
    CodePointOfEncodeChar(c);
    assert forall i :: 1 <= i < n ==> bs[i] == e[i];
  }

  /** Round trip: the strict decoder recovers every encoded string. */
  lemma {:induction false} DecodeEncode(s: string)
    ensures Decode(Encode(s)) == Some(s)
  {
    if s != [] {
      var e := EncodeChar(s[0]);
      DecodeCharOfEncodeChar(s[0], Encode(s[1..]));
      assert (e + Encode(s[1..]))[|e|..] == Encode(s[1..]);
      DecodeEncode(s[1..]);
      assert [s[0]] + s[1..] == s;
    }
  }

  /** Distinct strings have distinct encodings. */
  lemma EncodeInjective(a: string, b: string)
    requires Encode(a) == Encode(b)
    ensures a == b
  {
    DecodeEncode(a);
    DecodeEncode(b);
  }
}
