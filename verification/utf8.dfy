/**
  UTF-8 (RFC 3629), the encoding a Node.js `Buffer` built from a string
  uses. A Dafny `char` is a Unicode scalar value, so every string has an
  encoding; the decoder is strict and accepts exactly the shortest form of
  a scalar value.
 */
module Utf8 {
  import opened Optional
  import opened Arith

  type byte = x: int | 0 <= x < 256

  /** The code points a `char` can hold: every code point except the surrogates. */
  predicate IsScalar(n: int) {
    0 <= n < 0xD800 || 0xE000 <= n < 0x11_0000
  }

  predicate IsContinuation(b: byte) {
    0x80 <= b < 0xC0
  }

  /** The one to four bytes of a scalar value, as in section 3 of RFC 3629. */
  function EncodeChar(c: char): (b: seq<byte>)
    ensures 1 <= |b| <= 4
    ensures |b| == 1 <==> c as int < 0x80
    ensures forall i :: 1 <= i < |b| ==> IsContinuation(b[i])
  {
    var n := c as int;
    if n < 0x80 then [n]
    else if n < 0x800 then [0xC0 + n / 64, 0x80 + n % 64]
    else if n < 0x1_0000 then [0xE0 + n / 64 / 64, 0x80 + n / 64 % 64, 0x80 + n % 64]
    else [0xF0 + n / 64 / 64 / 64, 0x80 + n / 64 / 64 % 64, 0x80 + n / 64 % 64, 0x80 + n % 64]
  }

  function Encode(s: string): (b: seq<byte>)
    ensures |b| >= |s|
  {
    if |s| == 0 then [] else EncodeChar(s[0]) + Encode(s[1..])
  }

  /** A decoded character and the number of bytes it took. */
  datatype Step = Step(c: char, width: nat)

  /**
    The character at the front of a non-empty byte string. A stray
    continuation byte, a truncated sequence, an overlong form, a surrogate
    and a value above U+10FFFF are all rejected.
   */
  function DecodeFirst(b: seq<byte>): (r: Option<Step>)
    requires |b| > 0
    ensures r.Some? ==> 1 <= r.value.width <= |b| && r.value.width <= 4
  {
    var b0: int := b[0];
    if b0 < 0x80 then Some(Step(b0 as char, 1))
    else if 0xC0 <= b0 < 0xE0 then
      if |b| < 2 || !IsContinuation(b[1]) then None
      else
        var n := (b0 - 0xC0) * 64 + (b[1] as int - 0x80);
        if n < 0x80 then None else Some(Step(n as char, 2))
    else if 0xE0 <= b0 < 0xF0 then
      if |b| < 3 || !IsContinuation(b[1]) || !IsContinuation(b[2]) then None
      else
        var n := ((b0 - 0xE0) * 64 + (b[1] as int - 0x80)) * 64 + (b[2] as int - 0x80);
        if n < 0x800 || !IsScalar(n) then None else Some(Step(n as char, 3))
    else if 0xF0 <= b0 < 0xF8 then
      if |b| < 4 || !IsContinuation(b[1]) || !IsContinuation(b[2]) || !IsContinuation(b[3]) then None
      else
        var n := (((b0 - 0xF0) * 64 + (b[1] as int - 0x80)) * 64 + (b[2] as int - 0x80)) * 64 + (b[3] as int - 0x80);
        if n < 0x1_0000 || !IsScalar(n) then None else Some(Step(n as char, 4))
    else None
  }

  function Decode(b: seq<byte>): (r: Option<string>)
    ensures r.Some? ==> |r.value| <= |b|
    decreases |b|
  {
    if |b| == 0 then Some([])
    else
      match DecodeFirst(b)
      case None => None
      case Some(step) =>
        match Decode(b[step.width..])
        case None => None
        case Some(rest) => Some([step.c] + rest)
  }

  /** A character's encoding, followed by anything, decodes back to the character and its width. */
  lemma DecodeEncodeChar(c: char, rest: seq<byte>)
    ensures var r := DecodeFirst(EncodeChar(c) + rest);
      r.Some? && r.value.c == c && r.value.width == |EncodeChar(c)|
  {
    var n := c as int;
    var q1, r1 := n / 64, n % 64;
    var q2, r2 := q1 / 64, q1 % 64;
    var q3, r3 := q2 / 64, q2 % 64;
    assert n == q1 * 64 + r1 && q1 == q2 * 64 + r2 && q2 == q3 * 64 + r3;
  }

  /** Decoding inverts encoding. */
  lemma {:induction false} DecodeEncode(s: string)
    ensures Decode(Encode(s)) == Some(s)
    decreases |s|
  {
    if |s| > 0 {
      var b := Encode(s);
      var head := EncodeChar(s[0]);
      DecodeEncodeChar(s[0], Encode(s[1..]));
      assert b[|head|..] == Encode(s[1..]);
      DecodeEncode(s[1..]);
      assert [s[0]] + s[1..] == s;
    }
  }

  /** What the decoder accepts at the front is exactly the encoding of the character it returns. */
  lemma EncodeDecodeFirst(b: seq<byte>)
    requires |b| > 0 && DecodeFirst(b).Some?
    ensures EncodeChar(DecodeFirst(b).value.c) == b[..DecodeFirst(b).value.width]
  {
    var width := DecodeFirst(b).value.width;
    if width == 1 {
      assert b[..1] == [b[0]];
    } else if width == 2 {
      EncodeTwo(b[0] - 0xC0, b[1] - 0x80);
      assert b[..2] == [b[0], b[1]];
    } else if width == 3 {
      EncodeThree(b[0] - 0xE0, b[1] - 0x80, b[2] - 0x80);
      assert b[..3] == [b[0], b[1], b[2]];
    } else {
      EncodeFour(b[0] - 0xF0, b[1] - 0x80, b[2] - 0x80, b[3] - 0x80);
      assert b[..4] == [b[0], b[1], b[2], b[3]];
    }
  }

  lemma EncodeTwo(x: int, y: int)
    requires 0 <= x < 32 && 0 <= y < 64 && x * 64 + y >= 0x80
    ensures EncodeChar((x * 64 + y) as char) == [0xC0 + x, 0x80 + y]
  {
    DivModUnique(x * 64 + y, 64, x, y);
  }

  lemma EncodeThree(x: int, y: int, z: int)
    requires 0 <= x < 16 && 0 <= y < 64 && 0 <= z < 64
    requires var n := (x * 64 + y) * 64 + z; n >= 0x800 && IsScalar(n)
    ensures EncodeChar(((x * 64 + y) * 64 + z) as char) == [0xE0 + x, 0x80 + y, 0x80 + z]
  {
    var q := x * 64 + y;
    DivModUnique(q * 64 + z, 64, q, z);
    DivModUnique(q, 64, x, y);
  }

  lemma EncodeFour(w: int, x: int, y: int, z: int)
    requires 0 <= w < 8 && 0 <= x < 64 && 0 <= y < 64 && 0 <= z < 64
    requires var n := ((w * 64 + x) * 64 + y) * 64 + z; n >= 0x1_0000 && IsScalar(n)
    ensures EncodeChar((((w * 64 + x) * 64 + y) * 64 + z) as char) == [0xF0 + w, 0x80 + x, 0x80 + y, 0x80 + z]
  {
    var q2 := w * 64 + x;
    var q1 := q2 * 64 + y;
    DivModUnique(q1 * 64 + z, 64, q1, z);
    DivModUnique(q1, 64, q2, y);
    DivModUnique(q2, 64, w, x);
  }

  /** Whatever the decoder accepts is the encoding of what it returns: only shortest forms decode. */
  lemma {:induction false} EncodeDecode(b: seq<byte>)
    requires Decode(b).Some?
    ensures Encode(Decode(b).value) == b
    decreases |b|
  {
    if |b| > 0 {
      var step := DecodeFirst(b).value;
      var rest := b[step.width..];
      var tail := Decode(rest).value;
      DecodeCons(b);
      EncodeDecodeFirst(b);
      EncodeDecode(rest);
      EncodeCons(step.c, tail);
      calc {
        Encode(Decode(b).value);
        Encode([step.c] + tail);
        EncodeChar(step.c) + Encode(tail);
        b[..step.width] + rest;
        { assert b == b[..step.width] + rest; }
        b;
      }
    }
  }

  lemma DecodeCons(b: seq<byte>)
    requires |b| > 0 && Decode(b).Some?
    ensures DecodeFirst(b).Some? && Decode(b[DecodeFirst(b).value.width..]).Some?
    ensures Decode(b).value == [DecodeFirst(b).value.c] + Decode(b[DecodeFirst(b).value.width..]).value
  {
  }

  lemma EncodeCons(c: char, s: string)
    ensures Encode([c] + s) == EncodeChar(c) + Encode(s)
  {
    assert ([c] + s)[0] == c && ([c] + s)[1..] == s;
  }

  /** Encoding is injective: different strings never share bytes. */
  lemma EncodeInjective(s: string, t: string)
    requires Encode(s) == Encode(t)
    ensures s == t
  {
    DecodeEncode(s);
    DecodeEncode(t);
  }
}
