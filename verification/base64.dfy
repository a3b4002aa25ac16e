/**
  The Base64 encoding of RFC 4648, section 4: the standard alphabet, with
  `=` padding to a multiple of four characters. The decoder is strict: it
  accepts only text the encoder can produce (no line breaks, no missing
  padding, no stray bits in the last character).
 */
module Base64 {
  import opened Optional
  import opened Arith
  import opened Utf8

  /** A value of the 6-bit groups the alphabet spells. */
  type sextet = x: int | 0 <= x < 64

  /** Table 1 of RFC 4648: A-Z, a-z, 0-9, `+`, `/`. */
  function CharOf(v: sextet): (c: char)
    ensures c != '='
  {
    if v < 26 then ('A' as int + v) as char
    else if v < 52 then ('a' as int + (v - 26)) as char
    else if v < 62 then ('0' as int + (v - 52)) as char
    else if v == 62 then '+'
    else '/'
  }

  /** The value a character of the alphabet stands for; `None` for any other character, `=` included. */
  function ValueOf(c: char): (r: Option<sextet>)
    ensures r.Some? ==> CharOf(r.value) == c
  {
    if 'A' <= c <= 'Z' then Some(c as int - 'A' as int)
    else if 'a' <= c <= 'z' then Some(c as int - 'a' as int + 26)
    else if '0' <= c <= '9' then Some(c as int - '0' as int + 52)
    else if c == '+' then Some(62)
    else if c == '/' then Some(63)
    else None
  }

  lemma ValueOfChar(v: sextet)
    ensures ValueOf(CharOf(v)) == Some(v)
  {
  }

  /** One quantum of three bytes, or the one or two bytes left at the end, as four characters. */
  function EncodeQuantum(q: seq<byte>): (r: string)
    requires 1 <= |q| <= 3
    ensures |r| == 4
  {
    var b0 := q[0];
    if |q| == 1 then [CharOf(b0 / 4), CharOf(b0 % 4 * 16), '=', '=']
    else
      var b1 := q[1];
      if |q| == 2 then [CharOf(b0 / 4), CharOf(b0 % 4 * 16 + b1 / 16), CharOf(b1 % 16 * 4), '=']
      else
        var b2 := q[2];
        [CharOf(b0 / 4), CharOf(b0 % 4 * 16 + b1 / 16), CharOf(b1 % 16 * 4 + b2 / 64), CharOf(b2 % 64)]
  }

  function Encode(b: seq<byte>): (r: string)
    ensures |r| == (|b| + 2) / 3 * 4
    decreases |b|
  {
    if |b| == 0 then []
    else if |b| <= 3 then
      DivModUnique(|b| + 2, 3, 1, |b| - 1);
      EncodeQuantum(b)
    else
      var n := |b| - 3;
      DivModUnique(n + 2, 3, (n + 2) / 3, (n + 2) % 3);
      DivModUnique(|b| + 2, 3, (n + 2) / 3 + 1, (n + 2) % 3);
      EncodeQuantum(b[..3]) + Encode(b[3..])
  }

  /**
    The bytes of four characters. Padding may only end the text (`last`),
    and the bits the padding leaves over in the last character must be zero.
   */
  function DecodeQuantum(s: string, last: bool): (r: Option<seq<byte>>)
    requires |s| == 4
    ensures r.Some? ==> 1 <= |r.value| <= 3 && (|r.value| < 3 ==> last)
  {
    var v0, v1, v2, v3 := ValueOf(s[0]), ValueOf(s[1]), ValueOf(s[2]), ValueOf(s[3]);
    if v0.None? || v1.None? then None
    else
      var c0, c1 := v0.value, v1.value;
      if s[2] == '=' && s[3] == '=' then
        if last && c1 % 16 == 0 then Some([c0 * 4 + c1 / 16]) else None
      else if v2.None? then None
      else
        var c2 := v2.value;
        if s[3] == '=' then
          if last && c2 % 4 == 0 then Some([c0 * 4 + c1 / 16, c1 % 16 * 16 + c2 / 4]) else None
        else if v3.None? then None
        else Some([c0 * 4 + c1 / 16, c1 % 16 * 16 + c2 / 4, c2 % 4 * 64 + v3.value])
  }

  function Decode(s: string): (r: Option<seq<byte>>)
    ensures r.Some? ==> (|r.value| == 0 <==> |s| == 0)
    decreases |s|
  {
    if |s| == 0 then Some([])
    else if |s| < 4 then None
    else
      match DecodeQuantum(s[..4], |s| == 4)
      case None => None
      case Some(q) =>
        match Decode(s[4..])
        case None => None
        case Some(rest) => Some(q + rest)
  }

  /** Four characters of a quantum decode to the bytes they were made from. */
  lemma DecodeEncodeQuantum(q: seq<byte>, last: bool)
    requires 1 <= |q| <= 3 && (|q| < 3 ==> last)
    ensures var r := DecodeQuantum(EncodeQuantum(q), last); r.Some? && r.value == q
  {
    if |q| == 1 {
      DecodeOneByte(q[0]);
      assert q == [q[0]];
    } else if |q| == 2 {
      DecodeTwoBytes(q[0], q[1]);
      assert q == [q[0], q[1]];
    } else {
      DecodeThreeBytes(q[0], q[1], q[2], last);
      assert q == [q[0], q[1], q[2]];
    }
  }

  lemma DecodeOneByte(b0: byte)
    ensures DecodeQuantum(EncodeQuantum([b0]), true) == Some([b0])
  {
    ValueOfChar(b0 / 4);
    ValueOfChar(b0 % 4 * 16);
    DivModUnique(b0 % 4 * 16, 16, b0 % 4, 0);
  }

  lemma DecodeTwoBytes(b0: byte, b1: byte)
    ensures DecodeQuantum(EncodeQuantum([b0, b1]), true) == Some([b0, b1])
  {
    var c1 := b0 % 4 * 16 + b1 / 16;
    ValueOfChar(b0 / 4);
    ValueOfChar(c1);
    ValueOfChar(b1 % 16 * 4);
    DivModUnique(c1, 16, b0 % 4, b1 / 16);
    DivModUnique(b1 % 16 * 4, 4, b1 % 16, 0);
  }

  lemma DecodeThreeBytes(b0: byte, b1: byte, b2: byte, last: bool)
    ensures DecodeQuantum(EncodeQuantum([b0, b1, b2]), last) == Some([b0, b1, b2])
  {
    var c1 := b0 % 4 * 16 + b1 / 16;
    var c2 := b1 % 16 * 4 + b2 / 64;
    ValueOfChar(b0 / 4);
    ValueOfChar(c1);
    ValueOfChar(c2);
    ValueOfChar(b2 % 64);
    DivModUnique(c1, 16, b0 % 4, b1 / 16);
    DivModUnique(c2, 4, b1 % 16, b2 / 64);
  }

  /** Decoding inverts encoding. */
  lemma {:induction false} DecodeEncode(b: seq<byte>)
    ensures Decode(Encode(b)) == Some(b)
    decreases |b|
  {
    if |b| > 0 {
      var s := Encode(b);
      if |b| <= 3 {
        DecodeEncodeQuantum(b, true);
        assert s[..4] == s && s[4..] == [];
        assert b + [] == b;
      } else {
        DecodeEncodeQuantum(b[..3], |s| == 4);
        assert s[..4] == EncodeQuantum(b[..3]) && s[4..] == Encode(b[3..]);
        DecodeEncode(b[3..]);
        assert b == b[..3] + b[3..];
      }
    }
  }

  /** Whatever quantum the decoder accepts is the encoding of the bytes it returns. */
  lemma EncodeDecodeQuantum(s: string, last: bool)
    requires |s| == 4 && DecodeQuantum(s, last).Some?
    ensures EncodeQuantum(DecodeQuantum(s, last).value) == s
  {
    var q := DecodeQuantum(s, last).value;
    var c0, c1 := ValueOf(s[0]).value, ValueOf(s[1]).value;
    DivModUnique(q[0], 4, c0, c1 / 16);
    if |q| == 1 {
      assert c1 == c1 / 16 * 16;
    } else {
      var c2 := ValueOf(s[2]).value;
      DivModUnique(q[1], 16, c1 % 16, c2 / 4);
      if |q| == 2 {
        assert c2 == c2 / 4 * 4;
      } else {
        DivModUnique(q[2], 64, c2 % 4, ValueOf(s[3]).value);
      }
    }
  }

  /** Whatever the decoder accepts is the encoding of what it returns: the decoder admits one text per byte string. */
  lemma {:induction false} EncodeDecode(s: string)
    requires Decode(s).Some?
    ensures Encode(Decode(s).value) == s
    decreases |s|
  {
    if |s| > 0 {
      var q := DecodeQuantum(s[..4], |s| == 4).value;
      EncodeDecodeQuantum(s[..4], |s| == 4);
      if |s| == 4 {
        assert Decode(s).value == q;
      } else {
        var rest := Decode(s[4..]).value;
        EncodeDecode(s[4..]);
        assert Decode(s).value == q + rest;
        assert (q + rest)[..3] == q && (q + rest)[3..] == rest;
        assert s == s[..4] + s[4..];
      }
    }
  }
}
