/** UTF-8 as Rust's `String::into_bytes` produces it and `String::from_utf8`
    accepts it: a string is a sequence of Unicode scalar values, and a byte
    sequence is accepted exactly when it is well formed in the sense of
    Table 3-7 of the Unicode Standard (no overlong forms, no surrogates,
    nothing above U+10FFFF). */
module Utf8 {
  import opened Wire

  predicate IsContinuation(b: byte)
  {
    0x80 <= b <= 0xBF
  }

  /** The one to four bytes that encode `c`. */
  function EncodeChar(c: char): (r: seq<byte>)
    ensures 1 <= |r| <= 4
    ensures (c as int < 0x80) <==> |r| == 1
  {
    var cp := c as int;
    var q1 := cp / 0x40;
    var q2 := q1 / 0x40;
    var q3 := q2 / 0x40;
    if cp < 0x80 then [cp]
    else if cp < 0x800 then [0xC0 + q1, 0x80 + cp % 0x40]
    else if cp < 0x10000 then [0xE0 + q2, 0x80 + q1 % 0x40, 0x80 + cp % 0x40]
    else [0xF0 + q3, 0x80 + q2 % 0x40, 0x80 + q1 % 0x40, 0x80 + cp % 0x40]
  }

  /** `name.into_bytes()`: the concatenated encodings of the characters. */
  function Encode(s: string): (r: seq<byte>)
    ensures |s| <= |r| <= 4 * |s|
  {
    if s == [] then [] else EncodeChar(s[0]) + Encode(s[1..])
  }

  /** Decodes the character at the front of `b`, returning it with the number
      of bytes it occupies, or None when the front of `b` is not well formed. */
  function DecodeChar(b: seq<byte>): (r: Option<(char, nat)>)
    requires |b| > 0
    ensures r.Some? ==> 1 <= r.value.1 <= |b| && r.value.1 == |EncodeChar(r.value.0)|
  {
    var b0: int := b[0];
    if b0 < 0x80 then
      Some((b0 as char, 1))
    else if 0xC2 <= b0 <= 0xDF then
      if |b| >= 2 && IsContinuation(b[1]) then
        Some((((b0 - 0xC0) * 0x40 + (b[1] as int - 0x80)) as char, 2))
      else None
    else if 0xE0 <= b0 <= 0xEF then
      var lo := if b0 == 0xE0 then 0xA0 else 0x80;
      var hi := if b0 == 0xED then 0x9F else 0xBF;
      if |b| >= 3 && lo <= b[1] <= hi && IsContinuation(b[2]) then
        Some((((b0 - 0xE0) * 0x1000 + (b[1] as int - 0x80) * 0x40 + (b[2] as int - 0x80)) as char, 3))
      else None
    else if 0xF0 <= b0 <= 0xF4 then
      var lo := if b0 == 0xF0 then 0x90 else 0x80;
      var hi := if b0 == 0xF4 then 0x8F else 0xBF;
      if |b| >= 4 && lo <= b[1] <= hi && IsContinuation(b[2]) && IsContinuation(b[3]) then
        Some((((b0 - 0xF0) * 0x40000 + (b[1] as int - 0x80) * 0x1000 + (b[2] as int - 0x80) * 0x40 + (b[3] as int - 0x80)) as char, 4))
      else None
    else
      None
  }

  /** `String::from_utf8`: the decoded string, or None for ill-formed input. */
  function Decode(b: seq<byte>): (r: Option<string>)
    ensures r.Some? ==> |r.value| <= |b| <= 4 * |r.value|
    decreases |b|
  {
    if |b| == 0 then Some([])
    else match DecodeChar(b)
      case None => None
      case Some((c, n)) =>
        match Decode(b[n..])
        case None => None
        case Some(s) => Some([c] + s)
  }

  /** The decoder reads back exactly the character the encoder wrote, and
      only its bytes, whatever follows. */
  lemma DecodeCharOfEncodeChar(c: char, rest: seq<byte>)
    ensures DecodeChar(EncodeChar(c) + rest) == Some((c, |EncodeChar(c)|))
  {
    var cp := c as int;
    if cp < 0x80 {
    } else if cp < 0x800 {
      DecodeTwo(c, rest);
    } else if cp < 0x10000 {
      DecodeThree(c, rest);
    } else {
      DecodeFour(c, rest);
    }
  }

  lemma DecodeTwo(c: char, rest: seq<byte>)
    requires 0x80 <= c as int < 0x800
    ensures DecodeChar(EncodeChar(c) + rest) == Some((c, 2))
  {
    var cp := c as int;
    var q1 := cp / 0x40;
    assert cp == q1 * 0x40 + cp % 0x40;
    var b := EncodeChar(c) + rest;
    assert b[0] == 0xC0 + q1 && b[1] == 0x80 + cp % 0x40;
  }

  lemma DecodeThree(c: char, rest: seq<byte>)
    requires 0x800 <= c as int < 0x10000
    ensures DecodeChar(EncodeChar(c) + rest) == Some((c, 3))
  {
    var cp := c as int;
    var q1 := cp / 0x40;
    var q2 := q1 / 0x40;
    assert cp == q1 * 0x40 + cp % 0x40;
    assert q1 == q2 * 0x40 + q1 % 0x40;
    var b := EncodeChar(c) + rest;
    assert b[0] == 0xE0 + q2 && b[1] == 0x80 + q1 % 0x40 && b[2] == 0x80 + cp % 0x40;
  }

  lemma DecodeFour(c: char, rest: seq<byte>)
    requires 0x10000 <= c as int
    ensures DecodeChar(EncodeChar(c) + rest) == Some((c, 4))
  {
    var cp := c as int;
    var q1 := cp / 0x40;
    var q2 := q1 / 0x40;
    var q3 := q2 / 0x40;
    assert cp == q1 * 0x40 + cp % 0x40;
    assert q1 == q2 * 0x40 + q1 % 0x40;
    assert q2 == q3 * 0x40 + q2 % 0x40;
    var b := EncodeChar(c) + rest;
    assert b[0] == 0xF0 + q3 && b[1] == 0x80 + q2 % 0x40 && b[2] == 0x80 + q1 % 0x40 && b[3] == 0x80 + cp % 0x40;
  }

  /** The bytes the decoder accepted for one character are that character's
      encoding. */
  lemma {:induction false} EncodeCharOfDecodeChar(b: seq<byte>)
    requires |b| > 0 && DecodeChar(b).Some?
    ensures b[..DecodeChar(b).value.1] == EncodeChar(DecodeChar(b).value.0)
  {
    var b0: int := b[0];
    if 0xC2 <= b0 <= 0xDF {
      EncodeTwo(b0, b[1]);
    } else if 0xE0 <= b0 <= 0xEF {
      EncodeThree(b0, b[1], b[2]);
    } else if 0xF0 <= b0 <= 0xF4 {
      EncodeFour(b0, b[1], b[2], b[3]);
    }
  }

  lemma DivMod64(hi: int, lo: int)
    requires 0 <= hi && 0 <= lo < 0x40
    ensures (hi * 0x40 + lo) / 0x40 == hi && (hi * 0x40 + lo) % 0x40 == lo
  {
  }

  lemma EncodeTwo(b0: int, b1: int)
    requires 0xC2 <= b0 <= 0xDF && 0x80 <= b1 <= 0xBF
    ensures EncodeChar(((b0 - 0xC0) * 0x40 + (b1 - 0x80)) as char) == [b0, b1]
  {
    DivMod64(b0 - 0xC0, b1 - 0x80);
  }

  lemma EncodeThree(b0: int, b1: int, b2: int)
    requires 0xE0 <= b0 <= 0xEF && 0x80 <= b1 <= 0xBF && 0x80 <= b2 <= 0xBF
    requires b0 == 0xE0 ==> b1 >= 0xA0
    requires b0 == 0xED ==> b1 <= 0x9F
    ensures EncodeChar(((b0 - 0xE0) * 0x1000 + (b1 - 0x80) * 0x40 + (b2 - 0x80)) as char) == [b0, b1, b2]
  {
    var q1 := (b0 - 0xE0) * 0x40 + (b1 - 0x80);
    var cp := q1 * 0x40 + (b2 - 0x80);
    DivMod64(q1, b2 - 0x80);
    DivMod64(b0 - 0xE0, b1 - 0x80);
  }

  lemma EncodeFour(b0: int, b1: int, b2: int, b3: int)
    requires 0xF0 <= b0 <= 0xF4 && 0x80 <= b1 <= 0xBF && 0x80 <= b2 <= 0xBF && 0x80 <= b3 <= 0xBF
    requires b0 == 0xF0 ==> b1 >= 0x90
    requires b0 == 0xF4 ==> b1 <= 0x8F
    ensures EncodeChar(((b0 - 0xF0) * 0x40000 + (b1 - 0x80) * 0x1000 + (b2 - 0x80) * 0x40 + (b3 - 0x80)) as char)
      == [b0, b1, b2, b3]
  {
    var q2 := (b0 - 0xF0) * 0x40 + (b1 - 0x80);
    var q1 := q2 * 0x40 + (b2 - 0x80);
    var cp := q1 * 0x40 + (b3 - 0x80);
    DivMod64(q1, b3 - 0x80);
    DivMod64(q2, b2 - 0x80);
    DivMod64(b0 - 0xF0, b1 - 0x80);
  }

  /** Decoding an encoded string gives it back. */
  lemma {:induction false} DecodeEncode(s: string)
    ensures Decode(Encode(s)) == Some(s)
  {
    if s != [] {
      var e := EncodeChar(s[0]);
      DecodeCharOfEncodeChar(s[0], Encode(s[1..]));
      assert (e + Encode(s[1..]))[|e|..] == Encode(s[1..]);
      DecodeEncode(s[1..]);
      assert [s[0]] + s[1..] == s;
    }
  }

  /** Whatever the decoder accepts is the encoding of what it returns. */
  lemma {:induction false} EncodeDecode(b: seq<byte>)
    requires Decode(b).Some?
    ensures Encode(Decode(b).value) == b
    decreases |b|
  {
    if |b| > 0 {
      var c := DecodeChar(b).value.0;
      var n := DecodeChar(b).value.1;
      var rest := Decode(b[n..]).value;
      var s := [c] + rest;
      assert Decode(b) == Some(s);
      EncodeCharOfDecodeChar(b);
      EncodeDecode(b[n..]);
      assert s[0] == c && s[1..] == rest;
      assert Encode(s) == EncodeChar(c) + Encode(rest);
      assert b == b[..n] + b[n..];
    }
  }

  /** `String::from_utf8(b)` succeeds with `s` exactly when `b` is the UTF-8
      encoding of `s`. */
  lemma {:induction false} DecodeIff(b: seq<byte>, s: string)
    ensures Decode(b) == Some(s) <==> b == Encode(s)
  {
    if Decode(b) == Some(s) {
      EncodeDecode(b);
    }
    if b == Encode(s) {
      DecodeEncode(s);
    }
  }

  /** The same, for every string at once. */
  lemma {:induction false} DecodeIffAll(b: seq<byte>)
    ensures forall s :: Decode(b) == Some(s) <==> b == Encode(s)
  {
    forall s
      ensures Decode(b) == Some(s) <==> b == Encode(s)
    {
      DecodeIff(b, s);
    }
  }

  /** `String::from_utf8(b)` fails exactly when `b` encodes no string at all. */
  lemma DecodeFailsIff(b: seq<byte>)
    ensures Decode(b).None? <==> forall s :: b != Encode(s)
  {
    if Decode(b).Some? {
      EncodeDecode(b);
    } else {
      forall s
        ensures b != Encode(s)
      {
        if b == Encode(s) {
          DecodeEncode(s);
        }
      }
    }
  }

  /** A string encodes to no bytes exactly when it is empty. */
  lemma EncodeEmptyIff(s: string)
    ensures Encode(s) == [] <==> s == []
  {
  }
}
