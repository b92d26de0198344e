/** UTF-8 as `std::str::from_utf8` accepts it: the well-formed byte sequences of the
    Unicode standard (table 3-7 of chapter 3), decoded to Unicode scalar values. */
module Utf8 {
  import opened Wrappers
  import opened Bytes

  predicate IsContinuation(b: byte) { 0x80 <= b <= 0xBF }

  /** The bytes of one scalar value. */
  function EncodeChar(c: char): (bs: seq<byte>)
    ensures 1 <= |bs| <= 4
  {
    var v := c as int;
    if v < 0x80 then [v]
    else if v < 0x800 then [0xC0 + v / 0x40, 0x80 + v % 0x40]
    else if v < 0x1_0000 then [0xE0 + v / 0x1000, 0x80 + (v / 0x40) % 0x40, 0x80 + v % 0x40]
    else [0xF0 + v / 0x4_0000, 0x80 + (v / 0x1000) % 0x40, 0x80 + (v / 0x40) % 0x40, 0x80 + v % 0x40]
  }

  /** The UTF-8 encoding of a string. */
  function Encode(s: string): (bs: seq<byte>)
  {
    if s == [] then [] else EncodeChar(s[0]) + Encode(s[1..])
  }

  /** The value carried by a continuation byte. */
  function Low6(b: byte): (v: int) { b as int - 0x80 }

  /** Decodes the scalar value that starts `bs`, with the number of bytes it takes,
      or None when `bs` does not start with a well-formed sequence. */
  function DecodeFirst(bs: seq<byte>): (r: Option<(char, nat)>)
    requires |bs| > 0
    ensures r.Some? ==> 1 <= r.value.1 <= |bs|
  {
    var b0 := bs[0] as int;
    if b0 < 0x80 then
      Some((b0 as char, 1))
    else if 0xC2 <= b0 <= 0xDF then
      if |bs| >= 2 && IsContinuation(bs[1]) then
        Some((((b0 - 0xC0) * 0x40 + Low6(bs[1])) as char, 2))
      else None
    else if 0xE0 <= b0 <= 0xEF then
      if |bs| >= 3 && IsContinuation(bs[1]) && IsContinuation(bs[2])
         && (b0 == 0xE0 ==> bs[1] >= 0xA0) && (b0 == 0xED ==> bs[1] <= 0x9F) then
        Some((((b0 - 0xE0) * 0x1000 + Low6(bs[1]) * 0x40 + Low6(bs[2])) as char, 3))
      else None
    else if 0xF0 <= b0 <= 0xF4 then
      if |bs| >= 4 && IsContinuation(bs[1]) && IsContinuation(bs[2]) && IsContinuation(bs[3])
         && (b0 == 0xF0 ==> bs[1] >= 0x90) && (b0 == 0xF4 ==> bs[1] <= 0x8F) then
        Some((((b0 - 0xF0) * 0x4_0000 + Low6(bs[1]) * 0x1000 + Low6(bs[2]) * 0x40 + Low6(bs[3])) as char, 4))
      else None
    else None
  }

  /** `from_utf8`: the decoded string, or None when the bytes are not UTF-8. */
  function Decode(bs: seq<byte>): (r: Option<string>)
    decreases |bs|
  {
    if |bs| == 0 then Some([])
    else match DecodeFirst(bs)
      case None => None
      case Some((c, n)) =>
        match Decode(bs[n..])
        case None => None
        case Some(rest) => Some([c] + rest)
  }

  lemma Split2(v: int)
    requires 0x80 <= v < 0x800
    ensures 2 <= v / 0x40 <= 0x1F && (v / 0x40) * 0x40 + v % 0x40 == v
  {
  }

  lemma Split3(v: int)
    requires 0x800 <= v < 0x1_0000
    ensures v / 0x1000 <= 0xF
    ensures (v / 0x1000) * 0x1000 + ((v / 0x40) % 0x40) * 0x40 + v % 0x40 == v
    ensures v / 0x1000 == 0 ==> (v / 0x40) % 0x40 >= 0x20
    ensures v / 0x1000 == 0xD && v < 0xD800 ==> (v / 0x40) % 0x40 <= 0x1F
  {
    var q := v / 0x40;
    assert q * 0x40 + v % 0x40 == v;
    assert (q / 0x40) * 0x40 + q % 0x40 == q;
    assert q / 0x40 == v / 0x1000;
  }

  lemma Split4(v: int)
    requires 0x1_0000 <= v < 0x11_0000
    ensures v / 0x4_0000 <= 4
    ensures (v / 0x4_0000) * 0x4_0000 + ((v / 0x1000) % 0x40) * 0x1000 + ((v / 0x40) % 0x40) * 0x40 + v % 0x40 == v
    ensures v / 0x4_0000 == 0 ==> (v / 0x1000) % 0x40 >= 0x10
    ensures v / 0x4_0000 == 4 ==> (v / 0x1000) % 0x40 <= 0xF
  {
    var q := v / 0x40;
    var q2 := q / 0x40;
    assert q * 0x40 + v % 0x40 == v;
    assert q2 * 0x40 + q % 0x40 == q;
    assert q2 == v / 0x1000;
    assert (q2 / 0x40) * 0x40 + q2 % 0x40 == q2;
    assert q2 / 0x40 == v / 0x4_0000;
  }

  /** Decoding the first scalar value of an encoding gives that value back. */
  lemma DecodeFirstEncodeChar(c: char, rest: seq<byte>)
    ensures DecodeFirst(EncodeChar(c) + rest) == Some((c, |EncodeChar(c)|))
  {
    var v := c as int;
    if v < 0x80 {
      assert (EncodeChar(c) + rest)[0] == v;
    } else if v < 0x800 {
      DecodeFirstTwo(c, rest);
    } else if v < 0x1_0000 {
      DecodeFirstThree(c, rest);
    } else {
      DecodeFirstFour(c, rest);
    }
  }

  lemma DecodeFirstTwo(c: char, rest: seq<byte>)
    requires 0x80 <= c as int < 0x800
    ensures DecodeFirst(EncodeChar(c) + rest) == Some((c, 2))
  {
    var v := c as int;
    var bs := EncodeChar(c) + rest;
    Split2(v);
    assert bs[0] == 0xC0 + v / 0x40 && bs[1] == 0x80 + v % 0x40;
  }

  lemma DecodeFirstThree(c: char, rest: seq<byte>)
    requires 0x800 <= c as int < 0x1_0000
    ensures DecodeFirst(EncodeChar(c) + rest) == Some((c, 3))
  {
    var v := c as int;
    var bs := EncodeChar(c) + rest;
    Split3(v);
    assert bs[0] == 0xE0 + v / 0x1000 && bs[1] == 0x80 + (v / 0x40) % 0x40 && bs[2] == 0x80 + v % 0x40;
  }

  lemma DecodeFirstFour(c: char, rest: seq<byte>)
    requires 0x1_0000 <= c as int
    ensures DecodeFirst(EncodeChar(c) + rest) == Some((c, 4))
  {
    var v := c as int;
    var bs := EncodeChar(c) + rest;
    Split4(v);
    assert bs[0] == 0xF0 + v / 0x4_0000 && bs[1] == 0x80 + (v / 0x1000) % 0x40;
    assert bs[2] == 0x80 + (v / 0x40) % 0x40 && bs[3] == 0x80 + v % 0x40;
  }

  lemma EncodeTwo(h: int, l: int)
    requires 2 <= h <= 0x1F && 0 <= l < 0x40
    ensures var v := h * 0x40 + l; 0x80 <= v < 0x800 && v / 0x40 == h && v % 0x40 == l
  {
  }

  lemma EncodeThree(h: int, m: int, l: int)
    requires 0 <= h <= 0xF && 0 <= m < 0x40 && 0 <= l < 0x40
    requires h == 0 ==> m >= 0x20
    ensures var v := h * 0x1000 + m * 0x40 + l;
      0x800 <= v < 0x1_0000 && v / 0x1000 == h && (v / 0x40) % 0x40 == m && v % 0x40 == l
  {
    var v := h * 0x1000 + m * 0x40 + l;
    assert v == (h * 0x40 + m) * 0x40 + l;
    assert v / 0x40 == h * 0x40 + m;
  }

  lemma EncodeFour(h: int, m1: int, m2: int, l: int)
    requires 0 <= h <= 4 && 0 <= m1 < 0x40 && 0 <= m2 < 0x40 && 0 <= l < 0x40
    requires h == 0 ==> m1 >= 0x10
    requires h == 4 ==> m1 <= 0xF
    ensures var v := h * 0x4_0000 + m1 * 0x1000 + m2 * 0x40 + l;
      0x1_0000 <= v < 0x11_0000 && v / 0x4_0000 == h && (v / 0x1000) % 0x40 == m1
      && (v / 0x40) % 0x40 == m2 && v % 0x40 == l
  {
    var v := h * 0x4_0000 + m1 * 0x1000 + m2 * 0x40 + l;
    assert v == ((h * 0x40 + m1) * 0x40 + m2) * 0x40 + l;
    assert v / 0x40 == (h * 0x40 + m1) * 0x40 + m2;
    assert v / 0x1000 == h * 0x40 + m1;
  }

  /** A well-formed first sequence is the encoding of the value it decodes to. */
  lemma EncodeCharDecodeFirst(bs: seq<byte>)
    requires |bs| > 0 && DecodeFirst(bs).Some?
    ensures bs[..DecodeFirst(bs).value.1] == EncodeChar(DecodeFirst(bs).value.0)
  {
    var b0 := bs[0] as int;
    if b0 < 0x80 {
    } else if b0 <= 0xDF {
      EncodeCharDecodeTwo(bs);
    } else if b0 <= 0xEF {
      EncodeCharDecodeThree(bs);
    } else {
      EncodeCharDecodeFour(bs);
    }
  }

  lemma EncodeCharDecodeTwo(bs: seq<byte>)
    requires |bs| > 0 && 0x80 <= bs[0] <= 0xDF && DecodeFirst(bs).Some?
    ensures bs[..DecodeFirst(bs).value.1] == EncodeChar(DecodeFirst(bs).value.0)
  {
    var b0 := bs[0] as int;
    var v := (b0 - 0xC0) * 0x40 + Low6(bs[1]);
    assert DecodeFirst(bs) == Some((v as char, 2));
    EncodeTwo(b0 - 0xC0, Low6(bs[1]));
    assert bs[..2] == [bs[0], bs[1]];
  }

  lemma EncodeCharDecodeThree(bs: seq<byte>)
    requires |bs| > 0 && 0xE0 <= bs[0] <= 0xEF && DecodeFirst(bs).Some?
    ensures bs[..DecodeFirst(bs).value.1] == EncodeChar(DecodeFirst(bs).value.0)
  {
    var b0 := bs[0] as int;
    var v := (b0 - 0xE0) * 0x1000 + Low6(bs[1]) * 0x40 + Low6(bs[2]);
    assert DecodeFirst(bs) == Some((v as char, 3));
    EncodeThree(b0 - 0xE0, Low6(bs[1]), Low6(bs[2]));
    assert bs[..3] == [bs[0], bs[1], bs[2]];
  }

  lemma EncodeCharDecodeFour(bs: seq<byte>)
    requires |bs| > 0 && 0xF0 <= bs[0] && DecodeFirst(bs).Some?
    ensures bs[..DecodeFirst(bs).value.1] == EncodeChar(DecodeFirst(bs).value.0)
  {
    var b0 := bs[0] as int;
    var v := (b0 - 0xF0) * 0x4_0000 + Low6(bs[1]) * 0x1000 + Low6(bs[2]) * 0x40 + Low6(bs[3]);
    assert DecodeFirst(bs) == Some((v as char, 4));
    EncodeFour(b0 - 0xF0, Low6(bs[1]), Low6(bs[2]), Low6(bs[3]));
    assert bs[..4] == [bs[0], bs[1], bs[2], bs[3]];
  }

  lemma {:induction false} DecodeEncode(s: string)
    ensures Decode(Encode(s)) == Some(s)
  {
    if s != [] {
      var e := EncodeChar(s[0]);
      DecodeFirstEncodeChar(s[0], Encode(s[1..]));
      assert Encode(s) == e + Encode(s[1..]);
      assert Encode(s)[|e|..] == Encode(s[1..]);
      DecodeEncode(s[1..]);
      assert s == [s[0]] + s[1..];
    }
  }

  /** A successful decode is the first scalar value followed by the decode of the rest. */
  lemma DecodeCons(bs: seq<byte>)
    requires |bs| > 0 && Decode(bs).Some?
    ensures DecodeFirst(bs).Some?
    ensures var n := DecodeFirst(bs).value.1;
      Decode(bs[n..]).Some? && Decode(bs).value == [DecodeFirst(bs).value.0] + Decode(bs[n..]).value
  {
  }

  lemma EncodeCons(c: char, s: string)
    ensures Encode([c] + s) == EncodeChar(c) + Encode(s)
  {
    assert ([c] + s)[1..] == s;
  }

  lemma {:induction false} EncodeDecode(bs: seq<byte>)
    requires Decode(bs).Some?
    ensures Encode(Decode(bs).value) == bs
    decreases |bs|
  {
    if |bs| > 0 {
      DecodeCons(bs);
      var c := DecodeFirst(bs).value.0;
      var n := DecodeFirst(bs).value.1;
      var rest := Decode(bs[n..]).value;
      calc {
        Encode(Decode(bs).value);
        Encode([c] + rest);
        { EncodeCons(c, rest); }
        EncodeChar(c) + Encode(rest);
        { EncodeCharDecodeFirst(bs); EncodeDecode(bs[n..]); }
        bs[..n] + bs[n..];
        bs;
      }
    }
  }

  /** Well-formed UTF-8: the encoding of some string of scalar values. */
  ghost predicate IsUtf8(bs: seq<byte>)
  {
    exists s :: Encode(s) == bs
  }

  /** `from_utf8` accepts exactly the byte strings that are the encoding of some string. */
  lemma ValidIffEncoding(bs: seq<byte>)
    ensures Decode(bs).Some? <==> IsUtf8(bs)
  {
    if Decode(bs).Some? {
      EncodeDecode(bs);
    }
    if exists s :: Encode(s) == bs {
      var s :| Encode(s) == bs;
      DecodeEncode(s);
    }
  }
}
