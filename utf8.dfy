/**
  UTF-8 as RFC 3629 defines it: the encoding of one Unicode scalar value
  (section 3) and the well-formed byte sequences a decoder accepts (section 4).
  Rust's `char::encode_utf8`, `str::len` and `String::from_utf8` follow it.
*/
module Utf8 {
  import opened Wrappers

  newtype byte = x: int | 0 <= x < 256

  /** Definition D76 of chapter 3 of the Unicode Standard: a scalar value is a code
      point that is not a surrogate. Dafny's `char` ranges over exactly these. */
  predicate IsScalarValue(v: int) {
    (0 <= v < 0xD800) || (0xE000 <= v <= 0x10FFFF)
  }

  /** Number of bytes RFC 3629 section 3 uses for a scalar value. */
  function Width(c: char): (n: nat)
    ensures 1 <= n <= 4
    ensures n == 1 <==> (c as int) < 0x80
  {
    var v := c as int;
    if v < 0x80 then 1 else if v < 0x800 then 2 else if v < 0x10000 then 3 else 4
  }

  predicate IsTail(b: byte) { 0x80 <= b <= 0xBF }

  /** The bytes of one scalar value, most significant bits first. */
  function EncodeChar(c: char): (bs: seq<byte>)
    ensures |bs| == Width(c)
  {
    var v := c as int;
    if v < 0x80 then [v as byte]
    else if v < 0x800 then [(0xC0 + v / 64) as byte, (0x80 + v % 64) as byte]
    else if v < 0x10000 then
      [(0xE0 + v / 4096) as byte, (0x80 + (v / 64) % 64) as byte, (0x80 + v % 64) as byte]
    else
      [(0xF0 + v / 262144) as byte, (0x80 + (v / 4096) % 64) as byte,
       (0x80 + (v / 64) % 64) as byte, (0x80 + v % 64) as byte]
  }

  function Encode(s: string): (bs: seq<byte>)
  {
    if s == [] then [] else EncodeChar(s[0]) + Encode(s[1..])
  }

  /** Byte length of a string, what Rust's `str::len` returns. */
  function Len(s: string): (n: nat)
    ensures n == |Encode(s)|
    ensures |s| <= n <= 4 * |s|
  {
    if s == [] then 0 else Width(s[0]) + Len(s[1..])
  }

  /** The first scalar value of `bs` and its length in bytes, when `bs` starts with one of
      the well-formed sequences of RFC 3629 section 4 (UTF8-1 .. UTF8-4). */
  function DecodeFirst(bs: seq<byte>): (r: Option<(char, nat)>)
    ensures r.Some? ==> 1 <= r.value.1 <= |bs| && r.value.1 <= 4
  {
    if bs == [] then None
    else
      var b0 := bs[0] as int;
      if b0 < 0x80 then Some((b0 as char, 1))
      else if 0xC2 <= b0 <= 0xDF then
        if |bs| >= 2 && IsTail(bs[1]) then
          Some((((b0 - 0xC0) * 64 + (bs[1] as int - 0x80)) as char, 2))
        else None
      else if 0xE0 <= b0 <= 0xEF then
        if |bs| >= 3 && IsTail(bs[1]) && IsTail(bs[2])
           && (b0 == 0xE0 ==> bs[1] >= 0xA0)
           && (b0 == 0xED ==> bs[1] <= 0x9F)
        then
          Some((((b0 - 0xE0) * 4096 + (bs[1] as int - 0x80) * 64 + (bs[2] as int - 0x80)) as char, 3))
        else None
      else if 0xF0 <= b0 <= 0xF4 then
        if |bs| >= 4 && IsTail(bs[1]) && IsTail(bs[2]) && IsTail(bs[3])
           && (b0 == 0xF0 ==> bs[1] >= 0x90)
           && (b0 == 0xF4 ==> bs[1] <= 0x8F)
        then
          Some((((b0 - 0xF0) * 262144 + (bs[1] as int - 0x80) * 4096
                 + (bs[2] as int - 0x80) * 64 + (bs[3] as int - 0x80)) as char, 4))
        else None
      else None
  }

  /** `String::from_utf8`: the decoded text, or None when `bs` is not well-formed. */
  function Decode(bs: seq<byte>): (r: Option<string>)
    decreases |bs|
  {
    if bs == [] then Some([])
    else
      match DecodeFirst(bs)
      case None => None
      case Some((c, n)) =>
        match Decode(bs[n..])
        case None => None
        case Some(rest) => Some([c] + rest)
  }

  lemma EncodeCharDecodesFirst(c: char, rest: seq<byte>)
    ensures DecodeFirst(EncodeChar(c) + rest) == Some((c, Width(c)))
  {
    var v := c as int;
    if v < 0x80 {
      assert (EncodeChar(c) + rest)[0] as int == v;
    } else if v < 0x800 {
      DecodesTwo(c, rest);
    } else if v < 0x10000 {
      DecodesThree(c, rest);
    } else {
      DecodesFour(c, rest);
    }
  }

  lemma DecodesTwo(c: char, rest: seq<byte>)
    requires 0x80 <= c as int < 0x800
    ensures DecodeFirst(EncodeChar(c) + rest) == Some((c, 2))
  {
    var v := c as int;
    var hi, lo := v / 64, v % 64;
    assert v == hi * 64 + lo;
    var bs := EncodeChar(c) + rest;
    assert bs[0] as int == 0xC0 + hi && bs[1] as int == 0x80 + lo;
  }

  lemma DecodesThree(c: char, rest: seq<byte>)
    requires 0x800 <= c as int < 0x10000
    ensures DecodeFirst(EncodeChar(c) + rest) == Some((c, 3))
  {
    var v := c as int;
    var b0, b1, b2 := v / 4096, (v / 64) % 64, v % 64;
    assert v / 64 == b0 * 64 + b1;
    assert v == b0 * 4096 + b1 * 64 + b2;
    var bs := EncodeChar(c) + rest;
    assert bs[0] as int == 0xE0 + b0 && bs[1] as int == 0x80 + b1 && bs[2] as int == 0x80 + b2;
  }

  lemma DecodesFour(c: char, rest: seq<byte>)
    requires 0x10000 <= c as int
    ensures DecodeFirst(EncodeChar(c) + rest) == Some((c, 4))
  {
    var v := c as int;
    var b0, b1, b2, b3 := v / 262144, (v / 4096) % 64, (v / 64) % 64, v % 64;
    assert v / 4096 == b0 * 64 + b1;
    assert v / 64 == (v / 4096) * 64 + b2;
    assert v == b0 * 262144 + b1 * 4096 + b2 * 64 + b3;
    var bs := EncodeChar(c) + rest;
    assert bs[0] as int == 0xF0 + b0 && bs[1] as int == 0x80 + b1;
    assert bs[2] as int == 0x80 + b2 && bs[3] as int == 0x80 + b3;
  }

  /** Decoding inverts encoding (RFC 3629 section 3 and section 4 agree). */
  lemma {:induction false} DecodeEncode(s: string)
    ensures Decode(Encode(s)) == Some(s)
  {
    if s != [] {
      var head := EncodeChar(s[0]);
      var tail := Encode(s[1..]);
      EncodeCharDecodesFirst(s[0], tail);
      assert Encode(s) == head + tail;
      assert (head + tail)[Width(s[0])..] == tail;
      DecodeEncode(s[1..]);
      assert [s[0]] + s[1..] == s;
    }
  }

  lemma DecodeEncodeChar(c: char)
    ensures Decode(EncodeChar(c)) == Some([c])
  {
    assert Encode([c]) == EncodeChar(c) + Encode([c][1..]);
    assert [c][1..] == [] && EncodeChar(c) + [] == EncodeChar(c);
    DecodeEncode([c]);
  }

  lemma DivMod(v: int, h: int, l: int, m: int)
    requires m == 64 || m == 4096 || m == 262144
    requires 0 <= l < m && v == h * m + l
    ensures v / m == h && v % m == l
  {
    if m == 64 {
      assert v == h * 64 + l;
    } else if m == 4096 {
      assert v == h * 4096 + l;
    } else {
      assert v == h * 262144 + l;
    }
  }

  /** The char `DecodeFirst` reads is encoded by exactly the bytes it consumed; with
      `EncodeCharDecodesFirst`, the two directions of RFC 3629's correspondence. */
  lemma DecodeFirstEncodes(bs: seq<byte>)
    requires DecodeFirst(bs).Some?
    ensures EncodeChar(DecodeFirst(bs).value.0) == bs[..DecodeFirst(bs).value.1]
  {
    var n := DecodeFirst(bs).value.1;
    if n == 2 {
      EncodesTwo(bs);
    } else if n == 3 {
      EncodesThree(bs);
    } else if n == 4 {
      EncodesFour(bs);
    }
  }

  lemma EncodesTwo(bs: seq<byte>)
    requires DecodeFirst(bs).Some? && DecodeFirst(bs).value.1 == 2
    ensures EncodeChar(DecodeFirst(bs).value.0) == bs[..2]
  {
    var c := DecodeFirst(bs).value.0;
    var h, l := bs[0] as int - 0xC0, bs[1] as int - 0x80;
    var v := c as int;
    assert v == h * 64 + l;
    DivMod(v, h, l, 64);
  }

  lemma EncodesThree(bs: seq<byte>)
    requires DecodeFirst(bs).Some? && DecodeFirst(bs).value.1 == 3
    ensures EncodeChar(DecodeFirst(bs).value.0) == bs[..3]
  {
    var c := DecodeFirst(bs).value.0;
    var h0, h1, h2 := bs[0] as int - 0xE0, bs[1] as int - 0x80, bs[2] as int - 0x80;
    var v := c as int;
    assert v == h0 * 4096 + h1 * 64 + h2;
    DivMod(v, h0 * 64 + h1, h2, 64);
    DivMod(v / 64, h0, h1, 64);
    DivMod(v, h0, h1 * 64 + h2, 4096);
  }

  lemma EncodesFour(bs: seq<byte>)
    requires DecodeFirst(bs).Some? && DecodeFirst(bs).value.1 == 4
    ensures EncodeChar(DecodeFirst(bs).value.0) == bs[..4]
  {
    var c := DecodeFirst(bs).value.0;
    var h0, h1 := bs[0] as int - 0xF0, bs[1] as int - 0x80;
    var h2, h3 := bs[2] as int - 0x80, bs[3] as int - 0x80;
    var v := c as int;
    assert v == h0 * 262144 + h1 * 4096 + h2 * 64 + h3;
    DivMod(v, h0 * 4096 + h1 * 64 + h2, h3, 64);
    DivMod(v / 64, h0 * 64 + h1, h2, 64);
    DivMod(v, h0 * 64 + h1, h2 * 64 + h3, 4096);
    DivMod(v / 4096, h0, h1, 64);
    DivMod(v, h0, h1 * 4096 + h2 * 64 + h3, 262144);
  }

  /** Well-formed bytes are the encoding of what they decode to. */
  lemma {:induction false} EncodeOfDecode(bs: seq<byte>)
    requires Decode(bs).Some?
    ensures Encode(Decode(bs).value) == bs
    ensures Decode(bs).value == [] <==> bs == []
    decreases |bs|
  {
    if bs != [] {
      var (c, n) := DecodeFirst(bs).value;
      EncodeOfDecode(bs[n..]);
      DecodeFirstEncodes(bs);
      assert bs == bs[..n] + bs[n..];
      var s := Decode(bs).value;
      assert s == [c] + Decode(bs[n..]).value;
      assert s[0] == c && s[1..] == Decode(bs[n..]).value;
    }
  }
}
