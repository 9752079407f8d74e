/**
  The character argument of the command line (src/one_char.rs): one Unicode scalar
  value given literally, as a binary, octal, hexadecimal or decimal scalar value, or
  as the hexadecimal digits of its UTF-8 bytes.
*/
module OneChar {
  import opened Wrappers
  import opened Utf8
  import opened Text

  newtype u32 = x: int | 0 <= x < 0x1_0000_0000

  datatype ParseError =
    | EmptyInput
    | InvalidUnicodeScalarValue(value: u32)
    | InvalidDigitInRadix(radix: u32)
    | UTF8BytesEmpty
    | UTF8BytesStrCantAlignToBytes
    | UTF8BytesInvalid
    | UTF8BytesParseResultMoreThenOneChar

  datatype OneChar = OneChar(c: char)

  // ------------------------------------------------------------ scalar values

  /** `from_scalar_value`: `char::try_from(u32)`, which accepts exactly the scalar
      values of definition D76 of the Unicode Standard. */
  function FromScalarValue(v: u32): (r: Result<OneChar, ParseError>)
    ensures r.Ok? <==> IsScalarValue(v as int)
    ensures r.Ok? ==> r.value.c as int == v as int
    ensures r.Err? ==> r.error == InvalidUnicodeScalarValue(v)
  {
    if IsScalarValue(v as int) then Ok(OneChar(v as int as char))
    else Err(InvalidUnicodeScalarValue(v))
  }

  /** Every char is reachable through its scalar value. */
  lemma FromScalarValueOfChar(c: char)
    ensures FromScalarValue(c as int as u32) == Ok(OneChar(c))
  {
  }

  /** `u32::from_str_radix`: an optional '+', then one or more digits of the radix,
      with a value that fits in 32 bits. An empty string, a lone '+', a bad digit and
      an overflow are all failures. */
  function U32FromStrRadix(s: string, radix: nat): (r: Option<u32>)
    ensures r.Some? ==> s != [] && s != "+"
  {
    var digits := if |s| >= 1 && s[0] == '+' then s[1..] else s;
    if digits == [] then None
    else
      match DigitsValue(digits, radix)
      case Some(v) => if v < 0x1_0000_0000 then Some(v as u32) else None
      case None => None
  }

  /** `from_scalar_value_str_radix`: every failure of the digit string, whatever its
      cause, is reported as `InvalidDigitInRadix` carrying the radix. */
  function FromScalarValueStrRadix(s: string, radix: u32): (r: Result<OneChar, ParseError>)
    ensures U32FromStrRadix(s, radix as nat).None? <==> r == Err(InvalidDigitInRadix(radix))
    ensures U32FromStrRadix(s, radix as nat).Some? ==> r == FromScalarValue(U32FromStrRadix(s, radix as nat).value)
  {
    match U32FromStrRadix(s, radix as nat)
    case None => Err(InvalidDigitInRadix(radix))
    case Some(v) => FromScalarValue(v)
  }

  function FromScalarValueStrBin(s: string): Result<OneChar, ParseError> { FromScalarValueStrRadix(s, 2) }

  function FromScalarValueStrOct(s: string): Result<OneChar, ParseError> { FromScalarValueStrRadix(s, 8) }

  function FromScalarValueStrDec(s: string): Result<OneChar, ParseError> { FromScalarValueStrRadix(s, 10) }

  function FromScalarValueStrHex(s: string): Result<OneChar, ParseError> { FromScalarValueStrRadix(s, 16) }

  /** Writing a value in a radix (upper or lower case digits, optionally after '+')
      and parsing it back in that radix gives the value. */
  lemma {:induction false} StrRadixRoundTrip(v: u32, radix: u32, upper: bool, plus: bool)
    requires 2 <= radix <= 16
    ensures FromScalarValueStrRadix((if plus then "+" else "") + ToBase(v as nat, radix as nat, upper), radix)
            == FromScalarValue(v)
  {
    U32FromStrRadixToBase(v as nat, radix as nat, upper, plus);
  }

  lemma U32FromStrRadixToBase(v: nat, radix: nat, upper: bool, plus: bool)
    requires 2 <= radix <= 16 && v < 0x1_0000_0000
    ensures U32FromStrRadix((if plus then "+" else "") + ToBase(v, radix, upper), radix) == Some(v as u32)
  {
    var digits := ToBase(v, radix, upper);
    var s := (if plus then "+" else "") + digits;
    DigitsValueToBase(v, radix, upper);
    ToBaseLeading(v, radix, upper);
    SignStripped(digits, radix, plus);
    StrRadixOfDigits(s, digits, radix, v);
  }

  lemma StrRadixOfDigits(s: string, digits: string, radix: nat, v: nat)
    requires digits != [] && v < 0x1_0000_0000 && DigitsValue(digits, radix) == Some(v)
    requires (if |s| >= 1 && s[0] == '+' then s[1..] else s) == digits
    ensures U32FromStrRadix(s, radix) == Some(v as u32)
  {
  }

  /** The sign test of `from_str_radix` strips exactly the '+' put before the digits. */
  lemma SignStripped(digits: string, radix: nat, plus: bool)
    requires radix <= 16 && digits != [] && ToDigit(digits[0], radix).Some?
    ensures var s := (if plus then "+" else "") + digits;
      (if |s| >= 1 && s[0] == '+' then s[1..] else s) == digits
  {
    var s := (if plus then "+" else "") + digits;
    if plus {
      assert s[1..] == digits;
    } else {
      assert s == digits;
      assert ToDigit('+', radix).None?;
    }
  }

  // ------------------------------------------------------------ UTF-8 bytes

  predicate IsAsciiHexDigit(c: char) {
    ('0' <= c <= '9') || ('a' <= c <= 'f') || ('A' <= c <= 'F')
  }

  /** The byte two hex digits spell: `to_digit(16) << 4 | to_digit(16)`. */
  function HexByte(c1: char, c2: char): (b: byte)
    requires IsAsciiHexDigit(c1) && IsAsciiHexDigit(c2)
  {
    var hi := ToDigit(c1, 16).value;
    var lo := ToDigit(c2, 16).value;
    (hi * 16 + lo) as byte
  }

  /** The bytes that the hex-digit string spells, read pair by pair from the left: an
      odd last digit is `UTF8BytesStrCantAlignToBytes`, a pair with a non-hex char is
      `InvalidDigitInRadix(16)`, and the first offending pair decides. */
  function HexBytes(s: string): (r: Result<seq<byte>, ParseError>)
    decreases |s|
  {
    if s == [] then Ok([])
    else if |s| == 1 then Err(UTF8BytesStrCantAlignToBytes)
    else if IsAsciiHexDigit(s[0]) && IsAsciiHexDigit(s[1]) then
      match HexBytes(s[2..])
      case Ok(rest) => Ok([HexByte(s[0], s[1])] + rest)
      case Err(e) => Err(e)
    else Err(InvalidDigitInRadix(16))
  }

  function Prepend(bs: seq<byte>, r: Result<seq<byte>, ParseError>): Result<seq<byte>, ParseError>
  {
    match r
    case Ok(rest) => Ok(bs + rest)
    case Err(e) => Err(e)
  }

  /** The loop at the head of `from_utf8_bytes`: drains the digits two at a time and
      collects the bytes, stopping at the first failing pair. */
  method CollectHexBytes(s: string) returns (r: Result<seq<byte>, ParseError>)
    ensures r == HexBytes(s)
  {
    var bytes: seq<byte> := [];
    var i := 0;
    assert s[0..] == s;
    assert Prepend([], HexBytes(s)) == HexBytes(s) by {
      if HexBytes(s).Ok? { assert [] + HexBytes(s).value == HexBytes(s).value; }
    }
    while i < |s|
      invariant 0 <= i <= |s|
      invariant HexBytes(s) == Prepend(bytes, HexBytes(s[i..]))
      decreases |s| - i
    {
      if i + 1 == |s| {
        return Err(UTF8BytesStrCantAlignToBytes);
      }
      var c1, c2 := s[i], s[i + 1];
      if IsAsciiHexDigit(c1) && IsAsciiHexDigit(c2) {
        var b := HexByte(c1, c2);
        assert s[i..][2..] == s[i + 2..];
        PrependAssoc(bytes, [b], HexBytes(s[i + 2..]));
        bytes := bytes + [b];
        i := i + 2;
      } else {
        return Err(InvalidDigitInRadix(16));
      }
    }
    assert bytes + [] == bytes;
    r := Ok(bytes);
  }

  lemma PrependAssoc(a: seq<byte>, b: seq<byte>, r: Result<seq<byte>, ParseError>)
    ensures Prepend(a, Prepend(b, r)) == Prepend(a + b, r)
  {
    if r.Ok? {
      assert a + (b + r.value) == (a + b) + r.value;
    }
  }

  predicate AllHex(s: string) {
    forall i | 0 <= i < |s| :: IsAsciiHexDigit(s[i])
  }

  lemma AllHexAppend(a: string, b: string)
    ensures AllHex(a + b) <==> AllHex(a) && AllHex(b)
  {
    if AllHex(a) && AllHex(b) {
      forall i | 0 <= i < |a + b| ensures IsAsciiHexDigit((a + b)[i]) {
        if i >= |a| { assert (a + b)[i] == b[i - |a|]; }
      }
    }
    if AllHex(a + b) {
      forall i | 0 <= i < |b| ensures IsAsciiHexDigit(b[i]) {
        assert (a + b)[i + |a|] == b[i];
      }
      forall i | 0 <= i < |a| ensures IsAsciiHexDigit(a[i]) {
        assert (a + b)[i] == a[i];
      }
    }
  }

  /** The three outcomes of the pair loop, and only these: success on an even string of
      hex digits, `UTF8BytesStrCantAlignToBytes` when the only fault is an odd last
      digit, `InvalidDigitInRadix(16)` otherwise. */
  lemma {:induction false} HexBytesOutcome(s: string)
    ensures HexBytes(s).Ok? <==> |s| % 2 == 0 && AllHex(s)
    ensures HexBytes(s) == Err(UTF8BytesStrCantAlignToBytes) <==> |s| % 2 == 1 && AllHex(s[..|s| - 1])
    ensures HexBytes(s).Err? && HexBytes(s) != Err(UTF8BytesStrCantAlignToBytes)
            ==> HexBytes(s) == Err(InvalidDigitInRadix(16))
    ensures HexBytes(s).Ok? ==> |HexBytes(s).value| == |s| / 2
    decreases |s|
  {
    if |s| >= 2 {
      var t := s[2..];
      HexBytesOutcome(t);
      var headHex := IsAsciiHexDigit(s[0]) && IsAsciiHexDigit(s[1]);
      assert s == s[..2] + t;
      AllHexAppend(s[..2], t);
      assert AllHex(s[..2]) == headHex by {
        assert s[..2][0] == s[0] && s[..2][1] == s[1];
      }
      assert AllHex(s) == (headHex && AllHex(t));
      if |s| >= 3 {
        assert s[..|s| - 1] == s[..2] + t[..|t| - 1];
        AllHexAppend(s[..2], t[..|t| - 1]);
        assert AllHex(s[..|s| - 1]) == (headHex && AllHex(t[..|t| - 1]));
      } else {
        assert s[..|s| - 1] == s[..1];
      }
      HexBytesStep(s);
    } else if |s| == 1 {
      assert s[..0] == [];
    }
  }

  lemma HexBytesStep(s: string)
    requires |s| >= 2
    ensures IsAsciiHexDigit(s[0]) && IsAsciiHexDigit(s[1]) ==>
      HexBytes(s) == Prepend([HexByte(s[0], s[1])], HexBytes(s[2..]))
    ensures !(IsAsciiHexDigit(s[0]) && IsAsciiHexDigit(s[1])) ==> HexBytes(s) == Err(InvalidDigitInRadix(16))
  {
  }

  /** Two upper-case hex digits of a byte (the `02X` format). */
  function HexPair(b: byte): (s: string)
    ensures |s| == 2 && IsAsciiHexDigit(s[0]) && IsAsciiHexDigit(s[1])
    ensures HexByte(s[0], s[1]) == b
  {
    ToDigitOfDigitChar(b as nat / 16, 16, true);
    ToDigitOfDigitChar(b as nat % 16, 16, true);
    [DigitChar(b as nat / 16, true), DigitChar(b as nat % 16, true)]
  }

  function HexString(bs: seq<byte>): (s: string)
    ensures |s| == 2 * |bs|
  {
    if bs == [] then [] else HexPair(bs[0]) + HexString(bs[1..])
  }

  /** The pair loop reads back every byte string written as hex pairs. */
  lemma {:induction false} HexBytesOfHexString(bs: seq<byte>)
    ensures HexBytes(HexString(bs)) == Ok(bs)
  {
    if bs != [] {
      var s := HexString(bs);
      assert s[2..] == HexString(bs[1..]);
      assert s[0] == HexPair(bs[0])[0] && s[1] == HexPair(bs[0])[1];
      HexBytesOfHexString(bs[1..]);
      assert [bs[0]] + bs[1..] == bs;
    }
  }

  /** The errors `from_utf8_bytes` can report. */
  predicate IsUtf8BytesError(e: ParseError) {
    e == InvalidDigitInRadix(16) || e.UTF8BytesEmpty? || e.UTF8BytesStrCantAlignToBytes?
    || e.UTF8BytesInvalid? || e.UTF8BytesParseResultMoreThenOneChar?
  }

  /** `from_utf8_bytes`: the hex pairs are collected into bytes, the bytes must be
      well-formed UTF-8 (RFC 3629), and they must spell exactly one char. */
  function FromUtf8Bytes(s: string): (r: Result<OneChar, ParseError>)
    ensures r.Ok? ==> HexBytes(s).Ok? && EncodeChar(r.value.c) == HexBytes(s).value
    ensures r == Err(UTF8BytesEmpty) <==> s == []
    ensures r.Err? ==> IsUtf8BytesError(r.error)
  {
    HexBytesOutcome(s);
    match HexBytes(s)
    case Err(e) => Err(e)
    case Ok(bytes) =>
      match Decode(bytes)
      case None => Err(UTF8BytesInvalid)
      case Some(text) =>
        if |text| == 0 then Err(UTF8BytesEmpty)
        else if |text| == 1 then
          EncodeOfDecode(bytes);
          assert Encode(text) == EncodeChar(text[0]) + Encode([]);
          Ok(OneChar(text[0]))
        else Err(UTF8BytesParseResultMoreThenOneChar)
  }

  /** The UTF-8 bytes of any char, written as hex pairs, parse back to that char. */
  lemma FromUtf8BytesRoundTrip(c: char)
    ensures FromUtf8Bytes(HexString(EncodeChar(c))) == Ok(OneChar(c))
  {
    HexBytesOfHexString(EncodeChar(c));
    DecodeEncodeChar(c);
  }

  /** Every outcome of `from_utf8_bytes`, for every input: a hex-pair error is passed
      on; otherwise, for the bytes collected, the result is a char exactly when the
      bytes are that char's encoding, `UTF8BytesInvalid` exactly when they are not
      well-formed UTF-8, `UTF8BytesEmpty` exactly when there are none, and
      `UTF8BytesParseResultMoreThenOneChar` exactly when they decode to two or more
      chars. */
  lemma FromUtf8BytesOutcome(s: string)
    ensures HexBytes(s).Err? ==> FromUtf8Bytes(s) == Err(HexBytes(s).error)
    ensures HexBytes(s).Ok? ==> var bytes := HexBytes(s).value;
      (forall c :: FromUtf8Bytes(s) == Ok(OneChar(c)) <==> bytes == EncodeChar(c)) &&
      (FromUtf8Bytes(s) == Err(UTF8BytesInvalid) <==> Decode(bytes).None?) &&
      (FromUtf8Bytes(s) == Err(UTF8BytesEmpty) <==> bytes == []) &&
      (FromUtf8Bytes(s) == Err(UTF8BytesParseResultMoreThenOneChar) <==>
        Decode(bytes).Some? && |Decode(bytes).value| >= 2)
  {
    if HexBytes(s).Ok? {
      var bytes := HexBytes(s).value;
      forall c | bytes == EncodeChar(c)
        ensures FromUtf8Bytes(s) == Ok(OneChar(c))
      {
        DecodeEncodeChar(c);
      }
      if Decode(bytes).Some? {
        EncodeOfDecode(bytes);
        if Decode(bytes).value == [] {
          assert bytes == Encode([]);
        }
      }
    }
  }

  /** Two chars' worth of bytes is the "more than one char" error. */
  lemma FromUtf8BytesTwoChars(c1: char, c2: char)
    ensures FromUtf8Bytes(HexString(Encode([c1, c2]))) == Err(UTF8BytesParseResultMoreThenOneChar)
  {
    HexBytesOfHexString(Encode([c1, c2]));
    DecodeEncode([c1, c2]);
  }

  // ------------------------------------------------------------ the argument

  function AsciiLowercase(c: char): char {
    if 'A' <= c <= 'Z' then (c as int + 32) as char else c
  }

  /** `FromStr for OneChar`. One char stands for itself; longer input is routed by its
      first two chars, compared without ASCII case. */
  function FromStr(s: string): (r: Result<OneChar, ParseError>)
    ensures s == [] <==> r == Err(EmptyInput)
    ensures |s| == 1 ==> r == Ok(OneChar(s[0]))
  {
    if |s| == 0 then Err(EmptyInput)
    else if |s| == 1 then Ok(OneChar(s[0]))
    else
      var c1, c2 := AsciiLowercase(s[0]), AsciiLowercase(s[1]);
      if c1 == '0' && c2 == 'b' then FromScalarValueStrBin(s[2..])
      else if c1 == '0' && c2 == 'o' then FromScalarValueStrOct(s[2..])
      else if c1 == 'u' && c2 == '+' then FromScalarValueStrHex(s[2..])
      else if c1 == '0' && c2 == 'x' then FromUtf8Bytes(s[2..])
      else FromScalarValueStrDec(s)
  }

  /** The prefixes that select a radix, in either case. */
  predicate RadixPrefix(p: string, radix: u32) {
    |p| == 2 &&
    match radix
    case 2 => p[0] == '0' && AsciiLowercase(p[1]) == 'b'
    case 8 => p[0] == '0' && AsciiLowercase(p[1]) == 'o'
    case 16 => AsciiLowercase(p[0]) == 'u' && p[1] == '+'
    case _ => false
  }

  /** "0b…", "0o…" and "U+…" parse the rest as a scalar value in base 2, 8 and 16. */
  lemma FromStrRadix(p: string, radix: u32, v: u32, upper: bool)
    requires RadixPrefix(p, radix)
    ensures FromStr(p + ToBase(v as nat, radix as nat, upper)) == FromScalarValue(v)
  {
    var digits := ToBase(v as nat, radix as nat, upper);
    var s := p + digits;
    assert s[2..] == digits;
    assert s[0] == p[0] && s[1] == p[1];
    StrRadixRoundTrip(v, radix, upper, false);
    assert "" + digits == digits;
    assert FromScalarValueStrRadix(digits, radix) == FromScalarValue(v);
    if radix == 2 {
      assert FromStr(s) == FromScalarValueStrBin(digits);
    } else if radix == 8 {
      assert FromStr(s) == FromScalarValueStrOct(digits);
    } else {
      assert FromStr(s) == FromScalarValueStrHex(digits);
    }
  }

  /** A decimal number of two or more digits is a scalar value written in base 10; a
      single digit, by contrast, is that digit char. */
  lemma FromStrDecimal(v: u32)
    requires v >= 10
    ensures FromStr(Dec(v as nat)) == FromScalarValue(v)
  {
    var s := Dec(v as nat);
    ToBaseLengthAtLeast(v as nat, 10, false, 2);
    ToBaseLeading(v as nat, 10, false);
    StrRadixRoundTrip(v, 10, false, false);
    assert "" + s == s;
  }

  lemma FromStrOneDigit()
    ensures FromStr("1") == Ok(OneChar('1'))
    ensures FromStr("1") != FromScalarValue(1)
  {
  }

  /** "0x" followed by the hex pairs of a char's UTF-8 bytes gives that char. */
  lemma FromStrUtf8(c: char, upper: bool)
    ensures FromStr((if upper then "0X" else "0x") + HexString(EncodeChar(c))) == Ok(OneChar(c))
  {
    var p := if upper then "0X" else "0x";
    var s := p + HexString(EncodeChar(c));
    assert s[2..] == HexString(EncodeChar(c));
    FromUtf8BytesRoundTrip(c);
  }

  // ------------------------------------------------------------ description

  /** The `U+` field: upper-case hex, zero-padded to 4 digits, or 6 above U+FFFF. */
  function ScalarField(ch: OneChar): string {
    var v := ch.c as int;
    PadLeft(ToBase(v, 16, true), if v > 0xFFFF then 6 else 4, '0')
  }

  function DecimalField(ch: OneChar): string { Dec(ch.c as int) }

  /** One "0x.." text per UTF-8 byte, upper-case hex without padding. */
  function ByteTexts(bs: seq<byte>): (ts: seq<string>)
    ensures |ts| == |bs|
  {
    seq(|bs|, i requires 0 <= i < |bs| => "0x" + ToBase(bs[i] as nat, 16, true))
  }

  /** `description`: the char in quotes, then its U+ value, its decimal value and its
      UTF-8 bytes. */
  function Description(ch: OneChar): string {
    "\"" + [ch.c] + "\"(U+" + ScalarField(ch) + ", " + DecimalField(ch) + ", "
      + Join(ByteTexts(EncodeChar(ch.c)), " ") + ")"
  }

  /** The U+ field has 4 digits up to U+FFFF and 6 above, and reads back as the value. */
  lemma ScalarFieldWidth(ch: OneChar)
    ensures |ScalarField(ch)| == if ch.c as int > 0xFFFF then 6 else 4
    ensures DigitsValue(ScalarField(ch), 16) == Some(ch.c as int)
  {
    var v := ch.c as int;
    if v > 0xFFFF {
      assert Pow(16, 6) == 16777216;
      PaddedHex(v, 6);
    } else {
      assert Pow(16, 4) == 65536;
      PaddedHex(v, 4);
    }
  }

  /** A value below 16^w, written in upper-case hex and zero-padded to w digits, takes
      exactly w digits and reads back as the value. */
  lemma PaddedHex(v: nat, w: nat)
    requires 1 <= w && v < Pow(16, w)
    ensures |PadLeft(ToBase(v, 16, true), w, '0')| == w
    ensures DigitsValue(PadLeft(ToBase(v, 16, true), w, '0'), 16) == Some(v)
  {
    var digits := ToBase(v, 16, true);
    ToBaseLength(v, 16, true, w);
    DigitsValueToBase(v, 16, true);
    assert PadLeft(digits, w, '0') == seq(w - |digits|, _ => '0') + digits;
    DigitsValueLeadingZeros(w - |digits|, digits);
  }

  lemma {:induction false} DigitsValueLeadingZeros(k: nat, s: string)
    ensures DigitsValue(seq(k, _ => '0') + s, 16) == DigitsValue(s, 16)
    decreases |s|
  {
    var z := seq(k, _ => '0');
    if s == [] {
      assert z + s == z;
      ZerosValue(k);
    } else {
      var t := z + s;
      assert t[..|t| - 1] == z + s[..|s| - 1];
      assert t[|t| - 1] == s[|s| - 1];
      DigitsValueLeadingZeros(k, s[..|s| - 1]);
    }
  }

  lemma {:induction false} ZerosValue(k: nat)
    ensures DigitsValue(seq(k, _ => '0'), 16) == Some(0)
  {
    if k > 0 {
      var z := seq(k, _ => '0');
      assert z[..k - 1] == seq(k - 1, _ => '0');
      ZerosValue(k - 1);
    }
  }

  /** The decimal field reads back as the value. */
  lemma DecimalFieldValue(ch: OneChar)
    ensures DigitsValue(DecimalField(ch), 10) == Some(ch.c as int)
  {
    DigitsValueToBase(ch.c as int, 10, false);
  }

  /** Each byte text is "0x" and the hex of the matching UTF-8 byte, and those bytes fed
      back through `from_utf8_bytes` give the same char. */
  lemma ByteFieldRoundTrip(ch: OneChar)
    ensures forall i | 0 <= i < |EncodeChar(ch.c)| ::
      ByteTexts(EncodeChar(ch.c))[i][..2] == "0x" &&
      DigitsValue(ByteTexts(EncodeChar(ch.c))[i][2..], 16) == Some(EncodeChar(ch.c)[i] as nat)
    ensures FromUtf8Bytes(HexString(EncodeChar(ch.c))) == Ok(ch)
  {
    var bs := EncodeChar(ch.c);
    forall i | 0 <= i < |bs|
      ensures ByteTexts(bs)[i][..2] == "0x"
      ensures DigitsValue(ByteTexts(bs)[i][2..], 16) == Some(bs[i] as nat)
    {
      DigitsValueToBase(bs[i] as nat, 16, true);
      assert ByteTexts(bs)[i][2..] == ToBase(bs[i] as nat, 16, true);
    }
    FromUtf8BytesRoundTrip(ch.c);
  }
}
