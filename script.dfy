/**
  `preview/browser/statics/script.js`: the random background colour of each preview
  card, written as a CSS hex colour `#rrggbb`. JavaScript numbers are modelled as
  integers (the script only passes integers); `Number.prototype.toString(16)` writes
  lower-case digits and a leading `-` for a negative number. `Math.random` and the DOM
  loop are not part of this model: a colour is a function of its three draws.
*/
module CardColour {
  import opened Wrappers
  import Text

  /** `(c < 75) ? c + 75 : c`: dark components are lifted by 75. */
  function Lifted(c: int): int
  {
    if c < 75 then c + 75 else c
  }

  /** `n.toString(16)` for an integer `n`. */
  function JsHex(n: int): string
  {
    if n < 0 then "-" + Text.ToBase(-n, 16, false) else Text.ToBase(n, 16, false)
  }

  /** `colToHex`: the lifted component in hex, with a `0` in front of a single digit. */
  function ColToHex(c: int): string
  {
    var hex := JsHex(Lifted(c));
    if |hex| == 1 then "0" + hex else hex
  }

  /** `rgbToHex`. */
  function RgbToHex(r: int, g: int, b: int): string
  {
    "#" + ColToHex(r) + ColToHex(g) + ColToHex(b)
  }

  /** `getRandomColor` given the three values of `Math.floor(Math.random() * 255)`. */
  function RandomColour(r: int, g: int, b: int): string
    requires 0 <= r < 255 && 0 <= g < 255 && 0 <= b < 255
  {
    RgbToHex(r, g, b)
  }

  /** A component in [0, 255] is lifted into [75, 255]: below 75 it gains 75, from 75 on
      it is kept. */
  lemma LiftedRange(c: int)
    requires 0 <= c <= 255
    ensures 75 <= Lifted(c) <= 255
    ensures c < 75 ==> Lifted(c) == c + 75
    ensures c >= 75 ==> Lifted(c) == c
  {
  }

  /** A leading zero does not change the value of a digit string. */
  lemma {:induction false} LeadingZero(s: string, radix: nat)
    requires radix >= 1
    ensures Text.DigitsValue("0" + s, radix) == Text.DigitsValue(s, radix)
    decreases |s|
  {
    if s != [] {
      assert ("0" + s)[..|"0" + s| - 1] == "0" + s[..|s| - 1];
      assert ("0" + s)[|"0" + s| - 1] == s[|s| - 1];
      LeadingZero(s[..|s| - 1], radix);
    } else {
      assert "0"[..0] == [];
    }
  }

  /** `toString(16)` gives a single char exactly for the values 0 to 15. */
  lemma JsHexSingle(n: int)
    ensures |JsHex(n)| == 1 <==> 0 <= n < 16
  {
    if n < 0 {
      Text.ToBaseLeading(-n, 16, false);
    } else if n >= 16 {
      assert Text.Pow(16, 1) == 16;
      Text.ToBaseLengthAtLeast(n, 16, false, 2);
    }
  }

  /** The padded hex of a non-negative value reads back as that value. */
  lemma PaddedReadsBack(n: nat)
    ensures var hex := JsHex(n);
      Text.DigitsValue(if |hex| == 1 then "0" + hex else hex, 16) == Some(n)
  {
    Text.DigitsValueToBase(n, 16, false);
    if |JsHex(n)| == 1 {
      LeadingZero(JsHex(n), 16);
    }
  }

  /** The padding fires exactly when the lifted value is a single hex digit, which
      happens only for components in [-75, -60], and never for a component in
      [0, 255]; every non-negative lifted value reads back from the output. */
  lemma PaddingOnlyBelowRange(c: int)
    ensures |JsHex(Lifted(c))| == 1 <==> -75 <= c <= -60
    ensures 0 <= Lifted(c) ==> Text.DigitsValue(ColToHex(c), 16) == Some(Lifted(c))
    ensures 0 <= Lifted(c) ==> |ColToHex(c)| >= 2
  {
    JsHexSingle(Lifted(c));
    if 0 <= Lifted(c) {
      PaddedReadsBack(Lifted(c));
      if Lifted(c) >= 16 {
        assert Text.Pow(16, 1) == 16;
        Text.ToBaseLengthAtLeast(Lifted(c), 16, false, 2);
      }
    }
  }

  /** For a component in [0, 255] the output is two lower-case hex digits that read
      back as the lifted value. */
  lemma ColToHexTwoDigits(c: int)
    requires 0 <= c <= 255
    ensures |ColToHex(c)| == 2
    ensures ColToHex(c) == JsHex(Lifted(c))
    ensures Text.DigitsValue(ColToHex(c), 16) == Some(Lifted(c))
    ensures forall k | 0 <= k < 2 :: '0' <= ColToHex(c)[k] <= '9' || 'a' <= ColToHex(c)[k] <= 'f'
  {
    var n := Lifted(c);
    assert Text.Pow(16, 2) == 256 && Text.Pow(16, 1) == 16;
    Text.ToBaseLength(n, 16, false, 2);
    Text.ToBaseLengthAtLeast(n, 16, false, 2);
    PaddingOnlyBelowRange(c);
    var s := ColToHex(c);
    assert s == Text.ToBase(n / 16, 16, false) + [Text.DigitChar(n % 16, false)];
    assert n / 16 < 16;
  }

  /** For components in [0, 255] the colour is `#` and six hex digits, two per
      component in the order red, green, blue, each reading back as the lifted value. */
  lemma RgbToHexFormat(r: int, g: int, b: int)
    requires 0 <= r <= 255 && 0 <= g <= 255 && 0 <= b <= 255
    ensures var s := RgbToHex(r, g, b);
      |s| == 7 && s[0] == '#' &&
      Text.DigitsValue(s[1..3], 16) == Some(Lifted(r)) &&
      Text.DigitsValue(s[3..5], 16) == Some(Lifted(g)) &&
      Text.DigitsValue(s[5..7], 16) == Some(Lifted(b))
  {
    ColToHexTwoDigits(r);
    ColToHexTwoDigits(g);
    ColToHexTwoDigits(b);
    var s := RgbToHex(r, g, b);
    assert s[1..3] == ColToHex(r);
    assert s[3..5] == ColToHex(g);
    assert s[5..7] == ColToHex(b);
  }

  /** The value a pair of hex digits reads back as, if any. */
  function Channel(s: string, k: nat): Option<nat>
    requires 3 + 2 * k <= |s|
  {
    Text.DigitsValue(s[1 + 2 * k..3 + 2 * k], 16)
  }

  /** Every random card colour is a 7-char CSS colour whose three channels are all at
      least 75 (`#4b4b4b` or lighter in each). */
  lemma RandomColourIsLight(r: int, g: int, b: int)
    requires 0 <= r < 255 && 0 <= g < 255 && 0 <= b < 255
    ensures var s := RandomColour(r, g, b);
      |s| == 7 && s[0] == '#' &&
      forall k | 0 <= k < 3 :: Channel(s, k).Some? && 75 <= Channel(s, k).value <= 255
  {
    RgbToHexFormat(r, g, b);
    LiftedRange(r);
    LiftedRange(g);
    LiftedRange(b);
    var s := RandomColour(r, g, b);
    var lifted := [Lifted(r), Lifted(g), Lifted(b)];
    forall k | 0 <= k < 3 ensures Channel(s, k) == Some(lifted[k]) {
      if k == 0 {
        assert Channel(s, 0) == Some(Lifted(r));
      } else if k == 1 {
        assert Channel(s, 1) == Some(Lifted(g));
      } else {
        assert Channel(s, 2) == Some(Lifted(b));
      }
    }
  }
}
