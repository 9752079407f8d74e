/**
  String helpers shared by the modules: Rust's ordering of `str` values, number
  formatting in a radix (`format!` in decimal or upper-case hex, JavaScript's `toString(16)`) and
  digit parsing (`char::to_digit`).
*/
module Text {
  import opened Wrappers

  datatype Ordering = Less | Equal | Greater

  /** `Ord for str`: lexicographic comparison. Rust compares the UTF-8 bytes, and UTF-8
      preserves the order of scalar values, so comparing the chars gives the same answer. */
  function Cmp(a: string, b: string): Ordering
    decreases |a|
  {
    if a == [] then (if b == [] then Equal else Less)
    else if b == [] then Greater
    else if a[0] < b[0] then Less
    else if b[0] < a[0] then Greater
    else Cmp(a[1..], b[1..])
  }

  predicate Le(a: string, b: string) { Cmp(a, b) != Greater }

  predicate Lt(a: string, b: string) { Cmp(a, b) == Less }

  lemma {:induction false} CmpEqual(a: string, b: string)
    ensures Cmp(a, b) == Equal <==> a == b
    decreases |a|
  {
    if a != [] && b != [] && a[0] == b[0] {
      CmpEqual(a[1..], b[1..]);
      assert a == [a[0]] + a[1..] && b == [b[0]] + b[1..];
    }
  }

  lemma {:induction false} CmpFlip(a: string, b: string)
    ensures Cmp(a, b) == Less <==> Cmp(b, a) == Greater
    decreases |a|
  {
    if a != [] && b != [] && a[0] == b[0] {
      CmpFlip(a[1..], b[1..]);
    }
  }

  lemma {:induction false} LeTransitive(a: string, b: string, c: string)
    requires Le(a, b) && Le(b, c)
    ensures Le(a, c)
    ensures Lt(a, b) || Lt(b, c) ==> Lt(a, c)
    decreases |a|
  {
    CmpEqual(a, b);
    CmpEqual(b, c);
    if a != [] && b != [] && c != [] && a[0] == b[0] == c[0] {
      LeTransitive(a[1..], b[1..], c[1..]);
    }
  }

  /** `Le` is a total order on strings. */
  lemma LeTotal(a: string, b: string)
    ensures Le(a, b) || Le(b, a)
    ensures Le(a, b) && Le(b, a) ==> a == b
  {
    CmpFlip(a, b);
    CmpFlip(b, a);
    CmpEqual(a, b);
  }

  // ---------------------------------------------------------------- digits

  /** The digit `d` written in a radix of at most 16. */
  function DigitChar(d: nat, upper: bool): (c: char)
    requires d < 16
  {
    if d < 10 then ('0' as int + d) as char
    else if upper then ('A' as int + d - 10) as char
    else ('a' as int + d - 10) as char
  }

  /** Rust's `char::to_digit(radix)`: ASCII digits and letters of either case. */
  function ToDigit(c: char, radix: nat): (r: Option<nat>)
    ensures r.Some? ==> r.value < radix
  {
    var d :=
      if '0' <= c <= '9' then c as int - '0' as int
      else if 'a' <= c <= 'z' then c as int - 'a' as int + 10
      else if 'A' <= c <= 'Z' then c as int - 'A' as int + 10
      else 36;
    if d < radix then Some(d) else None
  }

  lemma ToDigitOfDigitChar(d: nat, radix: nat, upper: bool)
    requires d < radix <= 16
    ensures ToDigit(DigitChar(d, upper), radix) == Some(d)
  {
  }

  /** `n` written in `radix` without leading zeros ("0" for zero). */
  function ToBase(n: nat, radix: nat, upper: bool): (s: string)
    requires 2 <= radix <= 16
    decreases n
  {
    if n < radix then [DigitChar(n, upper)]
    else ToBase(n / radix, radix, upper) + [DigitChar(n % radix, upper)]
  }

  /** The value of a non-empty or empty string of digits, read most significant first;
      None when some char is not a digit of the radix. */
  function DigitsValue(s: string, radix: nat): Option<nat>
    decreases |s|
  {
    if s == [] then Some(0)
    else
      match DigitsValue(s[..|s| - 1], radix)
      case None => None
      case Some(v) =>
        match ToDigit(s[|s| - 1], radix)
        case None => None
        case Some(d) => Some(v * radix + d)
  }

  /** Euclidean division by a radix, spelled out for the solver. */
  lemma DivStep(n: nat, radix: nat)
    requires 2 <= radix
    ensures n == (n / radix) * radix + n % radix
    ensures 0 <= n % radix < radix
    ensures n >= radix ==> 1 <= n / radix < n
    ensures n < radix ==> n / radix == 0
  {
    var q, r := n / radix, n % radix;
    assert n == q * radix + r;
    if n >= radix {
      assert q * radix > 0;
      assert q * radix >= q * 2;
    }
  }

  lemma DivUpperBound(n: nat, radix: nat, p: nat)
    requires 2 <= radix <= n < radix * p
    ensures n / radix < p && p >= 2
  {
    var q, r := n / radix, n % radix;
    assert n == q * radix + r;
    assert (p - q) * radix > 0;
    assert (p - 1) * radix > 0;
  }

  lemma DivLowerBound(n: nat, radix: nat, p: nat)
    requires 2 <= radix && radix * p <= n
    ensures p <= n / radix
  {
    var q := n / radix;
    DivStep(n, radix);
    MulStep(q, radix);
    LtOfMulLt(p, q + 1, radix);
  }

  /** `(q + 1) * c` spelled out. */
  lemma MulStep(q: nat, c: nat)
    ensures (q + 1) * c == q * c + c
  {
  }

  /** A product that is smaller with the same positive factor has a smaller factor. */
  lemma {:induction false} LtOfMulLt(a: nat, b: nat, c: nat)
    requires c > 0 && c * a < b * c
    ensures a < b
    decreases b
  {
    if b > 0 && a > 0 {
      MulStep(a - 1, c);
      MulStep(b - 1, c);
      LtOfMulLt(a - 1, b - 1, c);
    }
  }

  /** Reading back what `ToBase` writes gives the number. */
  lemma {:induction false} DigitsValueToBase(n: nat, radix: nat, upper: bool)
    requires 2 <= radix <= 16
    ensures DigitsValue(ToBase(n, radix, upper), radix) == Some(n)
    decreases n
  {
    var s := ToBase(n, radix, upper);
    if n < radix {
      ToDigitOfDigitChar(n, radix, upper);
      assert s[..0] == [];
    } else {
      DivStep(n, radix);
      var q, r := n / radix, n % radix;
      DigitsValueToBase(q, radix, upper);
      ToDigitOfDigitChar(r, radix, upper);
      assert s == ToBase(q, radix, upper) + [DigitChar(r, upper)];
      assert s[..|s| - 1] == ToBase(q, radix, upper);
      assert s[|s| - 1] == DigitChar(r, upper);
    }
  }

  /** The first digit is 0 only for the number 0. */
  lemma {:induction false} ToBaseLeading(n: nat, radix: nat, upper: bool)
    requires 2 <= radix <= 16
    ensures |ToBase(n, radix, upper)| >= 1
    ensures ToBase(n, radix, upper)[0] == '0' <==> n == 0
    ensures ToDigit(ToBase(n, radix, upper)[0], radix).Some?
    decreases n
  {
    if n < radix {
      ToDigitOfDigitChar(n, radix, upper);
    } else {
      DivStep(n, radix);
      var q := n / radix;
      ToBaseLeading(q, radix, upper);
      assert ToBase(n, radix, upper) == ToBase(q, radix, upper) + [DigitChar(n % radix, upper)];
    }
  }

  /** `ToBase` uses at most `k` digits for a number below radix^k. */
  lemma {:induction false} ToBaseLength(n: nat, radix: nat, upper: bool, k: nat)
    requires 2 <= radix <= 16 && 1 <= k
    requires n < Pow(radix, k)
    ensures |ToBase(n, radix, upper)| <= k
    decreases k
  {
    if n >= radix {
      DivStep(n, radix);
      var q := n / radix;
      var p := Pow(radix, k - 1);
      assert Pow(radix, k) == radix * p;
      DivUpperBound(n, radix, p);
      assert k - 1 != 0 by { assert Pow(radix, 0) == 1; }
      ToBaseLength(q, radix, upper, k - 1);
      assert ToBase(n, radix, upper) == ToBase(q, radix, upper) + [DigitChar(n % radix, upper)];
    }
  }

  /** A number of at least radix^(k-1) needs at least `k` digits. */
  lemma {:induction false} ToBaseLengthAtLeast(n: nat, radix: nat, upper: bool, k: nat)
    requires 2 <= radix <= 16 && 1 <= k
    requires Pow(radix, k - 1) <= n
    ensures |ToBase(n, radix, upper)| >= k
    decreases k
  {
    if k > 1 {
      var p := Pow(radix, k - 2);
      assert Pow(radix, k - 1) == radix * p;
      assert p >= 1 by { PowPositive(radix, k - 2); }
      assert n >= radix by { assert radix * p >= radix * 1; }
      DivStep(n, radix);
      var q := n / radix;
      DivLowerBound(n, radix, p);
      ToBaseLengthAtLeast(q, radix, upper, k - 1);
      assert ToBase(n, radix, upper) == ToBase(q, radix, upper) + [DigitChar(n % radix, upper)];
    }
  }

  function Pow(b: nat, k: nat): nat
  {
    if k == 0 then 1 else b * Pow(b, k - 1)
  }

  lemma {:induction false} PowPositive(b: nat, k: nat)
    requires b >= 1
    ensures Pow(b, k) >= 1
  {
    if k > 0 {
      PowPositive(b, k - 1);
      assert b * Pow(b, k - 1) >= 1 * Pow(b, k - 1);
    }
  }

  /** `format!("{}", n)`. */
  function Dec(n: nat): string { ToBase(n, 10, false) }

  /** Left-pads `s` with `pad` up to `width` chars, as a zero-padded `format!` width does. */
  function PadLeft(s: string, width: nat, pad: char): (r: string)
    ensures |r| == if |s| >= width then |s| else width
    ensures r[|r| - |s|..] == s
    ensures forall i | 0 <= i < |r| - |s| :: r[i] == pad
  {
    if |s| >= width then s else seq(width - |s|, _ => pad) + s
  }

  /** `[&str]::join(sep)`. */
  function Join(parts: seq<string>, sep: string): string
  {
    if parts == [] then []
    else if |parts| == 1 then parts[0]
    else parts[0] + sep + Join(parts[1..], sep)
  }

  /** `slice::concat` / `join("")`. */
  function Concat(parts: seq<string>): (r: string)
  {
    if parts == [] then [] else parts[0] + Concat(parts[1..])
  }
}
