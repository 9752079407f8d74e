/**
  The glyph bitmap FreeType hands back (src/ft/bitmap.rs): a buffer of `pitch * rows`
  bytes cut into rows of `pitch` bytes; a 1-bit bitmap is unpacked MSB-first into 0/255
  bytes, a gray bitmap keeps the first `width` bytes of each row.
*/
module FtBitmap {
  import opened Wrappers
  import opened Utf8
  import TerminalRender
  import Text

  /** 2^k for a bit position. */
  function Pow2(k: nat): (p: nat)
    ensures p >= 1
  {
    if k == 0 then 1 else 2 * Pow2(k - 1)
  }

  /** Bit k of a byte, counting from the least significant. */
  predicate BitSet(value: byte, k: nat) {
    (value as nat / Pow2(k)) % 2 == 1
  }

  /** What the `index`-th step of `U8Bits` yields: `value & (0b1000_0000 >> index)`
      compared with zero, 255 when set. */
  function BitByte(value: byte, index: nat): (b: byte)
    requires index < 8
    ensures b == 255 <==> BitSet(value, 7 - index)
    ensures b == 0 <==> !BitSet(value, 7 - index)
  {
    if BitSet(value, 7 - index) then 255 else 0
  }

  /** All eight values `bits(value)` yields, most significant bit first. */
  function Bits(value: byte): (s: seq<byte>)
    ensures |s| == 8
    ensures forall i | 0 <= i < 8 :: s[i] == BitByte(value, i)
  {
    seq(8, i requires 0 <= i < 8 => BitByte(value, i))
  }

  /** The `U8Bits` iterator: a byte and the position of the next bit. */
  class U8Bits {
    var index: nat
    var value: byte

    ghost predicate Valid()
      reads this
    {
      index <= 8
    }

    /** The values still to come. */
    ghost function Remaining(): seq<byte>
      reads this
      requires Valid()
    {
      Bits(value)[index..]
    }

    /** `bits(value)`: a fresh iterator at the most significant bit. */
    constructor (value: byte)
      ensures Valid() && this.value == value && index == 0
      ensures Remaining() == Bits(value)
    {
      this.index := 0;
      this.value := value;
    }

    /** `Iterator::next`: None once eight values were yielded, else the next bit. */
    method Next() returns (r: Option<byte>)
      requires Valid()
      modifies this
      ensures Valid() && value == old(value)
      ensures old(index) == 8 ==> r.None? && index == 8
      ensures old(index) < 8 ==> r == Some(Bits(value)[old(index)]) && index == old(index) + 1
      ensures r.None? <==> old(Remaining()) == []
      ensures r.Some? ==> old(Remaining()) == [r.value] + Remaining()
    {
      var i := index;
      if i == 8 {
        r := None;
      } else {
        index := index + 1;
        r := Some(BitByte(value, i));
      }
    }
  }

  /** Drains `bits(value)`: exactly eight values, then the iterator is done. */
  method CollectBits(value: byte) returns (out: seq<byte>, exhausted: bool)
    ensures out == Bits(value)
    ensures exhausted
  {
    var it := new U8Bits(value);
    out := [];
    while true
      invariant it.Valid() && it.value == value
      invariant out + it.Remaining() == Bits(value)
      decreases 8 - it.index
    {
      var r := it.Next();
      if r.None? {
        break;
      }
      out := out + [r.value];
    }
    exhausted := it.index == 8;
    assert out + [] == out;
  }

  /** Packs MSB-first 0/255 values back into a number. */
  function Pack(s: seq<byte>): nat {
    if s == [] then 0 else 2 * Pack(s[..|s| - 1]) + (if s[|s| - 1] == 255 then 1 else 0)
  }

  /** One more bit on a prefix: if the prefix packs to `q / 2` and the next value is
      the low bit of `q`, the longer prefix packs to `q`. */
  lemma PackStep(s: seq<byte>, k: nat, q: nat)
    requires k < |s| && Pack(s[..k]) == q / 2 && (s[k] == 255 <==> q % 2 == 1)
    ensures Pack(s[..k + 1]) == q
  {
    assert s[..k + 1][..k] == s[..k];
  }

  /** Euclidean division has one quotient: `q * d + r` with `r < d` divides to `q`. */
  lemma DivUnique(v: nat, d: nat, q: nat, r: nat)
    requires d >= 1 && v == q * d + r && r < d
    ensures v / d == q
  {
    var q2, r2 := v / d, v % d;
    assert v == q2 * d + r2;
    Text.MulStep(q2, d);
    Text.LtOfMulLt(q, q2 + 1, d);
    Text.MulStep(q, d);
    Text.LtOfMulLt(q2, q + 1, d);
  }

  /** Halving after dividing by `p` is dividing by `2 * p`. */
  lemma DivHalf(v: nat, p: nat)
    requires p >= 1
    ensures v / (2 * p) == (v / p) / 2
  {
    var q, r := v / p, v % p;
    var h, b := q / 2, q % 2;
    assert v == q * p + r;
    assert q * p == h * (2 * p) + b * p;
    DivUnique(v, 2 * p, h, b * p + r);
  }

  /** The first `k` values of `bits` pack to the byte's top `k` bits. */
  lemma {:induction false} PackPrefix(value: byte, k: nat)
    requires k <= 8
    ensures Pack(Bits(value)[..k]) == value as nat / Pow2(8 - k)
    decreases k
  {
    var s := Bits(value);
    var v := value as nat;
    if k == 0 {
      assert s[..0] == [];
      assert Pow2(8) == 256;
    } else {
      PackPrefix(value, k - 1);
      DivHalf(v, Pow2(8 - k));
      PackStep(s, k - 1, v / Pow2(8 - k));
    }
  }

  /** `bits` loses nothing: packing its eight values gives the byte back. */
  lemma PackBits(value: byte)
    ensures Pack(Bits(value)) == value as nat
  {
    PackPrefix(value, 8);
    assert Bits(value)[..8] == Bits(value);
  }

  /** The values of a row's bytes, `row.iter().flat_map(bits)`. */
  function FlatBits(row: seq<byte>): (s: seq<byte>)
    ensures |s| == 8 * |row|
  {
    if row == [] then [] else Bits(row[0]) + FlatBits(row[1..])
  }

  lemma {:induction false} FlatBitsAt(row: seq<byte>, k: nat)
    requires k < 8 * |row|
    ensures FlatBits(row)[k] == BitByte(row[k / 8], k % 8)
  {
    var bits := Bits(row[0]);
    assert FlatBits(row) == bits + FlatBits(row[1..]);
    if k >= 8 {
      var j := k - 8;
      FlatBitsAt(row[1..], j);
      assert j / 8 == k / 8 - 1 && j % 8 == k % 8;
      assert row[1..][j / 8] == row[k / 8];
      assert FlatBits(row)[k] == FlatBits(row[1..])[j];
    } else {
      assert k / 8 == 0 && k % 8 == k;
      assert FlatBits(row)[k] == bits[k];
    }
  }

  function Min(a: nat, b: nat): nat { if a <= b then a else b }

  /** One mono row: the row's bits, MSB-first, cut to the glyph width. */
  function MonoRow(row: seq<byte>, width: nat): (r: seq<byte>)
    ensures |r| == Min(width, 8 * |row|)
    ensures forall k | 0 <= k < |r| :: r[k] == BitByte(row[k / 8], k % 8)
    ensures forall k | 0 <= k < |r| :: r[k] == 0 || r[k] == 255
  {
    var bits := FlatBits(row);
    var r := bits[..Min(width, |bits|)];
    forall k | 0 <= k < |r| ensures r[k] == BitByte(row[k / 8], k % 8) {
      FlatBitsAt(row, k);
    }
    r
  }

  /** `chunks(pitch)` of a buffer holding exactly `height` rows. */
  function Chunks(buffer: seq<byte>, pitch: nat, height: nat): (rows: seq<seq<byte>>)
    requires pitch > 0 && |buffer| == pitch * height
    ensures |rows| == height
    ensures forall i | 0 <= i < height :: rows[i] == buffer[i * pitch..(i + 1) * pitch]
  {
    seq(height, i requires 0 <= i < height => ChunkAt(buffer, pitch, height, i))
  }

  function ChunkAt(buffer: seq<byte>, pitch: nat, height: nat, i: nat): (row: seq<byte>)
    requires pitch > 0 && |buffer| == pitch * height && i < height
    ensures |row| == pitch
  {
    assert (i + 1) * pitch <= height * pitch by { MulMono(i + 1, height, pitch); }
    buffer[i * pitch..(i + 1) * pitch]
  }

  lemma MulMono(a: nat, b: nat, c: nat)
    requires a <= b
    ensures a * c <= b * c
  {
  }

  datatype PixelMode = Mono | Gray

  datatype Metrics = Metrics(left: int, top: int, height: nat, width: nat)

  datatype Bitmap = Bitmap(metrics: Metrics, bitmap: seq<seq<byte>>)

  /** `Bitmap::new` on the glyph slot's fields; `pitch` is already the absolute value.
      A zero pitch makes `chunks` panic, and a gray row narrower than the width makes
      the slice panic, so both are excluded. */
  function NewBitmap(buffer: seq<byte>, left: int, top: int, height: nat, width: nat,
                     pitch: nat, mode: PixelMode): (b: Bitmap)
    requires pitch > 0 && |buffer| == pitch * height
    requires mode == Gray ==> width <= pitch
    ensures |b.bitmap| == height
    ensures mode == Mono ==> forall i | 0 <= i < height ::
      b.bitmap[i] == MonoRow(Chunks(buffer, pitch, height)[i], width)
    ensures mode == Gray ==> forall i | 0 <= i < height ::
      b.bitmap[i] == Chunks(buffer, pitch, height)[i][..width]
    ensures b.metrics == Metrics(left, top, height, width)
  {
    var rows := Chunks(buffer, pitch, height);
    var bitmap :=
      if mode == Mono then seq(height, i requires 0 <= i < height => MonoRow(rows[i], width))
      else seq(height, i requires 0 <= i < height => rows[i][..width]);
    Bitmap(Metrics(left, top, height, width), bitmap)
  }

  /** `get_height`. */
  function GetHeight(b: Bitmap): nat { b.metrics.height }

  /** `get_width`. */
  function GetWidth(b: Bitmap): nat { b.metrics.width }

  /** Every row of a new bitmap has the same length, the glyph width (for a mono bitmap
      at most 8 * pitch), so the terminal renderer can sample all of it. */
  lemma NewBitmapShape(buffer: seq<byte>, left: int, top: int, height: nat, width: nat,
                       pitch: nat, mode: PixelMode)
    requires pitch > 0 && |buffer| == pitch * height
    requires mode == Gray ==> width <= pitch
    ensures var b := NewBitmap(buffer, left, top, height, width, pitch, mode);
      GetHeight(b) == |b.bitmap| &&
      (forall i | 0 <= i < height :: |b.bitmap[i]| == Min(width, 8 * pitch)) &&
      (width <= 8 * pitch ==> forall i | 0 <= i < height :: |b.bitmap[i]| == GetWidth(b)) &&
      TerminalRender.WellShaped(b.bitmap)
  {
    var b := NewBitmap(buffer, left, top, height, width, pitch, mode);
    var rows := Chunks(buffer, pitch, height);
    forall i | 0 <= i < height ensures |b.bitmap[i]| == Min(width, 8 * pitch) {
      assert |rows[i]| == pitch;
    }
  }
}
