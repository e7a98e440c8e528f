/** 24-bit colour packing and the pixel-screen byte offset used by the
    true-colour sprite generators (test.py). A colour is 0xRRGGBB; a pixel
    (x, y) of a screen `width` pixels wide lives at byte ((y * width) + x) * 4. */
module TrueColour {

  /** 2^k: Python's x << k is x * 2^k. */
  function Pow2(k: nat): (p: nat)
    ensures p >= 1
  {
    if k == 0 then 1 else 2 * Pow2(k - 1)
  }

  /** Python's | on non-negative integers, one bit at a time. */
  function BitOr(a: nat, b: nat): nat
    decreases a + b
  {
    if a == 0 then b
    else if b == 0 then a
    else 2 * BitOr(a / 2, b / 2) + (if a % 2 == 1 || b % 2 == 1 then 1 else 0)
  }

  /** OR with a value below 2^k that fits under a shift by k is addition:
      the bits do not overlap. */
  lemma {:induction false} BitOrDisjoint(a: nat, b: nat, k: nat)
    requires b < Pow2(k)
    ensures BitOr(a * Pow2(k), b) == a * Pow2(k) + b
  {
    if k > 0 {
      var a' := a * Pow2(k - 1);
      assert a * Pow2(k) == 2 * a';
      BitOrDisjoint(a, b / 2, k - 1);
      if a' != 0 && b != 0 {
        assert BitOr(2 * a', b) == 2 * BitOr(a', b / 2) + b % 2;
      }
    }
  }

  /** rgb_to_hex: (r << 16) | (g << 8) | b. With components in 0..255, as
      the function documents, the three fields do not overlap and the
      result is r * 65536 + g * 256 + b, below 2^24. */
  function RgbToHex(r: nat, g: nat, b: nat): (v: nat)
    ensures r < 256 && g < 256 && b < 256 ==> v == r * 65536 + g * 256 + b && v < 0x100_0000
  {
    var v := BitOr(BitOr(r * Pow2(16), g * Pow2(8)), b);
    RgbFields(r, g, b);
    v
  }

  /** The field arithmetic behind RgbToHex. */
  lemma RgbFields(r: nat, g: nat, b: nat)
    ensures r < 256 && g < 256 && b < 256 ==>
              BitOr(BitOr(r * Pow2(16), g * Pow2(8)), b) == r * 65536 + g * 256 + b
  {
    assert Pow2(8) == 256;
    assert Pow2(16) == 65536;
    if r < 256 && g < 256 && b < 256 {
      BitOrDisjoint(r, g * 256, 16);
      assert r * 65536 + g * 256 == (r * 256 + g) * Pow2(8);
      BitOrDisjoint(r * 256 + g, b, 8);
    }
  }

  /** hex_to_rgb: ((v >> 16) & 0xFF, (v >> 8) & 0xFF, v & 0xFF). For every
      integer v, Python's >> by k is floor division by 2^k and & 0xFF is the
      non-negative remainder modulo 256, which is what / and % compute here. */
  function HexToRgb(v: int): (c: (int, int, int))
    ensures 0 <= c.0 < 256 && 0 <= c.1 < 256 && 0 <= c.2 < 256
    ensures c.0 * 65536 + c.1 * 256 + c.2 == v % 0x100_0000
  {
    HexFields(v);
    ((v / 65536) % 256, (v / 256) % 256, v % 256)
  }

  /** The three byte fields of v are the base-256 digits of v mod 2^24. */
  lemma HexFields(v: int)
    ensures (v / 65536) % 256 * 65536 + (v / 256) % 256 * 256 + v % 256 == v % 0x100_0000
  {
    var lo, q := v % 256, v / 256;
    var mid, hiAll := q % 256, q / 256;
    var hi, top := hiAll % 256, hiAll / 256;
    assert v == top * 0x100_0000 + (hi * 65536 + mid * 256 + lo);
    assert v / 65536 == hiAll;
  }

  /** Decoding an encoded colour gives its components back. */
  lemma HexToRgbOfRgbToHex(r: nat, g: nat, b: nat)
    requires r < 256 && g < 256 && b < 256
    ensures HexToRgb(RgbToHex(r, g, b)) == (r, g, b)
  {
    var v := RgbToHex(r, g, b);
    assert v == r * 65536 + (g * 256 + b) && g * 256 + b < 65536;
    assert v / 65536 == r;
    assert v == (r * 256 + g) * 256 + b;
    assert v / 256 == r * 256 + g;
  }

  /** Encoding the components of a 24-bit value gives the value back. */
  lemma RgbToHexOfHexToRgb(v: int)
    requires 0 <= v < 0x100_0000
    ensures var c := HexToRgb(v); RgbToHex(c.0, c.1, c.2) == v
  {
    var c := HexToRgb(v);
    assert c.0 * 65536 + c.1 * 256 + c.2 == v;
  }

  /** Byte offset of pixel (x, y) on a screen `width` pixels wide, 4 bytes
      per pixel: a word-aligned address whose word number is the row-major
      index of the pixel. */
  function PixelOffset(x: int, y: int, width: int): (o: int)
    ensures o % 4 == 0 && o / 4 == y * width + x
  {
    ((y * width) + x) * 4
  }

  /** A pixel earlier in row-major order has a smaller offset. */
  lemma RowMajorLess(x1: int, y1: int, x2: int, y2: int, width: int)
    requires 0 <= x1 < width && 0 <= x2 < width
    requires y1 < y2 || (y1 == y2 && x1 < x2)
    ensures PixelOffset(x1, y1, width) < PixelOffset(x2, y2, width)
  {
    if y1 < y2 {
      var d := y2 - y1 - 1;
      assert d * width >= 0;
      assert y2 * width == y1 * width + width + d * width by {
        assert y2 == y1 + 1 + d;
      }
    }
  }

  /** Offsets of the pixels of a width-wide screen are word aligned, distinct
      for distinct pixels, and increase in row-major order. */
  lemma PixelOffsetOrder(x1: int, y1: int, x2: int, y2: int, width: int)
    requires 0 <= x1 < width && 0 <= x2 < width
    ensures PixelOffset(x1, y1, width) % 4 == 0
    ensures (y1 < y2 || (y1 == y2 && x1 < x2)) ==> PixelOffset(x1, y1, width) < PixelOffset(x2, y2, width)
    ensures PixelOffset(x1, y1, width) == PixelOffset(x2, y2, width) <==> x1 == x2 && y1 == y2
  {
    if y1 < y2 || (y1 == y2 && x1 < x2) {
      RowMajorLess(x1, y1, x2, y2, width);
    }
    if y2 < y1 || (y2 == y1 && x2 < x1) {
      RowMajorLess(x2, y2, x1, y1, width);
    }
  }
}
