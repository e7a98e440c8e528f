/** Decoding a mask record into the set of linear indices of its dark pixels
    (load_rle, of which emit_segments.py, analyze_masks.py and
    emit_bitpacked.py each hold an identical copy). Pixel (x, y) has linear
    index y * w + x. */
module PixelSets {
  import opened RunLength

  /** Linear (row-major) index of column x of row y. */
  function Index(w: int, y: int, x: int): int
  {
    y * w + x
  }

  /** Linear indices of columns lo .. hi - 1 of row y. */
  function Columns(w: int, y: int, lo: int, hi: int): set<int>
  {
    set x | lo <= x < hi :: Index(w, y, x)
  }

  /** Linear indices of the columns of run r in row y. */
  function RunPixels(w: int, y: int, r: Run): set<int>
  {
    Columns(w, y, r.start, r.start + r.length)
  }

  /** Linear indices covered by the first n runs of row y. */
  function RowPixels(w: int, y: int, runs: seq<Run>, n: int): set<int>
    requires 0 <= n <= |runs|
  {
    if n == 0 then {} else RowPixels(w, y, runs, n - 1) + RunPixels(w, y, runs[n - 1])
  }

  /** Linear indices covered by the first n rows. */
  function MaskPixels(w: int, rows: seq<seq<Run>>, n: int): set<int>
    requires 0 <= n <= |rows|
  {
    if n == 0 then {} else MaskPixels(w, rows, n - 1) + RowPixels(w, n - 1, rows[n - 1], |rows[n - 1]|)
  }

  /** The pixel set a mask record stands for. */
  function Decode(m: Mask): set<int>
  {
    MaskPixels(m.w, m.rows, |m.rows|)
  }

  /** Column x of row y lies in run k of that row. */
  ghost predicate InRun(rows: seq<seq<Run>>, y: int, k: int, x: int)
  {
    0 <= y < |rows| && 0 <= k < |rows[y]| && rows[y][k].Covers(x)
  }

  /** load_rle after the JSON has been parsed: adds y * w + x for every
      column x of every run of every row y. A run with a length of zero or
      less adds nothing, and nothing checks that a run stays inside its row. */
  method LoadRle(m: Mask) returns (w: int, h: int, s: set<int>)
    ensures w == m.w && h == m.h
    ensures s == Decode(m)
  {
    w, h := m.w, m.h;
    s := {};
    var y := 0;
    while y < |m.rows|
      invariant 0 <= y <= |m.rows|
      invariant s == MaskPixels(w, m.rows, y)
    {
      var runs := m.rows[y];
      var k := 0;
      while k < |runs|
        invariant 0 <= k <= |runs|
        invariant s == MaskPixels(w, m.rows, y) + RowPixels(w, y, runs, k)
      {
        var start, length := runs[k].start, runs[k].length;
        var x := start;
        while x < start + length
          invariant start <= x && (x <= start + length || x == start)
          invariant s == MaskPixels(w, m.rows, y) + RowPixels(w, y, runs, k) + Columns(w, y, start, x)
        {
          assert Columns(w, y, start, x + 1) == Columns(w, y, start, x) + {Index(w, y, x)};
          s := s + {y * w + x};
          x := x + 1;
        }
        assert Columns(w, y, start, x) == RunPixels(w, y, runs[k]);
        k := k + 1;
      }
      y := y + 1;
    }
  }

  /** Membership in the first n runs of a row, spelled out. */
  lemma {:induction false} RowPixelsMembership(w: int, rows: seq<seq<Run>>, y: int, n: int, p: int)
    requires 0 <= y < |rows| && 0 <= n <= |rows[y]|
    ensures p in RowPixels(w, y, rows[y], n) <==> exists k, x :: k < n && InRun(rows, y, k, x) && p == y * w + x
  {
    if n > 0 {
      RowPixelsMembership(w, rows, y, n - 1, p);
      if p in RunPixels(w, y, rows[y][n - 1]) {
        var x :| rows[y][n - 1].Covers(x) && p == y * w + x;
        assert InRun(rows, y, n - 1, x);
      }
      if exists k, x :: k < n && InRun(rows, y, k, x) && p == y * w + x {
        var k, x :| k < n && InRun(rows, y, k, x) && p == y * w + x;
        if k == n - 1 {
          assert p == Index(w, y, x);
          assert p in RunPixels(w, y, rows[y][n - 1]);
        }
      }
    }
  }

  /** Membership in the first n rows, spelled out. */
  lemma {:induction false} MaskPixelsMembership(w: int, rows: seq<seq<Run>>, n: int, p: int)
    requires 0 <= n <= |rows|
    ensures p in MaskPixels(w, rows, n) <==> exists y, k, x :: y < n && InRun(rows, y, k, x) && p == y * w + x
  {
    if n > 0 {
      MaskPixelsMembership(w, rows, n - 1, p);
      RowPixelsMembership(w, rows, n - 1, |rows[n - 1]|, p);
      if exists y, k, x :: y < n && InRun(rows, y, k, x) && p == y * w + x {
        var y, k, x :| y < n && InRun(rows, y, k, x) && p == y * w + x;
        if y < n - 1 {
          assert p in MaskPixels(w, rows, n - 1);
        } else {
          assert p in RowPixels(w, n - 1, rows[n - 1], |rows[n - 1]|);
        }
      }
    }
  }

  /** The decoded set is exactly the union, over rows y and runs
      (start, length) of row y, of { y * w + x : start <= x < start + length }. */
  lemma DecodeMembership(m: Mask, p: int)
    ensures p in Decode(m) <==> exists y, k, x :: InRun(m.rows, y, k, x) && p == y * m.w + x
  {
    MaskPixelsMembership(m.w, m.rows, |m.rows|, p);
  }

  /** Row-major linear indices of an in-bounds pixel stay below w * h. */
  lemma RowMajorBound(w: int, h: int, y: int, x: int)
    requires 0 <= y < h && 0 <= x < w
    ensures 0 <= y * w + x < w * h
  {
    assert y * w <= (h - 1) * w;
  }

  /** With h rows and every non-empty run inside its row, every decoded
      index lies in [0, w * h); the runs may overlap, touch or come in any
      order. */
  lemma DecodeInBounds(m: Mask)
    requires |m.rows| == m.h
    requires forall y, k :: 0 <= y < m.h && 0 <= k < |m.rows[y]| && m.rows[y][k].length > 0 ==>
               0 <= m.rows[y][k].start && m.rows[y][k].End() <= m.w
    ensures forall p :: p in Decode(m) ==> 0 <= p < m.w * m.h
  {
    forall p | p in Decode(m) ensures 0 <= p < m.w * m.h {
      DecodeMembership(m, p);
      var y, k, x :| InRun(m.rows, y, k, x) && p == y * m.w + x;
      RowMajorBound(m.w, m.h, y, x);
    }
  }

  /** Linear indices of the pixels of a grid whose luminance is below the threshold. */
  function DarkPixels(pix: seq<seq<int>>, w: int, threshold: int): set<int>
  {
    set y, x | 0 <= y < |pix| && 0 <= x < |pix[y]| && pix[y][x] < threshold :: y * w + x
  }

  /** Round trip: decoding the run-length encoding of every row of a grid
      gives exactly the set of pixels below the threshold. */
  lemma DecodeOfEncoded(pix: seq<seq<int>>, threshold: int, m: Mask)
    requires m.w >= 0 && m.h >= 0 && IsGrid(pix, m.w, m.h) && |m.rows| == m.h
    requires forall y :: 0 <= y < m.h ==> RowEncodes(m.rows[y], pix[y], threshold)
    ensures Decode(m) == DarkPixels(pix, m.w, threshold)
  {
    forall p | p in Decode(m) ensures p in DarkPixels(pix, m.w, threshold) {
      DecodeMembership(m, p);
      var y, k, x :| InRun(m.rows, y, k, x) && p == y * m.w + x;
      assert RowEncodes(m.rows[y], pix[y], threshold);
      assert Covered(m.rows[y], x);
      assert 0 <= x < |pix[y]|;
    }
    forall p | p in DarkPixels(pix, m.w, threshold) ensures p in Decode(m) {
      var y, x :| 0 <= y < |pix| && 0 <= x < |pix[y]| && pix[y][x] < threshold && p == y * m.w + x;
      assert RowEncodes(m.rows[y], pix[y], threshold);
      assert Covered(m.rows[y], x);
      var k :| 0 <= k < |m.rows[y]| && m.rows[y][k].Covers(x);
      assert InRun(m.rows, y, k, x);
      DecodeMembership(m, p);
    }
  }
}
