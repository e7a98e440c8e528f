/** Brute-force horizontal shift search (best_horizontal_shift, identical in
    emit_segments.py and analyze_masks.py apart from the default search
    radius). Pixels are linear indices p = y * w + x; for a candidate shift
    dx, every pixel of the current frame is moved to column x - dx of its own
    row (pixels leaving the row are dropped) and the pixels that land on the
    previous frame are counted. The first dx of the ascending scan that
    strictly improves the count wins, starting from (0, 0). */
module ShiftSearch {
  import opened IntSets

  /** Search radius used when aligning the frames of a segment. */
  const SegmentMaxShift := 64
  /** Search radius used by the frame statistics. */
  const StatsMaxShift := 32

  /** For w > 0, Euclidean division splits y * w + x back into row y and
      column x when 0 <= x < w (Python's // and % agree with it here). */
  lemma RowCol(w: int, y: int, x: int)
    requires w > 0 && 0 <= x < w
    ensures (y * w + x) / w == y && (y * w + x) % w == x
  {
    var q, r := (y * w + x) / w, (y * w + x) % w;
    assert (y - q) * w == r - x;
    assert y - q >= 1 ==> (y - q) * w >= 1 * w;
    assert y - q <= -1 ==> (q - y) * w >= 1 * w;
  }

  /** A subset is no larger than its superset. */
  lemma SubsetCard(a: set<int>, b: set<int>)
    requires a <= b
    ensures |a| <= |b|
  {
    assert b == a + (b - a);
  }

  /** The per-row comprehension of the source: the columns xs moved dx to
      the left, keeping those that stay inside [0, w). */
  function Shifted(xs: set<int>, dx: int, w: int): set<int>
  {
    set x | x in xs && 0 <= x - dx < w :: x - dx
  }

  /** Pixels of cur that, moved dx columns to the left inside their row,
      land on a pixel of prev. */
  function OverlapPixels(prev: set<int>, cur: set<int>, w: int, dx: int): set<int>
    requires w > 0
  {
    set p | p in cur && 0 <= p % w - dx < w && p - dx in prev
  }

  /** The overlap the search scores for shift dx. */
  function Overlap(prev: set<int>, cur: set<int>, w: int, dx: int): nat
    requires w > 0
  {
    |OverlapPixels(prev, cur, w, dx)|
  }

  /** The overlap never exceeds the size of either frame. */
  lemma OverlapBound(prev: set<int>, cur: set<int>, w: int, dx: int)
    requires w > 0
    ensures Overlap(prev, cur, w, dx) <= |cur|
    ensures Overlap(prev, cur, w, dx) <= |prev|
  {
    var o := OverlapPixels(prev, cur, w, dx);
    SubsetCard(o, cur);
    TranslateCard(o, dx);
    SubsetCard(Translate(o, dx), prev);
  }

  /** Columns occupied in row y. */
  function RowColumns(s: set<int>, w: int, y: int): set<int>
    requires w > 0
  {
    set p | p in s && p / w == y :: p % w
  }

  /** Rows with at least one pixel. */
  function RowsOf(s: set<int>, w: int): set<int>
    requires w > 0
  {
    set p | p in s :: p / w
  }

  /** `rows` maps each occupied row of s to its set of columns. */
  ghost predicate IsRowBuckets(rows: map<int, set<int>>, s: set<int>, w: int)
    requires w > 0
  {
    rows.Keys == RowsOf(s, w) && forall y :: y in rows ==> rows[y] == RowColumns(s, w, y)
  }

  /** Adding one pixel to a bucketed set adds its column to its row's bucket. */
  lemma BucketAdd(rows: map<int, set<int>>, s: set<int>, w: int, p: int)
    requires w > 0 && IsRowBuckets(rows, s, w)
    ensures IsRowBuckets(rows[p / w := (if p / w in rows then rows[p / w] else {}) + {p % w}], s + {p}, w)
  {
    var y := p / w;
    var rows' := rows[y := (if y in rows then rows[y] else {}) + {p % w}];
    assert RowsOf(s + {p}, w) == RowsOf(s, w) + {y};
    forall y' | y' in rows' ensures rows'[y'] == RowColumns(s + {p}, w, y') {
      if y' == y {
        if y !in rows {
          assert RowColumns(s, w, y) == {};
        }
        assert RowColumns(s + {p}, w, y) == RowColumns(s, w, y) + {p % w};
      } else {
        assert RowColumns(s + {p}, w, y') == RowColumns(s, w, y');
      }
    }
  }

  /** The dictionary-of-sets bucketing loop: row -> columns of s in that row. */
  method BucketRows(s: set<int>, w: int) returns (rows: map<int, set<int>>)
    requires w > 0
    ensures IsRowBuckets(rows, s, w)
  {
    rows := map[];
    var todo := s;
    while todo != {}
      invariant todo <= s
      invariant IsRowBuckets(rows, s - todo, w)
      decreases |todo|
    {
      NonEmptyHasMember(todo);
      var idx :| idx in todo;
      var y := idx / w;
      var x := idx % w;
      BucketAdd(rows, s - todo, w, idx);
      assert (s - todo) + {idx} == s - (todo - {idx});
      rows := rows[y := (if y in rows then rows[y] else {}) + {x}];
      todo := todo - {idx};
    }
    assert s - todo == s;
  }

  /** The overlapping pixels that lie in the rows ys. */
  function OverlapInRows(prev: set<int>, cur: set<int>, w: int, dx: int, ys: set<int>): set<int>
    requires w > 0
  {
    set p | p in OverlapPixels(prev, cur, w, dx) && p / w in ys
  }

  /** Every column where row y's shifted columns meet the previous frame's
      comes from an overlapping pixel of row y. */
  lemma RowOverlapCovers(prev: set<int>, cur: set<int>, w: int, dx: int, y: int)
    requires w > 0
    ensures Shifted(RowColumns(cur, w, y), dx, w) * RowColumns(prev, w, y)
            <= Translate(OverlapInRows(prev, cur, w, dx, {y}), y * w + dx)
  {
    var r := OverlapInRows(prev, cur, w, dx, {y});
    forall x | x in Shifted(RowColumns(cur, w, y), dx, w) * RowColumns(prev, w, y)
      ensures x in Translate(r, y * w + dx)
    {
      var x0 :| x0 in RowColumns(cur, w, y) && 0 <= x0 - dx < w && x == x0 - dx;
      var p :| p in cur && p / w == y && p % w == x0;
      var q :| q in prev && q / w == y && q % w == x;
      assert p == y * w + x0;
      assert q == y * w + x;
      assert p in r;
    }
  }

  /** Every overlapping pixel of row y gives a column where row y's shifted
      columns meet the previous frame's. */
  lemma RowOverlapWithin(prev: set<int>, cur: set<int>, w: int, dx: int, y: int)
    requires w > 0
    ensures Translate(OverlapInRows(prev, cur, w, dx, {y}), y * w + dx)
            <= Shifted(RowColumns(cur, w, y), dx, w) * RowColumns(prev, w, y)
  {
    var r := OverlapInRows(prev, cur, w, dx, {y});
    forall x | x in Translate(r, y * w + dx)
      ensures x in Shifted(RowColumns(cur, w, y), dx, w) * RowColumns(prev, w, y)
    {
      var p :| p in r && x == p - (y * w + dx);
      assert p == y * w + p % w;
      RowCol(w, y, x);
      assert p - dx == y * w + x;
      assert x in RowColumns(prev, w, y);
      assert p % w in RowColumns(cur, w, y);
    }
  }

  /** The contribution of row y: the source's |shifted & prev_xs| counts
      exactly the overlapping pixels of row y. */
  lemma RowOverlapCard(prev: set<int>, cur: set<int>, w: int, dx: int, y: int)
    requires w > 0
    ensures |OverlapInRows(prev, cur, w, dx, {y})| == |Shifted(RowColumns(cur, w, y), dx, w) * RowColumns(prev, w, y)|
  {
    var r := OverlapInRows(prev, cur, w, dx, {y});
    RowOverlapCovers(prev, cur, w, dx, y);
    RowOverlapWithin(prev, cur, w, dx, y);
    assert Shifted(RowColumns(cur, w, y), dx, w) * RowColumns(prev, w, y) == Translate(r, y * w + dx);
    TranslateCard(r, y * w + dx);
  }

  /** Adding one more row to the rows already summed adds that row's overlap. */
  lemma OverlapRowsAdd(prev: set<int>, cur: set<int>, w: int, dx: int, ys: set<int>, y: int)
    requires w > 0 && y !in ys
    ensures |OverlapInRows(prev, cur, w, dx, ys + {y})|
         == |OverlapInRows(prev, cur, w, dx, ys)| + |OverlapInRows(prev, cur, w, dx, {y})|
  {
    var a := OverlapInRows(prev, cur, w, dx, ys);
    var b := OverlapInRows(prev, cur, w, dx, {y});
    assert OverlapInRows(prev, cur, w, dx, ys + {y}) == a + b;
    assert a * b == {};
  }

  /** The inner loop of the search for one dx: sums, over the rows of the
      current frame, the size of its shifted columns meeting the previous
      frame's columns of the same row. */
  method OverlapAt(prevRows: map<int, set<int>>, curRows: map<int, set<int>>, w: int, dx: int,
                   ghost prev: set<int>, ghost cur: set<int>) returns (overlap: nat)
    requires w > 0 && IsRowBuckets(prevRows, prev, w) && IsRowBuckets(curRows, cur, w)
    ensures overlap == Overlap(prev, cur, w, dx)
  {
    overlap := 0;
    var todo := curRows.Keys;
    ghost var done: set<int> := {};
    while todo != {}
      invariant todo <= curRows.Keys && done == curRows.Keys - todo
      invariant overlap == |OverlapInRows(prev, cur, w, dx, done)|
      decreases |todo|
    {
      NonEmptyHasMember(todo);
      var y :| y in todo;
      var curXs := curRows[y];
      RowOverlapCard(prev, cur, w, dx, y);
      OverlapRowsAdd(prev, cur, w, dx, done, y);
      if y in prevRows && prevRows[y] != {} {
        var prevXs := prevRows[y];
        overlap := overlap + |Shifted(curXs, dx, w) * prevXs|;
      } else if y in prevRows {
        assert RowColumns(prev, w, y) == {};
      } else {
        assert RowColumns(prev, w, y) == {};
      }
      todo := todo - {y};
      done := done + {y};
    }
    assert OverlapInRows(prev, cur, w, dx, done) == OverlapPixels(prev, cur, w, dx);
  }

  /** (dx, ov) is what the ascending scan over [-maxShift, maxShift] keeps:
      ov is the largest overlap in the range, dx the first shift reaching it,
      and (0, 0) when no shift overlaps at all. */
  ghost predicate IsBestShift(prev: set<int>, cur: set<int>, w: int, maxShift: int, dx: int, ov: int)
    requires w > 0
  {
    && ov >= 0
    && (forall d :: -maxShift <= d <= maxShift ==> Overlap(prev, cur, w, d) <= ov)
    && (ov == 0 ==> dx == 0)
    && (ov > 0 ==> && -maxShift <= dx <= maxShift
                   && Overlap(prev, cur, w, dx) == ov
                   && forall d :: -maxShift <= d < dx ==> Overlap(prev, cur, w, d) < ov)
  }

  /** best_horizontal_shift: buckets both frames by row, then scans dx from
      -maxShift to maxShift and keeps a shift only on a strict improvement. */
  method BestHorizontalShift(prev: set<int>, cur: set<int>, w: int, maxShift: int) returns (bestDx: int, bestOverlap: nat)
    requires w > 0
    ensures IsBestShift(prev, cur, w, maxShift, bestDx, bestOverlap)
  {
    bestDx, bestOverlap := 0, 0;
    var prevRows := BucketRows(prev, w);
    var curRows := BucketRows(cur, w);
    var dx := -maxShift;
    while dx <= maxShift
      invariant -maxShift <= dx
      invariant forall d :: -maxShift <= d < dx ==> Overlap(prev, cur, w, d) <= bestOverlap
      invariant bestOverlap == 0 ==> bestDx == 0
      invariant bestOverlap > 0 ==> && -maxShift <= bestDx < dx <= maxShift + 1
                                    && Overlap(prev, cur, w, bestDx) == bestOverlap
                                    && forall d :: -maxShift <= d < bestDx ==> Overlap(prev, cur, w, d) < bestOverlap
      decreases maxShift - dx
    {
      var overlap := OverlapAt(prevRows, curRows, w, dx, prev, cur);
      if overlap > bestOverlap {
        bestOverlap := overlap;
        bestDx := dx;
      }
      dx := dx + 1;
    }
  }

  /** The search is a function of its inputs: two results that both satisfy
      the specification coincide. */
  lemma BestShiftUnique(prev: set<int>, cur: set<int>, w: int, maxShift: int, dx1: int, ov1: int, dx2: int, ov2: int)
    requires w > 0
    requires IsBestShift(prev, cur, w, maxShift, dx1, ov1)
    requires IsBestShift(prev, cur, w, maxShift, dx2, ov2)
    ensures dx1 == dx2 && ov1 == ov2
  {
    if ov1 > 0 && ov2 > 0 {
      assert ov1 == ov2;
      var o1, o2 := Overlap(prev, cur, w, dx1), Overlap(prev, cur, w, dx2);
      assert dx1 < dx2 ==> o1 < ov2;
      assert dx2 < dx1 ==> o2 < ov1;
    }
  }

  /** For a non-negative radius the shift stays within it, and the overlap
      is the one achieved at that shift, at most the size of either frame. */
  lemma BestShiftBounds(prev: set<int>, cur: set<int>, w: int, maxShift: int, dx: int, ov: int)
    requires w > 0 && maxShift >= 0
    requires IsBestShift(prev, cur, w, maxShift, dx, ov)
    ensures -maxShift <= dx <= maxShift
    ensures ov == Overlap(prev, cur, w, dx)
    ensures ov <= |prev| && ov <= |cur|
  {
    if ov == 0 {
      assert Overlap(prev, cur, w, 0) <= ov;
    }
    OverlapBound(prev, cur, w, dx);
  }

  /** The sign convention on a 4 x 1 frame: the reference lights columns 1 and
      2, the target columns 2 and 3; with radius 2 the search answers dx = 1
      (the target moved one column left) with both pixels overlapping. */
  lemma ShiftExample(dx: int, ov: int)
    requires IsBestShift({1, 2}, {2, 3}, 4, 2, dx, ov)
    ensures dx == 1 && ov == 2
  {
    assert OverlapPixels({1, 2}, {2, 3}, 4, -2) == {};
    assert OverlapPixels({1, 2}, {2, 3}, 4, -1) == {};
    assert OverlapPixels({1, 2}, {2, 3}, 4, 0) == {2};
    assert OverlapPixels({1, 2}, {2, 3}, 4, 1) == {2, 3};
    assert OverlapPixels({1, 2}, {2, 3}, 4, 2) == {3};
    assert Overlap({1, 2}, {2, 3}, 4, 1) == 2;
  }

  /** Moving a non-empty frame onto itself by any d other than 0 loses its
      extreme pixel on the side it moves away from. */
  lemma SelfOverlapLess(s: set<int>, w: int, d: int)
    requires w > 0 && s != {}
    ensures d != 0 ==> Overlap(s, s, w, d) < |s|
  {
    var o := OverlapPixels(s, s, w, d);
    var e: int;
    if d > 0 {
      e := HasMinimum(s);
    } else {
      e := HasMaximum(s);
    }
    if d != 0 {
      assert e !in o;
      SubsetCard(o, s - {e});
    }
  }

  /** Comparing a frame with itself: shift 0 overlaps every pixel and any
      other shift overlaps fewer, so the search answers (0, |s|). */
  lemma SelfBestShift(s: set<int>, w: int, maxShift: int, dx: int, ov: int)
    requires w > 0 && maxShift >= 0
    requires IsBestShift(s, s, w, maxShift, dx, ov)
    ensures dx == 0 && ov == |s|
  {
    assert OverlapPixels(s, s, w, 0) == s;
    assert Overlap(s, s, w, 0) <= ov;
    BestShiftBounds(s, s, w, maxShift, dx, ov);
    if s != {} {
      SelfOverlapLess(s, w, dx);
    }
  }
}
