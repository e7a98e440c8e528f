/** Row run-length encoding of a luminance frame (process_frames.py,
    mask_rle_from_image). A pixel is dark ("on") when its luminance is
    strictly below the threshold; each row becomes the list of its maximal
    dark runs. The image decoder is not modelled: the frame arrives as a
    grid `pix` with `pix[y][x]` the luminance of column x in row y. */
module RunLength {

  /** A run of dark pixels: columns start .. start + length - 1 of one row. */
  datatype Run = Run(start: int, length: int)
  {
    function End(): int { start + length }
    predicate Covers(x: int) { start <= x < start + length }
  }

  /** A mask record as stored per frame: width, height and one run list per row. */
  datatype Mask = Mask(w: int, h: int, rows: seq<seq<Run>>)

  /** `pix` has h rows of w luminance values each. */
  predicate IsGrid(pix: seq<seq<int>>, w: nat, h: nat)
  {
    |pix| == h && forall y :: 0 <= y < h ==> |pix[y]| == w
  }

  /** Some run of the row contains column x. */
  predicate Covered(runs: seq<Run>, x: int)
  {
    exists k :: 0 <= k < |runs| && runs[k].Covers(x)
  }

  /** Runs are non-empty, inside [0, w), and in increasing order with at
      least one column between consecutive runs. */
  predicate WellFormedRow(runs: seq<Run>, w: int)
  {
    && (forall k :: 0 <= k < |runs| ==> 0 <= runs[k].start && 1 <= runs[k].length && runs[k].End() <= w)
    && (forall k :: 0 <= k < |runs| - 1 ==> runs[k].End() < runs[k + 1].start)
  }

  /** No run can be extended: the column before it and the column after it
      (where they exist) are light. */
  predicate MaximalRuns(runs: seq<Run>, row: seq<int>, threshold: int)
  {
    && (forall k :: 0 <= k < |runs| && 0 < runs[k].start <= |row| ==> row[runs[k].start - 1] >= threshold)
    && (forall k :: 0 <= k < |runs| && 0 <= runs[k].End() < |row| ==> row[runs[k].End()] >= threshold)
  }

  /** `runs` is the run-length encoding of `row`: well formed, maximal, and
      covering exactly the dark columns. */
  predicate RowEncodes(runs: seq<Run>, row: seq<int>, threshold: int)
  {
    && WellFormedRow(runs, |row|)
    && MaximalRuns(runs, row, threshold)
    && forall x {:trigger Covered(runs, x)} :: 0 <= x < |row| ==> (Covered(runs, x) <==> row[x] < threshold)
  }

  /** Number of dark pixels among the first x columns of a row. */
  function DarkInRow(row: seq<int>, x: int, threshold: int): nat
    requires 0 <= x <= |row|
  {
    if x == 0 then 0
    else DarkInRow(row, x - 1, threshold) + (if row[x - 1] < threshold then 1 else 0)
  }

  /** Number of dark pixels in the first y rows of a grid. */
  function DarkInGrid(pix: seq<seq<int>>, y: int, threshold: int): nat
    requires 0 <= y <= |pix|
  {
    if y == 0 then 0
    else DarkInGrid(pix, y - 1, threshold) + DarkInRow(pix[y - 1], |pix[y - 1]|, threshold)
  }

  /** Sum of the run lengths of a row. */
  function RunLengths(runs: seq<Run>): int
  {
    if runs == [] then 0
    else RunLengths(runs[..|runs| - 1]) + runs[|runs| - 1].length
  }

  /** Sum of the run lengths of all rows. */
  function TotalRunLength(rows: seq<seq<Run>>): int
  {
    if rows == [] then 0
    else TotalRunLength(rows[..|rows| - 1]) + RunLengths(rows[|rows| - 1])
  }

  /** One more row adds its run lengths to the total. */
  lemma TotalAppend(rows: seq<seq<Run>>, runs: seq<Run>)
    ensures TotalRunLength(rows + [runs]) == TotalRunLength(rows) + RunLengths(runs)
  {
    assert (rows + [runs])[..|rows|] == rows;
  }

  /** mask_rle_from_image after the image has been read: scans every row left
      to right, skipping light pixels and emitting one run per stretch of
      dark pixels, and counts the dark pixels in `black`. */
  method MaskRleFromGrid(pix: seq<seq<int>>, w: nat, h: nat, threshold: int) returns (m: Mask, black: int)
    requires IsGrid(pix, w, h)
    ensures m.w == w && m.h == h && |m.rows| == h
    ensures forall y :: 0 <= y < h ==> RowEncodes(m.rows[y], pix[y], threshold)
    ensures black == TotalRunLength(m.rows)
    ensures black == DarkInGrid(pix, h, threshold)
  {
    var rows: seq<seq<Run>> := [];
    black := 0;
    var y := 0;
    while y < h
      invariant 0 <= y <= h && |rows| == y
      invariant forall j :: 0 <= j < y ==> RowEncodes(rows[j], pix[j], threshold)
      invariant black == TotalRunLength(rows)
      invariant black == DarkInGrid(pix, y, threshold)
    {
      var runs := ScanRow(pix[y], w, threshold);
      black := black + RunLengths(runs);
      TotalAppend(rows, runs);
      var rows' := rows + [runs];
      forall j | 0 <= j <= y ensures RowEncodes(rows'[j], pix[j], threshold) {
        assert j < y ==> rows'[j] == rows[j];
      }
      rows := rows';
      y := y + 1;
    }
    m := Mask(w, h, rows);
  }

  /** The body of the row loop of mask_rle_from_image: the runs of one row. */
  method ScanRow(row: seq<int>, w: nat, threshold: int) returns (runs: seq<Run>)
    requires |row| == w
    ensures RowEncodes(runs, row, threshold)
    ensures RunLengths(runs) == DarkInRow(row, w, threshold)
  {
    runs := [];
    var x := 0;
    while x < w
      invariant 0 <= x <= w
      invariant RunsBefore(runs, row, threshold, x)
      invariant CoversDarkBelow(runs, row, threshold, x)
      invariant RunLengths(runs) == DarkInRow(row, x, threshold)
    {
      var start := SkipLight(row, x, threshold);
      if start >= w {
        ScanFinished(runs, row, threshold, x);
        x := start;
        break;
      }
      var stop := TakeDark(row, start, threshold);
      StepRunsBefore(runs, row, threshold, x, start, stop);
      StepCoversDark(runs, row, threshold, x, start, stop);
      assert (runs + [Run(start, stop - start)])[..|runs|] == runs;
      runs := runs + [Run(start, stop - start)];
      x := stop;
    }
  }

  /** The first inner loop: advance past light pixels. */
  method SkipLight(row: seq<int>, from: int, threshold: int) returns (x: int)
    requires 0 <= from <= |row|
    ensures from <= x <= |row|
    ensures forall i :: from <= i < x ==> row[i] >= threshold
    ensures x == |row| || row[x] < threshold
    ensures DarkInRow(row, x, threshold) == DarkInRow(row, from, threshold)
  {
    x := from;
    while x < |row| && row[x] >= threshold
      invariant from <= x <= |row|
      invariant forall i :: from <= i < x ==> row[i] >= threshold
      invariant DarkInRow(row, x, threshold) == DarkInRow(row, from, threshold)
    {
      x := x + 1;
    }
  }

  /** The second inner loop: advance past dark pixels. */
  method TakeDark(row: seq<int>, from: int, threshold: int) returns (x: int)
    requires 0 <= from <= |row|
    ensures from <= x <= |row|
    ensures forall i :: from <= i < x ==> row[i] < threshold
    ensures x == |row| || row[x] >= threshold
    ensures DarkInRow(row, x, threshold) == DarkInRow(row, from, threshold) + (x - from)
  {
    x := from;
    while x < |row| && row[x] < threshold
      invariant from <= x <= |row|
      invariant forall i :: from <= i < x ==> row[i] < threshold
      invariant DarkInRow(row, x, threshold) == DarkInRow(row, from, threshold) + (x - from)
    {
      x := x + 1;
    }
  }

  /** Shape invariant of the row scan once columns [0, x) have been read: the
      runs so far are well formed and maximal and end exactly at x (or there
      are none and x is 0). */
  ghost predicate RunsBefore(runs: seq<Run>, row: seq<int>, threshold: int, x: int)
  {
    && (forall k :: 0 <= k < |runs| ==> 0 <= runs[k].start && 1 <= runs[k].length && runs[k].End() <= x)
    && (forall k :: 0 <= k < |runs| - 1 ==> runs[k].End() < runs[k + 1].start)
    && MaximalRuns(runs, row, threshold)
    && x == (if runs == [] then 0 else runs[|runs| - 1].End())
  }

  /** Coverage invariant of the row scan: below x, the runs cover exactly the
      dark columns. */
  ghost predicate CoversDarkBelow(runs: seq<Run>, row: seq<int>, threshold: int, x: int)
    requires 0 <= x <= |row|
  {
    forall i {:trigger Covered(runs, i)} :: 0 <= i < x ==> (Covered(runs, i) <==> row[i] < threshold)
  }

  /** The column where the last run ends is light. */
  lemma LightAfterRuns(runs: seq<Run>, row: seq<int>, threshold: int, x0: int)
    requires RunsBefore(runs, row, threshold, x0)
    ensures runs != [] && x0 < |row| ==> row[x0] >= threshold
  {
    if runs != [] {
      var k := |runs| - 1;
      assert runs[k].End() == x0;
    }
  }

  /** Appending the run [start, x) after runs ending at x0 <= start keeps
      the runs well formed, ordered and ending at x. */
  lemma StepRunsShape(runs: seq<Run>, x0: int, start: int, x: int)
    requires forall k :: 0 <= k < |runs| ==> 0 <= runs[k].start && 1 <= runs[k].length && runs[k].End() <= x0
    requires forall k :: 0 <= k < |runs| - 1 ==> runs[k].End() < runs[k + 1].start
    requires runs != [] ==> runs[|runs| - 1].End() == x0 < start
    requires 0 <= x0 <= start < x
    ensures var runs' := runs + [Run(start, x - start)];
            && (forall k :: 0 <= k < |runs'| ==> 0 <= runs'[k].start && 1 <= runs'[k].length && runs'[k].End() <= x)
            && (forall k :: 0 <= k < |runs'| - 1 ==> runs'[k].End() < runs'[k + 1].start)
  {
    var runs' := runs + [Run(start, x - start)];
    forall k | 0 <= k < |runs'| - 1 ensures runs'[k].End() < runs'[k + 1].start {
      assert runs'[k] == runs[k];
      if k + 1 < |runs| {
        assert runs'[k + 1] == runs[k + 1];
      }
    }
  }

  /** Appending a run that starts after a light column (or at 0) and ends
      before a light column (or at the row end) keeps every run maximal. */
  lemma StepRunsMaximal(runs: seq<Run>, row: seq<int>, threshold: int, start: int, x: int)
    requires MaximalRuns(runs, row, threshold)
    requires 0 <= start < x <= |row|
    requires start > 0 ==> row[start - 1] >= threshold
    requires x == |row| || row[x] >= threshold
    ensures MaximalRuns(runs + [Run(start, x - start)], row, threshold)
  {
    var runs' := runs + [Run(start, x - start)];
    forall k | 0 <= k < |runs'|
      ensures 0 < runs'[k].start <= |row| ==> row[runs'[k].start - 1] >= threshold
      ensures 0 <= runs'[k].End() < |row| ==> row[runs'[k].End()] >= threshold
    {
      if k < |runs| {
        assert runs'[k] == runs[k];
      }
    }
  }

  /** Skipping light columns [x0, start) and then taking the dark columns
      [start, x) up to a light column or the row end appends one maximal run. */
  lemma StepRunsBefore(runs: seq<Run>, row: seq<int>, threshold: int, x0: int, start: int, x: int)
    requires RunsBefore(runs, row, threshold, x0)
    requires 0 <= x0 <= start < x <= |row|
    requires forall i :: x0 <= i < start ==> row[i] >= threshold
    requires row[start] < threshold
    requires x == |row| || row[x] >= threshold
    ensures RunsBefore(runs + [Run(start, x - start)], row, threshold, x)
  {
    LightAfterRuns(runs, row, threshold, x0);
    assert start > x0 ==> row[start - 1] >= threshold;
    assert start == x0 ==> runs == [] && start == 0;
    StepRunsShape(runs, x0, start, x);
    StepRunsMaximal(runs, row, threshold, start, x);
  }

  /** The appended run covers exactly the new dark columns [start, x). */
  lemma StepCoversDark(runs: seq<Run>, row: seq<int>, threshold: int, x0: int, start: int, x: int)
    requires RunsBefore(runs, row, threshold, x0) && 0 <= x0 <= |row|
    requires CoversDarkBelow(runs, row, threshold, x0)
    requires x0 <= start < x <= |row|
    requires forall i :: x0 <= i < start ==> row[i] >= threshold
    requires forall i :: start <= i < x ==> row[i] < threshold
    ensures CoversDarkBelow(runs + [Run(start, x - start)], row, threshold, x)
  {
    var r := Run(start, x - start);
    var runs' := runs + [r];
    forall i | 0 <= i < x ensures Covered(runs', i) <==> row[i] < threshold {
      if i < start {
        if Covered(runs', i) {
          var k :| 0 <= k < |runs'| && runs'[k].Covers(i);
          assert k < |runs| && runs[k].Covers(i);
        }
        if Covered(runs, i) {
          var k :| 0 <= k < |runs| && runs[k].Covers(i);
          assert runs'[k].Covers(i);
        }
      } else {
        assert runs'[|runs|].Covers(i);
      }
    }
  }

  /** When only light columns remain, the runs emitted so far encode the row. */
  lemma ScanFinished(runs: seq<Run>, row: seq<int>, threshold: int, x0: int)
    requires 0 <= x0 <= |row| && RunsBefore(runs, row, threshold, x0)
    requires CoversDarkBelow(runs, row, threshold, x0)
    requires forall i :: x0 <= i < |row| ==> row[i] >= threshold
    ensures RowEncodes(runs, row, threshold)
  {
    forall i | x0 <= i < |row| ensures !Covered(runs, i) {
    }
  }

  /** A row with no dark pixel encodes to no run. */
  lemma AllLightRow(runs: seq<Run>, row: seq<int>, threshold: int)
    requires RowEncodes(runs, row, threshold)
    requires forall x :: 0 <= x < |row| ==> row[x] >= threshold
    ensures runs == []
  {
    if runs != [] {
      var s := runs[0].start;
      assert Covered(runs, s);
    }
  }

  /** A non-empty row of dark pixels encodes to the single run [0, w). */
  lemma AllDarkRow(runs: seq<Run>, row: seq<int>, threshold: int)
    requires RowEncodes(runs, row, threshold)
    requires |row| > 0 && forall x :: 0 <= x < |row| ==> row[x] < threshold
    ensures runs == [Run(0, |row|)]
  {
    assert Covered(runs, 0);
    assert runs[0].start == 0;
    assert runs[0].End() == |row|;
    if 1 < |runs| && runs[0].End() < runs[1].start {
      assert false;
    }
    assert runs == [runs[0]];
  }
}
