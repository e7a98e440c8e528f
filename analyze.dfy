/** Frame statistics over a sorted list of mask records (analyze_masks in
    analyze_masks.py). For every frame it records the number of dark pixels;
    for every frame after the first, also the size of the symmetric
    difference with the previous frame and the shift search's answer
    against the previous frame with radius 32. The floating-point
    overlap_frac is kept as the pair (bestOverlap, overlapDen). */
module MaskStats {
  import opened RunLength
  import opened PixelSets
  import opened ShiftSearch

  /** One per-frame record. `frame` is 1-based. */
  datatype FrameStat = FrameStat(frame: int, black: int, diff: int, bestDx: int, bestOverlap: int, overlapDen: int)

  /** Integer totals of the summary; the averages divide them by count and
      by max(1, count - 1). */
  datatype Summary = Summary(count: int, totalBlack: int, totalDiff: int, shiftMatches: int, width: int, height: int)

  /** NoMasks is the early return with status 1 when there is no file. */
  datatype Outcome = NoMasks | Report(frames: seq<FrameStat>, summary: Summary)

  function Max(a: int, b: int): int
  {
    if a >= b then a else b
  }

  /** overlap_frac >= 0.7, i.e. bestOverlap / overlapDen >= 7 / 10. */
  predicate IsShiftMatch(f: FrameStat)
  {
    10 * f.bestOverlap >= 7 * f.overlapDen
  }

  /** Pixels in exactly one of the two sets (Python's a ^ b). */
  function SymmetricDifference(a: set<int>, b: set<int>): set<int>
  {
    (a - b) + (b - a)
  }

  /** Record i (0-based) of the report: the first frame has diff = black and
      no shift; every later frame is compared with the frame just before it,
      using the width of the first record. */
  ghost predicate StatOf(masks: seq<Mask>, i: int, f: FrameStat)
    requires 0 <= i < |masks|
    requires |masks| >= 2 ==> masks[0].w > 0
  {
    var cur := Decode(masks[i]);
    && f.frame == i + 1
    && f.black == |cur|
    && (i == 0 ==> f.diff == f.black && f.bestDx == 0 && f.bestOverlap == 0 && f.overlapDen == 1)
    && (i > 0 ==>
          var prev := Decode(masks[i - 1]);
          && f.diff == |SymmetricDifference(prev, cur)|
          && IsBestShift(prev, cur, masks[0].w, StatsMaxShift, f.bestDx, f.bestOverlap)
          && f.overlapDen == Max(1, Max(|prev|, |cur|)))
  }

  /** Sum of the dark-pixel counts of all records. */
  function BlackTotal(fs: seq<FrameStat>): int
  {
    if fs == [] then 0 else BlackTotal(fs[..|fs| - 1]) + fs[|fs| - 1].black
  }

  /** Sum of the diffs of all records but the first. */
  function DiffTotal(fs: seq<FrameStat>): int
  {
    if |fs| <= 1 then 0 else DiffTotal(fs[..|fs| - 1]) + fs[|fs| - 1].diff
  }

  /** Number of records after the first that are shift matches. */
  function MatchCount(fs: seq<FrameStat>): int
  {
    if |fs| <= 1 then 0 else MatchCount(fs[..|fs| - 1]) + (if IsShiftMatch(fs[|fs| - 1]) then 1 else 0)
  }

  /** Extending the records by one updates the three totals the way the
      loop of analyze_masks does: the black count always, the diff and the
      match count only for frames after the first. */
  lemma TotalsAppend(fs: seq<FrameStat>, f: FrameStat)
    ensures BlackTotal(fs + [f]) == BlackTotal(fs) + f.black
    ensures DiffTotal(fs + [f]) == DiffTotal(fs) + (if fs == [] then 0 else f.diff)
    ensures MatchCount(fs + [f]) == MatchCount(fs) + (if fs != [] && IsShiftMatch(f) then 1 else 0)
  {
    assert (fs + [f])[..|fs|] == fs;
  }

  /** Appending the record of the next frame to correct records keeps them correct. */
  lemma StatsAppend(masks: seq<Mask>, frames: seq<FrameStat>, stat: FrameStat)
    requires |frames| < |masks| && (|masks| >= 2 ==> masks[0].w > 0)
    requires forall j {:trigger StatOf(masks, j, frames[j])} :: 0 <= j < |frames| ==> StatOf(masks, j, frames[j])
    requires StatOf(masks, |frames|, stat)
    ensures forall j {:trigger StatOf(masks, j, (frames + [stat])[j])} :: 0 <= j <= |frames| ==> StatOf(masks, j, (frames + [stat])[j])
  {
    forall j | 0 <= j <= |frames| ensures StatOf(masks, j, (frames + [stat])[j]) {
      if j < |frames| {
        assert (frames + [stat])[j] == frames[j];
      }
    }
  }

  /** The record of frame i, given the decoded frame and its predecessor. */
  method FrameRecord(masks: seq<Mask>, i: int, prev: set<int>, cur: set<int>) returns (stat: FrameStat)
    requires 0 <= i < |masks| && (|masks| >= 2 ==> masks[0].w > 0)
    requires cur == Decode(masks[i]) && (i > 0 ==> prev == Decode(masks[i - 1]))
    ensures StatOf(masks, i, stat)
  {
    var black := |cur|;
    if i == 0 {
      stat := FrameStat(1, black, black, 0, 0, 1);
    } else {
      var diff := |(prev - cur) + (cur - prev)|;
      var bestDx, bestOverlap := BestHorizontalShift(prev, cur, masks[0].w, StatsMaxShift);
      var den := Max(1, Max(|prev|, |cur|));
      stat := FrameStat(i + 1, black, diff, bestDx, bestOverlap, den);
    }
  }

  /** analyze_masks on already parsed records, without the JSON output. */
  method AnalyzeMasks(masks: seq<Mask>) returns (r: Outcome)
    requires |masks| >= 2 ==> masks[0].w > 0
    ensures r.NoMasks? <==> |masks| == 0
    ensures r.Report? ==> && |r.frames| == |masks|
                          && (forall i :: 0 <= i < |masks| ==> StatOf(masks, i, r.frames[i]))
                          && r.summary == Summary(|masks|, BlackTotal(r.frames), DiffTotal(r.frames),
                                                  MatchCount(r.frames), masks[0].w, masks[0].h)
  {
    if |masks| == 0 {
      return NoMasks;
    }
    var frames: seq<FrameStat> := [];
    var totalBlack, totalDiff, shiftMatches := 0, 0, 0;
    var w, h := masks[0].w, masks[0].h;
    var prev: set<int> := {};
    var i := 0;
    while i < |masks|
      invariant 0 <= i <= |masks| && |frames| == i
      invariant forall j {:trigger StatOf(masks, j, frames[j])} :: 0 <= j < i ==> StatOf(masks, j, frames[j])
      invariant i > 0 ==> prev == Decode(masks[i - 1])
      invariant totalBlack == BlackTotal(frames)
      invariant totalDiff == DiffTotal(frames)
      invariant shiftMatches == MatchCount(frames)
    {
      var wi, hi, cur := LoadRle(masks[i]);
      var stat := FrameRecord(masks, i, prev, cur);
      if i > 0 {
        totalDiff := totalDiff + stat.diff;
        if 10 * stat.bestOverlap >= 7 * stat.overlapDen {
          shiftMatches := shiftMatches + 1;
        }
      }
      TotalsAppend(frames, stat);
      StatsAppend(masks, frames, stat);
      frames := frames + [stat];
      totalBlack := totalBlack + stat.black;
      prev := cur;
      i := i + 1;
      assert prev == Decode(masks[i - 1]);
    }
    r := Report(frames, Summary(|masks|, totalBlack, totalDiff, shiftMatches, w, h));
  }

  /** Every record is well scaled: the shift lies within 32 columns, the
      overlap fraction lies in [0, 1] with a positive denominator, and the
      diff is non-negative. */
  lemma StatBounds(masks: seq<Mask>, i: int, f: FrameStat)
    requires 0 <= i < |masks| && (|masks| >= 2 ==> masks[0].w > 0)
    requires StatOf(masks, i, f)
    ensures -StatsMaxShift <= f.bestDx <= StatsMaxShift
    ensures 0 <= f.bestOverlap <= f.overlapDen && f.overlapDen >= 1
    ensures f.diff >= 0
  {
    if i > 0 {
      var prev, cur := Decode(masks[i - 1]), Decode(masks[i]);
      BestShiftBounds(prev, cur, masks[0].w, StatsMaxShift, f.bestDx, f.bestOverlap);
    }
  }

  /** At most one shift match per frame after the first. */
  lemma {:induction false} MatchCountBounds(fs: seq<FrameStat>)
    requires |fs| >= 1
    ensures 0 <= MatchCount(fs) <= |fs| - 1
  {
    if |fs| > 1 {
      MatchCountBounds(fs[..|fs| - 1]);
    }
  }

  /** A frame equal to the previous one has diff 0 and shift 0, and, when it
      has at least one dark pixel, counts as a shift match. */
  lemma RepeatedFrame(masks: seq<Mask>, i: int, f: FrameStat)
    requires 0 < i < |masks| && masks[0].w > 0
    requires StatOf(masks, i, f)
    requires Decode(masks[i]) == Decode(masks[i - 1])
    ensures f.diff == 0 && f.bestDx == 0
    ensures Decode(masks[i]) != {} ==> IsShiftMatch(f)
  {
    var s := Decode(masks[i]);
    assert SymmetricDifference(s, s) == {};
    SelfBestShift(s, masks[0].w, StatsMaxShift, f.bestDx, f.bestOverlap);
  }
}
