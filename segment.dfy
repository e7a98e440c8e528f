/** The computational part of the segment encoder (emit_segment in
    emit_segments.py, lines 71-136) and the chunking of the frame list into
    segments (main, lines 276-279). Frames are pixel sets of linear indices
    y * w + x, as load_rle returns them. Every frame is aligned to frame 0
    by the shift search, a consensus "base" set is taken over the aligned
    frames, and each frame is then stored as the base moved back by its
    shift plus additions minus removals, in compressed-sparse-row (CSR)
    tables: one concatenated data list and per-frame start index and count. */
module Segments {
  import opened IntSets
  import opened Sequences
  import opened ShiftSearch

  /** The pixels of s moved d columns to the right inside their own row;
      pixels that would leave the row are dropped. Alignment moves a frame
      by -dx, and the base is moved back by +dx. */
  function Moved(s: set<int>, w: int, d: int): set<int>
    requires w > 0
  {
    set p | p in s && 0 <= p % w + d < w :: p + d
  }

  /** Moving by 0 keeps every pixel, so the reference frame is its own
      aligned set. */
  lemma MovedZero(s: set<int>, w: int)
    requires w > 0
    ensures Moved(s, w, 0) == s
  {
    forall p | p in s ensures p in Moved(s, w, 0) {
      assert 0 <= p % w + 0 < w && p == p + 0;
    }
  }

  /** Moving one more pixel adds its image when it stays in its row. */
  lemma MovedAdd(a: set<int>, w: int, d: int, p: int)
    requires w > 0
    ensures Moved(a + {p}, w, d) == Moved(a, w, d) + (if 0 <= p % w + d < w then {p + d} else {})
  {
  }

  /** The per-pixel loop that moves a set: y = idx // w, x = idx % w, and
      y * w + (x + d) is kept when x + d stays inside [0, w). */
  method MoveSet(s: set<int>, w: int, d: int) returns (r: set<int>)
    requires w > 0
    ensures r == Moved(s, w, d)
  {
    r := {};
    var todo := s;
    while todo != {}
      invariant todo <= s
      invariant r == Moved(s - todo, w, d)
      decreases |todo|
    {
      NonEmptyHasMember(todo);
      var idx :| idx in todo;
      var y := idx / w;
      var x := idx % w;
      var x2 := x + d;
      MovedAdd(s - todo, w, d, idx);
      assert (s - todo) + {idx} == s - (todo - {idx});
      if 0 <= x2 < w {
        assert y * w + x2 == idx + d;
        r := r + {y * w + x2};
      }
      todo := todo - {idx};
    }
    assert s - todo == s;
  }

  /** `shifts` is what the alignment loop stores: one entry per frame, 0 for
      the reference frame and, for every other frame, the shift search's
      answer for (frame 0, frame i) with radius 64. */
  ghost predicate IsAlignment(frames: seq<set<int>>, w: int, shifts: seq<int>)
    requires w > 0
  {
    && |frames| >= 1 && |shifts| == |frames| && shifts[0] == 0
    && forall i :: 1 <= i < |frames| ==> IsShiftOf(frames[0], frames[i], w, shifts[i])
  }

  /** dx is the shift search's answer for (ref, cur) with radius 64. */
  ghost predicate IsShiftOf(ref: set<int>, cur: set<int>, w: int, dx: int)
    requires w > 0
  {
    exists ov :: IsBestShift(ref, cur, w, SegmentMaxShift, dx, ov)
  }

  /** Each frame moved by minus its shift: the frames in the reference's coordinates. */
  function AlignedSets(frames: seq<set<int>>, w: int, shifts: seq<int>): seq<set<int>>
    requires w > 0 && |shifts| == |frames|
  {
    seq(|frames|, i requires 0 <= i < |frames| => Moved(frames[i], w, -shifts[i]))
  }

  /** The alignment loop: every frame after the first is compared with the
      first, its shift recorded, and its pixels moved into the reference's
      coordinates. */
  method AlignFrames(frames: seq<set<int>>, w: int) returns (shifts: seq<int>, aligned: seq<set<int>>)
    requires |frames| >= 1 && w > 0
    ensures IsAlignment(frames, w, shifts)
    ensures aligned == AlignedSets(frames, w, shifts)
  {
    var n := |frames|;
    var ref := frames[0];
    shifts := seq(n, _ => 0);
    aligned := [ref];
    MovedZero(ref, w);
    ghost var overlaps: seq<int> := seq(n, _ => 0);
    var i := 1;
    while i < n
      invariant 1 <= i <= n && |shifts| == n && |overlaps| == n && |aligned| == i && shifts[0] == 0
      invariant forall j :: 1 <= j < i ==>
                  IsBestShift(frames[0], frames[j], w, SegmentMaxShift, shifts[j], overlaps[j])
      invariant forall j :: 0 <= j < i ==> aligned[j] == Moved(frames[j], w, -shifts[j])
    {
      var dx, overlap := BestHorizontalShift(ref, frames[i], w, SegmentMaxShift);
      shifts := shifts[i := dx];
      overlaps := overlaps[i := overlap];
      var s := MoveSet(frames[i], w, -dx);
      aligned := aligned + [s];
      i := i + 1;
    }
    forall j | 1 <= j < n ensures IsShiftOf(frames[0], frames[j], w, shifts[j]) {
      assert IsBestShift(frames[0], frames[j], w, SegmentMaxShift, shifts[j], overlaps[j]);
    }
  }

  /** Every shift of an alignment lies within the search radius. */
  lemma AlignmentBounds(frames: seq<set<int>>, w: int, shifts: seq<int>)
    requires w > 0 && IsAlignment(frames, w, shifts)
    ensures forall i :: 0 <= i < |shifts| ==> -SegmentMaxShift <= shifts[i] <= SegmentMaxShift
  {
    forall i | 1 <= i < |shifts| ensures -SegmentMaxShift <= shifts[i] <= SegmentMaxShift {
      var ov :| IsBestShift(frames[0], frames[i], w, SegmentMaxShift, shifts[i], ov);
      BestShiftBounds(frames[0], frames[i], w, SegmentMaxShift, shifts[i], ov);
    }
  }

  /** Number of the sets that contain p. */
  function Count(sets: seq<set<int>>, p: int): nat
  {
    if sets == [] then 0
    else Count(sets[..|sets| - 1], p) + (if p in sets[|sets| - 1] then 1 else 0)
  }

  /** Union of the sets. */
  function UnionAll(sets: seq<set<int>>): set<int>
  {
    if sets == [] then {} else UnionAll(sets[..|sets| - 1]) + sets[|sets| - 1]
  }

  /** p occurs somewhere exactly when its count is positive, and no count
      exceeds the number of sets. */
  lemma {:induction false} CountFacts(sets: seq<set<int>>, p: int)
    ensures Count(sets, p) >= 1 <==> p in UnionAll(sets)
    ensures Count(sets, p) <= |sets|
    decreases |sets|
  {
    if sets != [] {
      CountFacts(sets[..|sets| - 1], p);
    }
  }

  /** A pixel in every set is counted once per set. */
  lemma {:induction false} CountEverywhere(sets: seq<set<int>>, p: int)
    requires forall i :: 0 <= i < |sets| ==> p in sets[i]
    ensures Count(sets, p) == |sets|
    decreases |sets|
  {
    if sets != [] {
      CountEverywhere(sets[..|sets| - 1], p);
    }
  }

  /** The inner frequency loop for one set: every member's count goes up by
      one and a member not yet in the table enters it with count 1. */
  method AddOccurrences(freq: map<int, int>, s: set<int>) returns (freq': map<int, int>)
    ensures forall p :: p in freq' <==> p in freq || p in s
    ensures forall p :: p in freq' ==>
              freq'[p] == (if p in freq then freq[p] else 0) + (if p in s then 1 else 0)
  {
    freq' := freq;
    var todo := s;
    while todo != {}
      invariant todo <= s
      invariant forall p :: p in freq' <==> p in freq || (p in s && p !in todo)
      invariant forall p :: p in freq' ==>
                  freq'[p] == (if p in freq then freq[p] else 0) + (if p in s && p !in todo then 1 else 0)
      decreases |todo|
    {
      NonEmptyHasMember(todo);
      var idx :| idx in todo;
      freq' := freq'[idx := (if idx in freq' then freq'[idx] else 0) + 1];
      todo := todo - {idx};
    }
  }

  /** The frequency table over the aligned sets: its keys are the pixels
      occurring at least once, each mapped to the number of sets holding it. */
  method PixelFrequency(sets: seq<set<int>>) returns (freq: map<int, int>)
    ensures forall p :: p in freq <==> p in UnionAll(sets)
    ensures forall p :: p in freq ==> freq[p] == Count(sets, p)
  {
    freq := map[];
    var i := 0;
    while i < |sets|
      invariant 0 <= i <= |sets|
      invariant forall p :: p in freq <==> p in UnionAll(sets[..i])
      invariant forall p :: p in freq ==> freq[p] == Count(sets[..i], p)
    {
      assert sets[..i + 1][..i] == sets[..i];
      ghost var before := freq;
      freq := AddOccurrences(freq, sets[i]);
      forall p | p in freq ensures freq[p] == Count(sets[..i + 1], p) {
        CountFacts(sets[..i], p);
      }
      i := i + 1;
    }
    assert sets[..i] == sets;
  }

  /** Pixels occurring in at least t of the sets (and at least once). */
  function Consensus(sets: seq<set<int>>, t: int): set<int>
  {
    set p | p in UnionAll(sets) && Count(sets, p) >= t
  }

  /** With a threshold of at most 1 the consensus is the union of the sets. */
  lemma LowThresholdConsensus(sets: seq<set<int>>, t: int)
    requires t <= 1
    ensures Consensus(sets, t) == UnionAll(sets)
  {
    forall p | p in UnionAll(sets) ensures Count(sets, p) >= t {
      CountFacts(sets, p);
    }
  }

  /** A threshold above the number of sets admits no pixel. */
  lemma HighThresholdConsensus(sets: seq<set<int>>, t: int)
    requires t > |sets|
    ensures Consensus(sets, t) == {}
  {
    forall p | p in UnionAll(sets) ensures Count(sets, p) < t {
      CountFacts(sets, p);
    }
  }

  /** int(base_frac * n) for a non-negative rational base_frac = num / den:
      the largest t with t * den <= num * n. */
  function BaseThreshold(num: nat, den: nat, n: nat): (t: nat)
    requires den > 0
    ensures t * den <= num * n < (t + 1) * den
  {
    num * n / den
  }

  /** The base set of a segment: the consensus over the aligned frames. */
  function BaseSet(frames: seq<set<int>>, w: int, shifts: seq<int>, t: int): set<int>
    requires w > 0 && |shifts| == |frames|
  {
    Consensus(AlignedSets(frames, w, shifts), t)
  }

  /** Pixels named by a list of byte offsets (4 bytes per pixel). */
  function Pixels(offsets: seq<int>): set<int>
  {
    set o | o in offsets :: o / 4
  }

  /** `offsets` lists 4 * p for the pixels p of s, in strictly ascending order. */
  ghost predicate IsOffsetsOf(offsets: seq<int>, s: set<int>)
  {
    && Ascending(offsets)
    && forall o :: o in offsets <==> o % 4 == 0 && o / 4 in s
  }

  /** Dividing the offsets by 4 gives the pixel set back. */
  lemma PixelsOfOffsets(offsets: seq<int>, s: set<int>)
    requires IsOffsetsOf(offsets, s)
    ensures Pixels(offsets) == s
  {
    forall p | p in s ensures p in Pixels(offsets) {
      assert (4 * p) / 4 == p && (4 * p) % 4 == 0;
      assert 4 * p in offsets;
    }
  }

  /** The offsets of the empty set are the empty list. */
  lemma OffsetsOfEmpty(offsets: seq<int>)
    requires IsOffsetsOf(offsets, {})
    ensures offsets == []
  {
    forall x ensures multiset(offsets)[x] == 0 {
      assert x !in offsets;
    }
    assert multiset(offsets) == multiset{};
  }

  /** sorted(p * 4 for p in s): the byte offsets of s in ascending order. */
  method SortedOffsets(s: set<int>) returns (offsets: seq<int>)
    ensures IsOffsetsOf(offsets, s)
  {
    var members := SortedMembers(s);
    offsets := seq(|members|, k requires 0 <= k < |members| => 4 * members[k]);
    forall o | o in offsets ensures o % 4 == 0 && o / 4 in s {
      var k :| 0 <= k < |members| && offsets[k] == o;
      assert o == 4 * members[k];
    }
    forall o | o % 4 == 0 && o / 4 in s ensures o in offsets {
      var k :| 0 <= k < |members| && members[k] == o / 4;
      assert offsets[k] == o;
    }
  }

  /** The CSR layout: index[i] is the sum of the counts before frame i, all
      counts are non-negative, and the counts add up to the data length. */
  predicate IsCsr(data: seq<int>, index: seq<int>, count: seq<int>)
  {
    && |index| == |count|
    && (forall i :: 0 <= i < |count| ==> count[i] >= 0 && index[i] == Sum(count[..i]))
    && Sum(count) == |data|
  }

  /** The entry of frame i: count[i] values from index[i] on (empty when the
      tables do not describe such a slice). */
  function Entry(data: seq<int>, index: seq<int>, count: seq<int>, i: int): seq<int>
  {
    if 0 <= i < |index| && i < |count| && 0 <= index[i] <= index[i] + count[i] <= |data|
    then data[index[i]..index[i] + count[i]]
    else []
  }

  /** In a CSR table every entry is a genuine slice of the data. */
  lemma CsrBounds(data: seq<int>, index: seq<int>, count: seq<int>, i: int)
    requires IsCsr(data, index, count) && 0 <= i < |index|
    ensures 0 <= index[i] <= index[i] + count[i] <= |data|
    ensures Entry(data, index, count, i) == data[index[i]..index[i] + count[i]]
    ensures |Entry(data, index, count, i)| == count[i]
  {
    SumPrefix(count, i);
    SumPrefix(count, i + 1);
    assert count[..i + 1] == count[..i] + [count[i]];
    SumAppend(count[..i], count[i]);
  }

  /** Appending a frame's list (extend the data, append the old length to
      the index and the list's length to the counts) keeps the layout and
      every earlier entry, and the new entry is the list. */
  method AppendEntry(data: seq<int>, index: seq<int>, count: seq<int>, xs: seq<int>)
    returns (data': seq<int>, index': seq<int>, count': seq<int>)
    requires IsCsr(data, index, count)
    ensures IsCsr(data', index', count') && |index'| == |index| + 1
    ensures forall j :: 0 <= j < |index| ==> Entry(data', index', count', j) == Entry(data, index, count, j)
    ensures Entry(data', index', count', |index|) == xs
  {
    index' := index + [|data|];
    count' := count + [|xs|];
    data' := data + xs;
    SumAppend(count, |xs|);
    assert count'[..|count|] == count;
    forall i | 0 <= i < |count| ensures count'[..i] == count[..i] {
    }
    forall j | 0 <= j < |index| ensures Entry(data', index', count', j) == Entry(data, index, count, j) {
      CsrBounds(data, index, count, j);
      assert data'[index[j]..index[j] + count[j]] == data[index[j]..index[j] + count[j]];
    }
  }

  /** The base moved back by the shift of frame i. */
  function ShiftedBase(base: set<int>, w: int, shifts: seq<int>, i: int): set<int>
    requires w > 0 && 0 <= i < |shifts|
  {
    Moved(base, w, shifts[i])
  }

  /** Per frame, the pixels of the frame missing from the shifted base. */
  function AddSets(frames: seq<set<int>>, w: int, base: set<int>, shifts: seq<int>): seq<set<int>>
    requires w > 0 && |shifts| == |frames|
  {
    seq(|frames|, i requires 0 <= i < |frames| => frames[i] - ShiftedBase(base, w, shifts, i))
  }

  /** Per frame, the pixels of the shifted base missing from the frame. */
  function RemoveSets(frames: seq<set<int>>, w: int, base: set<int>, shifts: seq<int>): seq<set<int>>
    requires w > 0 && |shifts| == |frames|
  {
    seq(|frames|, i requires 0 <= i < |frames| => ShiftedBase(base, w, shifts, i) - frames[i])
  }

  /** A CSR table with one entry per set, entry j listing the offsets of sets[j]. */
  ghost predicate TableOf(data: seq<int>, index: seq<int>, count: seq<int>, sets: seq<set<int>>)
  {
    && IsCsr(data, index, count) && |index| == |sets|
    && forall j :: 0 <= j < |sets| ==> IsOffsetsOf(Entry(data, index, count, j), sets[j])
  }

  /** Appending the offsets of one more set extends the table by that set. */
  lemma TableAppend(data: seq<int>, index: seq<int>, count: seq<int>, sets: seq<set<int>>,
                    data': seq<int>, index': seq<int>, count': seq<int>, xs: seq<int>, s: set<int>)
    requires TableOf(data, index, count, sets)
    requires IsCsr(data', index', count') && |index'| == |index| + 1
    requires forall j :: 0 <= j < |index| ==> Entry(data', index', count', j) == Entry(data, index, count, j)
    requires Entry(data', index', count', |index|) == xs && IsOffsetsOf(xs, s)
    ensures TableOf(data', index', count', sets + [s])
  {
  }

  /** Appends the offsets of one more set to a table. */
  method ExtendTable(data: seq<int>, index: seq<int>, count: seq<int>, ghost sets: seq<set<int>>,
                     xs: seq<int>, ghost s: set<int>)
    returns (data': seq<int>, index': seq<int>, count': seq<int>)
    requires TableOf(data, index, count, sets) && IsOffsetsOf(xs, s)
    ensures TableOf(data', index', count', sets + [s])
  {
    data', index', count' := AppendEntry(data, index, count, xs);
    TableAppend(data, index, count, sets, data', index', count', xs, s);
  }

  /** The six delta tables: for every frame, an additions entry listing the
      frame's pixels missing from the shifted base and a removals entry
      listing the shifted base's pixels missing from the frame. */
  ghost predicate IsDeltas(frames: seq<set<int>>, w: int, base: set<int>, shifts: seq<int>,
                           addData: seq<int>, addIndex: seq<int>, addCount: seq<int>,
                           remData: seq<int>, remIndex: seq<int>, remCount: seq<int>)
    requires w > 0 && |shifts| == |frames|
  {
    && TableOf(addData, addIndex, addCount, AddSets(frames, w, base, shifts))
    && TableOf(remData, remIndex, remCount, RemoveSets(frames, w, base, shifts))
  }

  /** The delta loop: moves the base back by each frame's shift and appends
      the sorted additions and removals to their CSR tables. */
  method EncodeDeltas(frames: seq<set<int>>, w: int, base: set<int>, shifts: seq<int>)
    returns (addData: seq<int>, addIndex: seq<int>, addCount: seq<int>,
             remData: seq<int>, remIndex: seq<int>, remCount: seq<int>)
    requires w > 0 && |shifts| == |frames|
    ensures IsDeltas(frames, w, base, shifts, addData, addIndex, addCount, remData, remIndex, remCount)
  {
    ghost var adds := AddSets(frames, w, base, shifts);
    ghost var removes := RemoveSets(frames, w, base, shifts);
    addData, addIndex, addCount := [], [], [];
    remData, remIndex, remCount := [], [], [];
    var i := 0;
    while i < |frames|
      invariant 0 <= i <= |frames|
      invariant TableOf(addData, addIndex, addCount, adds[..i])
      invariant TableOf(remData, remIndex, remCount, removes[..i])
    {
      var shiftedBase := MoveSet(base, w, shifts[i]);
      var cur := frames[i];
      var additions := SortedOffsets(cur - shiftedBase);
      var removals := SortedOffsets(shiftedBase - cur);
      assert adds[i] == cur - shiftedBase && removes[i] == shiftedBase - cur;
      assert adds[..i + 1] == adds[..i] + [adds[i]];
      assert removes[..i + 1] == removes[..i] + [removes[i]];
      addData, addIndex, addCount := ExtendTable(addData, addIndex, addCount, adds[..i], additions, adds[i]);
      remData, remIndex, remCount := ExtendTable(remData, remIndex, remCount, removes[..i], removals, removes[i]);
      i := i + 1;
    }
    assert adds[..i] == adds && removes[..i] == removes;
  }

  /** The tables of one segment. The frame count is |shifts|. */
  datatype Segment = Segment(
    baseOffsets: seq<int>,
    shifts: seq<int>,
    addData: seq<int>, addIndex: seq<int>, addCount: seq<int>,
    remData: seq<int>, remIndex: seq<int>, remCount: seq<int>)

  /** `seg` is the encoding of `frames` with base threshold t. */
  ghost predicate SegmentOf(frames: seq<set<int>>, w: int, t: int, seg: Segment)
    requires w > 0
  {
    && IsAlignment(frames, w, seg.shifts)
    && IsOffsetsOf(seg.baseOffsets, BaseSet(frames, w, seg.shifts, t))
    && IsDeltas(frames, w, BaseSet(frames, w, seg.shifts, t), seg.shifts,
                seg.addData, seg.addIndex, seg.addCount, seg.remData, seg.remIndex, seg.remCount)
  }

  /** emit_segment without the file reading and the assembly writing. The
      threshold stands for int(base_frac * n); see BaseThreshold. */
  method EmitSegment(frames: seq<set<int>>, w: int, threshold: int) returns (seg: Segment)
    requires |frames| >= 1 && w > 0
    ensures SegmentOf(frames, w, threshold, seg)
  {
    var shifts, aligned := AlignFrames(frames, w);
    var freq := PixelFrequency(aligned);
    var base := set p | p in freq && freq[p] >= threshold;
    forall p ensures p in base <==> p in Consensus(aligned, threshold) {
      if p in UnionAll(aligned) {
        assert p in freq && freq[p] == Count(aligned, p);
      }
    }
    assert base == Consensus(aligned, threshold);
    var baseOffsets := SortedOffsets(base);
    var ad, ai, ac, rd, ri, rc := EncodeDeltas(frames, w, base, shifts);
    seg := Segment(baseOffsets, shifts, ad, ai, ac, rd, ri, rc);
  }

  /** Replay: drawing the base moved by frame i's shift, then its additions,
      then erasing its removals gives exactly frame i. The additions avoid
      the shifted base and the removals lie inside it. */
  lemma Replay(frames: seq<set<int>>, w: int, t: int, seg: Segment, i: int)
    requires w > 0 && SegmentOf(frames, w, t, seg) && 0 <= i < |frames|
    ensures (Moved(Pixels(seg.baseOffsets), w, seg.shifts[i])
              + Pixels(Entry(seg.addData, seg.addIndex, seg.addCount, i)))
            - Pixels(Entry(seg.remData, seg.remIndex, seg.remCount, i)) == frames[i]
    ensures Pixels(Entry(seg.addData, seg.addIndex, seg.addCount, i)) * Moved(Pixels(seg.baseOffsets), w, seg.shifts[i]) == {}
    ensures Pixels(Entry(seg.remData, seg.remIndex, seg.remCount, i)) <= Moved(Pixels(seg.baseOffsets), w, seg.shifts[i])
  {
    var base := BaseSet(frames, w, seg.shifts, t);
    var shifted := ShiftedBase(base, w, seg.shifts, i);
    PixelsOfOffsets(seg.baseOffsets, base);
    PixelsOfOffsets(Entry(seg.addData, seg.addIndex, seg.addCount, i), frames[i] - shifted);
    PixelsOfOffsets(Entry(seg.remData, seg.remIndex, seg.remCount, i), shifted - frames[i]);
  }

  /** Equal frames are aligned with shift 0 throughout. */
  lemma StaticShifts(frames: seq<set<int>>, w: int, shifts: seq<int>)
    requires w > 0 && IsAlignment(frames, w, shifts)
    requires forall i :: 0 <= i < |frames| ==> frames[i] == frames[0]
    ensures forall i :: 0 <= i < |frames| ==> shifts[i] == 0
  {
    forall i | 1 <= i < |frames| ensures shifts[i] == 0 {
      var ov :| IsBestShift(frames[0], frames[i], w, SegmentMaxShift, shifts[i], ov);
      SelfBestShift(frames[0], w, SegmentMaxShift, shifts[i], ov);
    }
  }

  /** With n >= 1 copies of one set f, the consensus for any threshold up to
      n is f (a threshold of 0 or less, as int(base_frac * n) gives for a
      short segment, included). */
  lemma StaticConsensus(sets: seq<set<int>>, f: set<int>, t: int)
    requires 1 <= |sets| && t <= |sets|
    requires forall i :: 0 <= i < |sets| ==> sets[i] == f
    ensures Consensus(sets, t) == f
  {
    forall p | p in f ensures p in Consensus(sets, t) {
      CountEverywhere(sets, p);
      CountFacts(sets, p);
    }
    forall p | p in Consensus(sets, t) ensures p in f {
      CountFacts(sets, p);
      if p !in f {
        NotCounted(sets, p);
      }
    }
  }

  /** A segment whose frames are all equal stores no motion and no deltas:
      every shift is 0, every additions and removals entry is empty, and for
      a threshold of at most n the base is the frame itself. */
  lemma StaticSegment(frames: seq<set<int>>, w: int, t: int, seg: Segment)
    requires w > 0 && SegmentOf(frames, w, t, seg) && t <= |frames|
    requires forall i :: 0 <= i < |frames| ==> frames[i] == frames[0]
    ensures forall i :: 0 <= i < |frames| ==> seg.shifts[i] == 0
    ensures Pixels(seg.baseOffsets) == frames[0]
    ensures forall i :: 0 <= i < |frames| ==>
              Entry(seg.addData, seg.addIndex, seg.addCount, i) == [] && Entry(seg.remData, seg.remIndex, seg.remCount, i) == []
  {
    var f := frames[0];
    StaticShifts(frames, w, seg.shifts);
    MovedZero(f, w);
    var aligned := AlignedSets(frames, w, seg.shifts);
    StaticConsensus(aligned, f, t);
    var base := BaseSet(frames, w, seg.shifts, t);
    PixelsOfOffsets(seg.baseOffsets, base);
    forall i | 0 <= i < |frames|
      ensures Entry(seg.addData, seg.addIndex, seg.addCount, i) == []
      ensures Entry(seg.remData, seg.remIndex, seg.remCount, i) == []
    {
      assert AddSets(frames, w, base, seg.shifts)[i] == {};
      assert RemoveSets(frames, w, base, seg.shifts)[i] == {};
      OffsetsOfEmpty(Entry(seg.addData, seg.addIndex, seg.addCount, i));
      OffsetsOfEmpty(Entry(seg.remData, seg.remIndex, seg.remCount, i));
    }
  }

  /** A pixel in none of the sets has count 0. */
  lemma {:induction false} NotCounted(sets: seq<set<int>>, p: int)
    requires forall i :: 0 <= i < |sets| ==> p !in sets[i]
    ensures Count(sets, p) == 0
    decreases |sets|
  {
    if sets != [] {
      NotCounted(sets[..|sets| - 1], p);
    }
  }

  /** The chunking in main: consecutive segments of `size` frames (the last
      one possibly shorter); segment j starts at frame j * size. A negative
      size makes the range empty, so no segment is produced. */
  method SplitSegments<T>(files: seq<T>, size: int) returns (chunks: seq<seq<T>>)
    requires size != 0
    ensures size < 0 ==> chunks == []
    ensures size > 0 ==> Concat(chunks) == files
    ensures forall j :: 0 <= j < |chunks| ==> 1 <= |chunks[j]| <= size
    ensures forall j :: 0 <= j < |chunks| - 1 ==> |chunks[j]| == size
  {
    chunks := [];
    if size < 0 {
      return;
    }
    var i := 0;
    while i < |files|
      invariant 0 <= i <= |files|
      invariant Concat(chunks) == files[..i]
      invariant forall j :: 0 <= j < |chunks| ==> 1 <= |chunks[j]| <= size
      invariant forall j :: 0 <= j < |chunks| - 1 ==> |chunks[j]| == size
      invariant i < |files| && chunks != [] ==> |chunks[|chunks| - 1]| == size
    {
      var hi := if i + size < |files| then i + size else |files|;
      var chunk := files[i..hi];
      ConcatAppend(chunks, chunk);
      assert files[..i] + files[i..hi] == files[..hi];
      chunks := chunks + [chunk];
      i := hi;
    }
    assert files[..i] == files;
  }
}
