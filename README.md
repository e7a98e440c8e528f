# bad-apple-asm: the mask pipeline in Dafny

bad-apple-asm turns the frames of a black-and-white video into data for
an ARMLite assembly player. This project models the computational core of
that pipeline and proves properties of it:

- **Row run-length encoding** (`RunLength`, process_frames.py). A luminance
  grid becomes, row by row, the maximal runs of pixels darker than a
  threshold, plus a count of dark pixels.
- **Decoding a mask record** (`PixelSets`, `load_rle`). The runs expand to
  the set of linear pixel indices `y * w + x`.
- **Horizontal shift search** (`ShiftSearch`, `best_horizontal_shift`). The
  search finds the column shift of the current frame that best overlaps
  the previous one, taking the smallest shift on ties.
- **Segment encoder** (`Segments`, `emit_segment`). It aligns frames to
  the first one and takes a consensus base set. Each frame is then stored
  as the shifted base plus additions minus removals, in
  compressed-sparse-row (CSR) tables. The module also chunks the frame
  list into segments.
- **Frame statistics** (`MaskStats`, `analyze_masks`). For every frame it
  records the dark count, the difference to the previous frame and the
  best shift, and it keeps the totals.
- **Bit packing** (`Bitpack`, `pack_frame`). A frame is packed at one bit
  per pixel, most significant bit first, and frames are concatenated.
- **True-colour helpers** (`TrueColour`, test.py). They cover 24-bit
  colour packing and unpacking and the byte offset of a screen pixel.

Shared helpers live in `IntSets` (translation of integer sets, sorting a
set) and `Sequences` (sums and concatenation).

Python's `//` and `%` are floor division and the non-negative remainder
for a positive divisor. Dafny's `/` and `%` agree with them whenever the
divisor is positive, which is the only case the model uses. Python's
`>> k` is floor division by `2^k` for every integer, and `& 0xFF` is the
remainder modulo 256.

## Model

| member | source | states |
|---|---|---|
| RunLength.MaskRleFromGrid | process_frames.py:25-47 | one run list per row, h of them in row order; every row's runs encode it (each run has length at least 1 and lies in [0, w); runs are strictly increasing with a light column between them; the column before and the column after each run are light; a column is covered iff it is darker than the threshold); black is the sum of all run lengths and also the number of dark pixels |
| RunLength.ScanRow | process_frames.py:32-45 | the runs of one row encode the row as above, and their lengths add up to the row's dark-pixel count |
| RunLength.SkipLight | process_frames.py:36-37 | stops at the first dark column at or after `from`, or at the row end; everything skipped is light |
| RunLength.TakeDark | process_frames.py:41-43 | stops at the first light column at or after `from`, or at the row end; everything taken is dark and adds exactly x - from to the dark count |
| RunLength.StepRunsBefore | process_frames.py:34-44 | appending the run [start, x) found after skipping light columns keeps the runs well formed, ordered and maximal, ending at x |
| RunLength.StepCoversDark | process_frames.py:36-44 | after the append, the runs cover exactly the dark columns below x |
| RunLength.ScanFinished | process_frames.py:36-39 | when only light columns remain, the runs emitted so far encode the whole row |
| RunLength.AllLightRow | process_frames.py:34-46 | a row with no dark pixel encodes to [] |
| RunLength.AllDarkRow | process_frames.py:34-46 | a non-empty all-dark row encodes to the single run [0, w) |
| RunLength.TotalAppend | process_frames.py:45-46 | adding a row adds its run lengths to the black total |
| PixelSets.LoadRle | emit_segments.py:29-40 | returns the record's w and h and the set of y * w + x over every row y, run and column x of the run |
| PixelSets.DecodeMembership | emit_segments.py:36-39 | p is decoded iff p == y * w + x for some column x inside some run of some row y |
| PixelSets.DecodeInBounds | emit_segments.py:36-39 | with h rows and every non-empty run inside [0, w) of its row, every decoded index lies in [0, w * h), whether or not the runs overlap, touch or come in order |
| PixelSets.DecodeOfEncoded | process_frames.py:25-47 | decoding the encoding of a grid gives exactly {y * w + x : pix[y][x] < threshold} |
| ShiftSearch.BucketRows | emit_segments.py:46-55 | the row buckets map each row holding a pixel to the set of that row's columns, and hold no other row |
| ShiftSearch.OverlapAt | emit_segments.py:58-64 | the per-row sum of shifted cur columns meeting prev columns equals the overlap \|{p in cur : 0 <= p % w - dx < w, p - dx in prev}\| |
| ShiftSearch.RowOverlapCard | emit_segments.py:63-64 | one row's \|shifted & prev_xs\| counts exactly the overlapping pixels of that row |
| ShiftSearch.OverlapBound | emit_segments.py:59-64 | the overlap is at most \|prev\| and at most \|cur\| |
| ShiftSearch.BestHorizontalShift | emit_segments.py:43-68 | the returned overlap is at least the overlap of every dx in [-maxShift, maxShift]; when it is 0, dx is 0; when it is positive, dx is in range, achieves it, and no smaller dx in range does |
| ShiftSearch.BestShiftUnique | emit_segments.py:57-67 | the answer (dx, overlap) is unique: two answers to the same search are equal |
| ShiftSearch.BestShiftBounds | emit_segments.py:57-68 | for maxShift >= 0 the returned dx is in range, the returned overlap is the overlap at dx, and it is at most \|prev\| and \|cur\| |
| ShiftSearch.ShiftExample | emit_segments.py:63 | reference {1,2}, target {2,3}, width 4, radius 2 gives (1, 2): the target is moved by x - dx |
| ShiftSearch.SelfOverlapLess | emit_segments.py:63-64 | a non-empty set overlaps itself completely only at shift 0 |
| ShiftSearch.SelfBestShift | emit_segments.py:43-68 | searching a frame against itself gives (0, \|s\|) |
| Segments.MoveSet | emit_segments.py:121-127 | moves every pixel d columns inside its row and drops those that leave it |
| Segments.MovedZero | emit_segments.py:84 | moving by 0 keeps the set, so the reference is its own aligned set |
| Segments.AlignFrames | emit_segments.py:82-96 | one shift per frame, shifts[0] == 0, each other shift is the search's answer for (frame 0, frame i) with radius 64, and aligned set i is frame i moved by -shifts[i] |
| Segments.AlignmentBounds | emit_segments.py:86 | every stored shift lies in [-64, 64] |
| Segments.AddOccurrences | emit_segments.py:101-102 | every member of the set gains 1 in the table (entering with 1) and no other entry changes |
| Segments.PixelFrequency | emit_segments.py:99-102 | the table's keys are the pixels occurring in some aligned set, each mapped to the number of sets containing it |
| Segments.CountFacts | emit_segments.py:99-102 | a count is positive iff the pixel occurs somewhere, and no count exceeds the number of sets |
| Segments.LowThresholdConsensus | emit_segments.py:105 | with a threshold of at most 1 the base is the union of the aligned sets |
| Segments.HighThresholdConsensus | emit_segments.py:105 | a threshold above the number of frames gives an empty base |
| Segments.BaseThreshold | emit_segments.py:104 | for base_frac = num / den, t is the floor of base_frac * n: t * den <= num * n < (t + 1) * den |
| Segments.SortedOffsets | emit_segments.py:108 | the list holds 4 * p for exactly the pixels p of the set, strictly ascending |
| Segments.PixelsOfOffsets | emit_segments.py:108 | dividing such offsets by 4 gives the set back |
| Segments.CsrBounds | emit_segments.py:131-136 | in a CSR table (index[i] is the sum of the counts before i, counts add up to the data length) every entry is a slice of the data of length count[i] |
| Segments.AppendEntry | emit_segments.py:131-136 | appending a list keeps the CSR layout and every earlier entry, and the new entry is the list |
| Segments.EncodeDeltas | emit_segments.py:118-136 | additions entry i lists the offsets of frame i minus the base moved by shifts[i], sorted; removals entry i lists the offsets of the moved base minus frame i; both tables are CSR with one entry per frame |
| Segments.EmitSegment | emit_segments.py:71-136 | shifts are an alignment; the base offsets list the consensus of the aligned frames at the threshold; the six delta tables are as in EncodeDeltas |
| Segments.Replay | emit_segments.py:118-136 | (moved base + additions of frame i) - removals of frame i == frame i; the additions avoid the moved base and the removals lie inside it |
| Segments.StaticShifts | emit_segments.py:82-96 | when all frames are equal every shift is 0 |
| Segments.StaticConsensus | emit_segments.py:99-105 | n >= 1 copies of one set have that set as consensus for any threshold up to n, including thresholds of 0 or less |
| Segments.StaticSegment | emit_segments.py:71-136 | a segment of equal frames stores shift 0 everywhere, the frame itself as base (any threshold up to n), and empty additions and removals |
| Segments.SplitSegments | emit_segments.py:276-279 | for a positive size the chunks concatenate to the file list; every chunk has 1..size files and all but the last exactly size; a negative size gives no chunk (emit_bitpacked.py:135-138 chunks the same way) |
| MaskStats.FrameRecord | analyze_masks.py:79-90 | record i is numbered i + 1 and has black == \|cur\|; the first record has diff == black, shift 0, overlap 0; later ones have diff == \|prev ^ cur\|, the shift search's answer with radius 32 and the first record's width, and denominator max(1, \|prev\|, \|cur\|) |
| MaskStats.AnalyzeMasks | analyze_masks.py:61-106 | no records gives NoMasks; otherwise one record per mask, each as in FrameRecord against the mask just before it; total black sums all dark counts, total diff sums the diffs after the first frame, shift matches counts later frames with 10 * overlap >= 7 * denominator; width and height come from the first record |
| MaskStats.TotalsAppend | analyze_masks.py:88-93 | adding a record adds its black count always, and its diff and match only after the first frame |
| MaskStats.StatsAppend | analyze_masks.py:92 | appending the next frame's correct record to correct records keeps all of them correct |
| MaskStats.StatBounds | analyze_masks.py:85-86 | every record has \|best_dx\| <= 32, 0 <= overlap <= denominator with denominator >= 1 (so overlap_frac is in [0, 1]), and diff >= 0 |
| MaskStats.MatchCountBounds | analyze_masks.py:89-90 | 0 <= shift_matches <= n - 1 |
| MaskStats.RepeatedFrame | analyze_masks.py:84-90 | a frame equal to its predecessor has diff 0 and shift 0, and counts as a shift match when it has a dark pixel |
| Bitpack.BytesPerFrame | emit_bitpacked.py:49 | ceil(w * h / 8): 8 * n >= w * h and 8 * n < w * h + 8 |
| Bitpack.PackFrame | emit_bitpacked.py:30-38 | the buffer has (w * h + 7) // 8 bytes; bit 7 - i % 8 of byte i // 8 is set iff i < w * h and i is in the set, so padding bits are 0 and members outside [0, w * h) are ignored |
| Bitpack.OrBit | emit_bitpacked.py:37 | ORing in 1 << k sets bit k and leaves the other bits as they were |
| Bitpack.UnpackPacked | emit_bitpacked.py:33-37 | unpacking a packed buffer MSB first gives exactly the set's members in [0, w * h) |
| Bitpack.PackedUnique | emit_bitpacked.py:30-38 | two buffers of the same length packing the same set for the same size are equal |
| Bitpack.EmptyPacksToZero | emit_bitpacked.py:32-37 | the empty set packs to an all-zero buffer |
| Bitpack.PackFrames | emit_bitpacked.py:109-110 | frames_data has n * bpf bytes and bytes [f * bpf, (f + 1) * bpf) pack frame f |
| TrueColour.RgbToHex | test.py:40-52 | for components in 0..255, (r << 16) \| (g << 8) \| b == r * 65536 + g * 256 + b < 2^24 |
| TrueColour.BitOrDisjoint | test.py:52 | ORing a value below 2^k into a value shifted left by k is addition |
| TrueColour.HexToRgb | test.py:54-67 | every component is in 0..255, and together they are the base-256 digits of v mod 2^24 |
| TrueColour.HexToRgbOfRgbToHex | test.py:40-67 | hex_to_rgb(rgb_to_hex(r, g, b)) == (r, g, b) for components in 0..255 |
| TrueColour.RgbToHexOfHexToRgb | test.py:40-67 | rgb_to_hex(hex_to_rgb(v)) == v for 0 <= v < 2^24 |
| TrueColour.PixelOffset | test.py:111 | ((y * width) + x) * 4 is word aligned and its word number is the row-major index y * width + x of the pixel |
| TrueColour.PixelOffsetOrder | test.py:109-111 | for columns in [0, width), ((y * width) + x) * 4 is a multiple of 4, smaller for pixels earlier in row-major order, and equal only for the same pixel |
| IntSets.SortedMembers | emit_segments.py:108 | the members of the set, strictly ascending (Python's sorted on a set) |
| IntSets.TranslateCard | emit_segments.py:63 | translating a set of integers keeps its size |
| Sequences.SumPrefix | emit_segments.py:131-136 | prefix sums of non-negative counts lie between 0 and the total |

## Left out

- File and JSON I/O, `glob`, `argparse`, the `main` functions, `print`, progress messages and `os.makedirs` are left out. Mask records arrive already parsed, as `Mask(w, h, rows)` values.
- The image decoder (`Image.open(...).convert('L')` and `im.load()`) is a foreign library. MaskRleFromGrid takes the luminance grid as `pix[y][x]`, with w and h as natural numbers.
- The ARMLite assembly text is left out. This covers the emitted runtime loops of emit_segments.py and emit_bitpacked.py and the generators in test.py. It is output for another machine, and that runtime does not follow the Python model: it adds shifts to base offsets with no row-bounds check, and the bitpacked runtime has a fixed frame size. Replay is proved for the Python tables only.
- Timestamps (`datetime.now()`) and comment lines in the generated text are left out.
- Floating point is left out:
  - `int(base_frac * n)` becomes an integer `threshold` parameter of EmitSegment. BaseThreshold gives its floor value for a rational base_frac.
  - The averages `avg_black`, `avg_diff` and `shift_match_percent` are not computed; the summary keeps their integer numerators.
  - overlap_frac is kept as the pair (overlap, denominator), and the test `overlap_frac >= 0.7` becomes `10 * overlap >= 7 * denominator`. This is exact on rationals and ignores float rounding of the quotient.
- BestHorizontalShift requires w > 0.
  - With w == 0 and a non-empty set, Python raises ZeroDivisionError.
  - With w == 0 and both sets empty, Python returns (0, 0); the model does not cover this case.
  - A negative width is not modelled.
  - For the same reason, MaskStats.AnalyzeMasks requires a positive first-record width when there are at least two records.
  - Segments.EmitSegment, Segments.AlignFrames and Segments.MoveSet also require w > 0. With w == 0, emit_segment runs without error when every frame is empty and raises ZeroDivisionError otherwise; the all-empty case is not modelled.
- Segments.EmitSegment takes w as a parameter. The source uses the width of the last loaded file.
- Segments.EmitSegment requires at least one frame, because the source indexes `frames[0]` without a check.
- Segments.SplitSegments requires a non-zero size, because Python's `range` raises ValueError for a step of 0.
- PixelSets.LoadRle decodes any record, including runs that spill past w into the next row. DecodeInBounds and DecodeOfEncoded state their results for in-bounds runs only.
- TrueColour.RgbToHex: its result is stated only for components in 0..255, the range its documentation gives. It is defined for any non-negative components, and negative components are not modelled.
- Bitpack.PackFrame: w and h are natural numbers; Python's behaviour for negative sizes is not modelled.
- Bitpack.PackFrame returns a fresh array, but its contract does not state that the array is fresh. The buffer is built in place with `|`, and the result is stated on its contents.
- Of test.py, only rgb_to_hex, hex_to_rgb and the byte-offset formula are modelled. The loop that builds the instruction list is left out.
