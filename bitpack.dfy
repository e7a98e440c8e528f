/** Bit packing of pixel sets (pack_frame and the frames_data concatenation
    in emit_bitpacked.py). Pixel i of a w x h frame is bit 7 - i % 8 of byte
    i / 8: eight pixels per byte, most significant bit first. */
module Bitpack {

  /** Bytes needed for one frame: ceil(w * h / 8). */
  function BytesPerFrame(w: nat, h: nat): (n: nat)
    ensures 8 * n >= w * h && 8 * n < w * h + 8
  {
    (w * h + 7) / 8
  }

  /** Bit k (0 = least significant) of b is 1. */
  predicate BitSet(b: bv8, k: nat)
    requires k < 8
  {
    (b >> k) & 1 == 1
  }

  /** Pixel i of a packed buffer is set. */
  predicate PixelBit(bytes: seq<bv8>, i: int)
    requires 0 <= i < 8 * |bytes|
  {
    BitSet(bytes[i / 8], 7 - i % 8)
  }

  /** `bytes` packs `bits` for a frame of `total` pixels: pixel i is set
      exactly when i < total and i is in the set, so the padding bits at
      positions total and above are 0 and members outside [0, total) are
      ignored. */
  ghost predicate PackedBits(bytes: seq<bv8>, bits: set<int>, total: int)
  {
    forall i :: 0 <= i < 8 * |bytes| ==> (PixelBit(bytes, i) <==> i < total && i in bits)
  }

  /** Reading a buffer back, most significant bit first: the set pixels
      among the first `total`. */
  function Unpack(bytes: seq<bv8>, total: int): set<int>
  {
    set i | 0 <= i < total && i < 8 * |bytes| && PixelBit(bytes, i)
  }

  /** Setting bit k with an OR leaves every other bit as it was. */
  lemma OrBit(b: bv8, k: nat, j: nat)
    requires k < 8 && j < 8
    ensures BitSet(b | (1 << k), j) <==> BitSet(b, j) || j == k
  {
    var kb, jb := k as bv8, j as bv8;
    assert b | (1 << k) == b | (1 << kb);
    assert BitSet(b, j) == ((b >> jb) & 1 == 1);
    assert BitSet(b | (1 << k), j) == (((b | (1 << kb)) >> jb) & 1 == 1);
    assert (((b | (1 << kb)) >> jb) & 1 == 1) <==> ((b >> jb) & 1 == 1) || jb == kb;
  }

  /** The zero byte has no bit set. */
  lemma ZeroBits(j: nat)
    requires j < 8
    ensures !BitSet(0, j)
  {
  }

  /** A byte is determined by its eight bits. */
  lemma ByteFromBits(x: bv8, y: bv8)
    requires forall j :: 0 <= j < 8 ==> (BitSet(x, j) <==> BitSet(y, j))
    ensures x == y
  {
    assert BitSet(x, 0) == BitSet(y, 0) && BitSet(x, 1) == BitSet(y, 1);
    assert BitSet(x, 2) == BitSet(y, 2) && BitSet(x, 3) == BitSet(y, 3);
    assert BitSet(x, 4) == BitSet(y, 4) && BitSet(x, 5) == BitSet(y, 5);
    assert BitSet(x, 6) == BitSet(y, 6) && BitSet(x, 7) == BitSet(y, 7);
  }

  /** pack_frame: a zeroed buffer of ceil(w * h / 8) bytes in which bit
      7 - i % 8 of byte i / 8 is ORed in for every pixel i < w * h of the set. */
  method PackFrame(bits: set<int>, w: nat, h: nat) returns (out: array<bv8>)
    ensures out.Length == BytesPerFrame(w, h)
    ensures PackedBits(out[..], bits, w * h)
  {
    var total := w * h;
    out := new bv8[(total + 7) / 8](_ => 0);
    forall k | 0 <= k < 8 * out.Length ensures !PixelBit(out[..], k) {
      ZeroBits(7 - k % 8);
    }
    var i := 0;
    while i < total
      invariant 0 <= i <= total
      invariant forall k :: 0 <= k < 8 * out.Length ==> (PixelBit(out[..], k) <==> k < i && k in bits)
    {
      var byteIdx := i / 8;
      var bitIdx := 7 - i % 8;
      if i in bits {
        ghost var before := out[..];
        out[byteIdx] := out[byteIdx] | (1 << bitIdx);
        forall k | 0 <= k < 8 * out.Length ensures PixelBit(out[..], k) <==> PixelBit(before, k) || k == i {
          if k / 8 == byteIdx {
            OrBit(before[byteIdx], bitIdx, 7 - k % 8);
          }
        }
      }
      i := i + 1;
    }
  }

  /** Round trip: unpacking a packed frame gives back the members of the set
      that lie in [0, total). */
  lemma UnpackPacked(bytes: seq<bv8>, bits: set<int>, total: int)
    requires PackedBits(bytes, bits, total) && total <= 8 * |bytes|
    ensures Unpack(bytes, total) == set i | i in bits && 0 <= i < total
  {
  }

  /** Packing is deterministic: two buffers of one length that pack the same
      set for the same frame size are equal. */
  lemma PackedUnique(a: seq<bv8>, b: seq<bv8>, bits: set<int>, total: int)
    requires |a| == |b| && PackedBits(a, bits, total) && PackedBits(b, bits, total)
    ensures a == b
  {
    forall n | 0 <= n < |a| ensures a[n] == b[n] {
      forall j | 0 <= j < 8 ensures BitSet(a[n], j) <==> BitSet(b[n], j) {
        var i := 8 * n + (7 - j);
        assert i / 8 == n && 7 - i % 8 == j;
        assert PixelBit(a, i) <==> PixelBit(b, i);
      }
      ByteFromBits(a[n], b[n]);
    }
  }

  /** The empty set packs to an all-zero buffer. */
  lemma EmptyPacksToZero(bytes: seq<bv8>, total: int)
    requires PackedBits(bytes, {}, total)
    ensures forall n :: 0 <= n < |bytes| ==> bytes[n] == 0
  {
    forall n | 0 <= n < |bytes| ensures bytes[n] == 0 {
      forall j | 0 <= j < 8 ensures BitSet(bytes[n], j) <==> BitSet(0, j) {
        var i := 8 * n + (7 - j);
        assert i / 8 == n && 7 - i % 8 == j;
        assert !PixelBit(bytes, i);
        ZeroBits(j);
      }
      ByteFromBits(bytes[n], 0);
    }
  }

  /** a <= b implies a * c <= b * c for c >= 0. */
  lemma MulMono(a: int, b: int, c: nat)
    requires a <= b
    ensures a * c <= b * c
  {
    assert (b - a) * c >= 0;
  }

  /** Bytes [f * bpf, (f + 1) * bpf) of the data: the slot of frame f
      (empty if the data is too short). */
  function FrameBytes(data: seq<bv8>, f: int, bpf: nat): seq<bv8>
  {
    if 0 <= f && (f + 1) * bpf <= |data| then data[f * bpf..(f + 1) * bpf] else []
  }

  /** With n frames of bpf bytes, slot f < n is a genuine slice of length bpf. */
  lemma FrameBytesSlice(data: seq<bv8>, n: nat, f: int, bpf: nat)
    requires |data| == n * bpf && 0 <= f < n
    ensures 0 <= f * bpf <= (f + 1) * bpf <= |data|
    ensures FrameBytes(data, f, bpf) == data[f * bpf..(f + 1) * bpf]
    ensures |FrameBytes(data, f, bpf)| == bpf
  {
    MulMono(0, f, bpf);
    MulMono(f + 1, n, bpf);
  }

  /** Appending one more frame of bpf bytes keeps the earlier slots and fills slot f. */
  lemma FrameBytesAppend(data: seq<bv8>, packed: seq<bv8>, f: nat, bpf: nat)
    requires |data| == f * bpf && |packed| == bpf
    ensures forall g :: 0 <= g < f ==> FrameBytes(data + packed, g, bpf) == FrameBytes(data, g, bpf)
    ensures FrameBytes(data + packed, f, bpf) == packed
  {
    forall g | 0 <= g < f ensures FrameBytes(data + packed, g, bpf) == FrameBytes(data, g, bpf) {
      FrameBytesSlice(data, f, g, bpf);
      assert (data + packed)[g * bpf..(g + 1) * bpf] == data[g * bpf..(g + 1) * bpf];
    }
    assert (data + packed)[f * bpf..(f + 1) * bpf] == packed;
  }

  /** The frames_data block: the packed frames one after another, frame f
      occupying bytes [f * bpf, (f + 1) * bpf) with bpf = ceil(w * h / 8). */
  method PackFrames(frames: seq<set<int>>, w: nat, h: nat) returns (data: seq<bv8>)
    ensures |data| == |frames| * BytesPerFrame(w, h)
    ensures forall f :: 0 <= f < |frames| ==> PackedBits(FrameBytes(data, f, BytesPerFrame(w, h)), frames[f], w * h)
  {
    var bpf := BytesPerFrame(w, h);
    data := [];
    var f := 0;
    while f < |frames|
      invariant 0 <= f <= |frames| && |data| == f * bpf
      invariant forall g :: 0 <= g < f ==> PackedBits(FrameBytes(data, g, bpf), frames[g], w * h)
    {
      var packed := PackFrame(frames[f], w, h);
      FrameBytesAppend(data, packed[..], f, bpf);
      data := data + packed[..];
      f := f + 1;
    }
  }
}
