/** Window queries of the aggregate protocol (src/aggregate.cpp): frames split
    per output row, and the packed FILTER mask. */
module Window {
  import opened Basics

  type Frame = (int64, int64)

  // ---- Frames ----

  function Min(a: int, b: int): int { if a < b then a else b }

  /** Starts and ends paired, as far as both go. */
  function Zip(starts: seq<int64>, ends: seq<int64>): (z: seq<Frame>)
    ensures |z| == Min(|starts|, |ends|)
  {
    seq(Min(|starts|, |ends|), i requires 0 <= i < Min(|starts|, |ends|) => (starts[i], ends[i]))
  }

  /** How many frames the first `r` rows ask for; a negative count asks for
      none. */
  function Asked(perRow: seq<int64>, r: nat): nat
    requires r <= |perRow|
  {
    if r == 0 then 0 else Asked(perRow, r - 1) + if perRow[r - 1] > 0 then perRow[r - 1] else 0
  }

  /** Where row `r` starts in the frame list: the sum of the counts before it,
      or the end of a list that is too short. */
  function RowStart(perRow: seq<int64>, frames: nat, r: nat): nat
    requires r <= |perRow|
  {
    Min(Asked(perRow, r), frames)
  }

  lemma RowStartMonotone(perRow: seq<int64>, frames: nat, r: nat)
    requires r < |perRow|
    ensures RowStart(perRow, frames, r) <= RowStart(perRow, frames, r + 1) <= frames
  {
  }

  /** Row `r` of a batched request. */
  function RowFrames(z: seq<Frame>, perRow: seq<int64>, r: nat): seq<Frame>
    requires r < |perRow|
  {
    RowStartMonotone(perRow, |z|, r);
    z[RowStart(perRow, |z|, r)..RowStart(perRow, |z|, r + 1)]
  }

  /** The batched branch of `window_result`. */
  method SplitFrames(starts: seq<int64>, ends: seq<int64>, perRow: seq<int64>) returns (frames: seq<seq<Frame>>)
    ensures |frames| == |perRow|
    ensures forall r :: 0 <= r < |perRow| ==> frames[r] == RowFrames(Zip(starts, ends), perRow, r)
  {
    ghost var z := Zip(starts, ends);
    frames := [];
    var next := 0;
    for r := 0 to |perRow|
      invariant |frames| == r && next == RowStart(perRow, |z|, r)
      invariant forall q :: 0 <= q < r ==> frames[q] == RowFrames(z, perRow, q)
    {
      var row: seq<Frame> := [];
      var count, i, first := perRow[r], 0, next;
      while i < count && next < |starts| && next < |ends|
        invariant 0 <= i && next == first + i && next <= |z|
        invariant i <= count || i == 0
        invariant row == z[first..next]
      {
        assert z[first..next + 1] == z[first..next] + [z[next]];
        row := row + [(starts[next], ends[next])];
        i, next := i + 1, next + 1;
      }
      frames := frames + [row];
    }
  }

  /** The rows put end to end are the frame list, as far as the rows ask. */
  lemma {:induction false} SplitConcatenates(z: seq<Frame>, perRow: seq<int64>, frames: seq<seq<Frame>>)
    requires |frames| == |perRow|
    requires forall r :: 0 <= r < |perRow| ==> frames[r] == RowFrames(z, perRow, r)
    ensures Flat(frames) == z[..RowStart(perRow, |z|, |perRow|)]
  {
    if frames != [] {
      var n := |frames| - 1;
      var init := perRow[..n];
      forall r: nat | r <= n ensures Asked(init, r) == Asked(perRow, r) { AskedPrefix(perRow, n, r); }
      forall r: nat | r < n ensures frames[..n][r] == RowFrames(z, init, r) {
        assert frames[r] == RowFrames(z, perRow, r);
      }
      SplitConcatenates(z, init, frames[..n]);
      RowStartMonotone(perRow, |z|, n);
      Adjoin(z, RowStart(perRow, |z|, n), RowStart(perRow, |z|, n + 1));
    }
  }

  lemma Adjoin(z: seq<Frame>, i: nat, j: nat)
    requires i <= j <= |z|
    ensures z[..i] + z[i..j] == z[..j]
  {
  }

  lemma {:induction false} AskedPrefix(perRow: seq<int64>, n: nat, r: nat)
    requires r <= n <= |perRow|
    ensures Asked(perRow[..n], r) == Asked(perRow, r)
  {
    if r > 0 { AskedPrefix(perRow, n, r - 1); }
  }

  function Sum(counts: seq<int64>): int {
    if counts == [] then 0 else Sum(counts[..|counts| - 1]) + counts[|counts| - 1]
  }

  lemma {:induction false} AskedIsSum(perRow: seq<int64>, r: nat)
    requires r <= |perRow| && forall i :: 0 <= i < |perRow| ==> perRow[i] >= 0
    ensures Asked(perRow, r) == Sum(perRow[..r])
  {
    if r > 0 {
      AskedIsSum(perRow, r - 1);
      assert perRow[..r][..r - 1] == perRow[..r - 1];
    }
  }

  /** The counts of a request whose counts are non-negative and add up to the
      number of frames. */
  ghost predicate Exact(z: seq<Frame>, perRow: seq<int64>) {
    Sum(perRow) == |z| && forall i :: 0 <= i < |perRow| ==> perRow[i] >= 0
  }

  lemma RowBounds(z: seq<Frame>, perRow: seq<int64>, r: nat)
    requires Exact(z, perRow) && r < |perRow|
    ensures RowStart(perRow, |z|, r) == Sum(perRow[..r]) >= 0
    ensures RowStart(perRow, |z|, r + 1) == Sum(perRow[..r]) + perRow[r] <= |z|
  {
    AskedIsSum(perRow, |perRow|);
    assert perRow[..|perRow|] == perRow;
    AskedIsSum(perRow, r);
    AskedIsSum(perRow, r + 1);
    assert perRow[..r + 1][..r] == perRow[..r];
    AskedMonotone(perRow, r + 1);
  }

  /** With exact counts the split loses, repeats and reorders nothing: row `r`
      holds the count it asked for, starting at the sum of the counts before
      it, and the rows end to end are the frame list. */
  lemma SplitIsExact(z: seq<Frame>, perRow: seq<int64>, frames: seq<seq<Frame>>)
    requires Exact(z, perRow) && |frames| == |perRow|
    requires forall r :: 0 <= r < |perRow| ==> frames[r] == RowFrames(z, perRow, r)
    ensures Flat(frames) == z
    ensures forall r :: 0 <= r < |perRow| ==> RowAt(z, perRow, r, frames[r])
  {
    SplitConcatenates(z, perRow, frames);
    AskedIsSum(perRow, |perRow|);
    assert perRow[..|perRow|] == perRow && z[..|z|] == z;
    forall r | 0 <= r < |perRow| ensures RowAt(z, perRow, r, frames[r]) { RowBounds(z, perRow, r); }
  }

  /** Counts that are non-negative and add up to the frames there are. */
  ghost predicate CountsFit(starts: seq<int64>, ends: seq<int64>, perRow: seq<int64>) {
    && Sum(perRow) == (if |starts| < |ends| then |starts| else |ends|)
    && forall i :: 0 <= i < |perRow| ==> perRow[i] >= 0
  }

  /** What row `i` of a request is, said of its starts and ends alone: frame `k`
      pairs the start and the end at the sum of the counts before the row, plus
      `k`. */
  ghost predicate PairsUp(starts: seq<int64>, ends: seq<int64>, perRow: seq<int64>, i: nat, row: seq<Frame>)
    requires i < |perRow|
  {
    && |row| == perRow[i]
    && forall k :: 0 <= k < |row| ==>
         var n := Sum(perRow[..i]) + k;
         0 <= n < |starts| && n < |ends| && row[k] == (starts[n], ends[n])
  }

  lemma RowPairsUp(starts: seq<int64>, ends: seq<int64>, perRow: seq<int64>, i: nat)
    requires CountsFit(starts, ends, perRow) && i < |perRow|
    ensures PairsUp(starts, ends, perRow, i, RowFrames(Zip(starts, ends), perRow, i))
  {
    RowBounds(Zip(starts, ends), perRow, i);
  }

  ghost predicate RowAt(z: seq<Frame>, perRow: seq<int64>, r: nat, row: seq<Frame>)
    requires r < |perRow|
  {
    var first := Sum(perRow[..r]);
    0 <= first <= first + perRow[r] <= |z| && row == z[first..first + perRow[r]]
  }

  lemma {:induction false} AskedMonotone(perRow: seq<int64>, r: nat)
    requires r <= |perRow|
    ensures Asked(perRow, r) <= Asked(perRow, |perRow|)
    decreases |perRow| - r
  {
    if r < |perRow| { AskedMonotone(perRow, r + 1); }
  }

  // ---- The mask ----

  /** Bit `k`, counting from the least significant: `(b >> k) & 1`. */
  predicate Bit(b: nat, k: nat) {
    if k == 0 then b % 2 == 1 else Bit(b / 2, k - 1)
  }

  /** Row `i`'s flag; rows past the packed bytes are filtered out. */
  predicate MaskBit(packed: Bytes, i: nat) {
    i / 8 < |packed| && Bit(packed[i / 8], i % 8)
  }

  /** `unpack_mask`: no mask at all when nothing was packed. */
  function Unpack(packed: Bytes, rows: int): (mask: seq<bool>)
  {
    if packed == [] || rows <= 0 then []
    else seq(rows, i requires 0 <= i < rows => MaskBit(packed, i))
  }

  method UnpackMask(packed: Bytes, rows: int) returns (mask: seq<bool>)
    ensures mask == Unpack(packed, rows)
  {
    if packed == [] || rows <= 0 { return []; }
    var flags := new bool[rows](_ => false);
    var i := 0;
    while i < rows
      invariant 0 <= i <= rows
      invariant forall k :: 0 <= k < i ==> flags[k] == MaskBit(packed, k)
      invariant forall k :: i <= k < rows ==> !flags[k]
    {
      var at := i / 8;
      if at >= |packed| {
        assert forall k :: i <= k < rows ==> !MaskBit(packed, k);
        break;
      }
      flags[i] := Bit(packed[at], i % 8);
      i := i + 1;
    }
    mask := flags[..];
  }

  /** Eight flags in a byte, least significant bit first. */
  function PackByte(bits: seq<bool>): nat {
    if bits == [] then 0 else (if bits[0] then 1 else 0) + 2 * PackByte(bits[1..])
  }

  function Power2(k: nat): nat { if k == 0 then 1 else 2 * Power2(k - 1) }

  lemma {:induction false} PackByteBound(bits: seq<bool>)
    ensures PackByte(bits) < Power2(|bits|)
    ensures |bits| <= 8 ==> PackByte(bits) < 256
  {
    if bits != [] { PackByteBound(bits[1..]); }
    if |bits| <= 8 { Power2Bound(|bits|); }
  }

  lemma Power2Bound(k: nat)
    requires k <= 8
    ensures Power2(k) <= 256
  {
    assert Power2(1) == 2 && Power2(2) == 4 && Power2(3) == 8;
    assert Power2(4) == 16 && Power2(5) == 32 && Power2(6) == 64;
    assert Power2(7) == 128 && Power2(8) == 256;
  }

  function Pack(mask: seq<bool>): Bytes {
    if mask == [] then []
    else
      var n := Min(8, |mask|);
      PackByteBound(mask[..n]);
      [PackByte(mask[..n])] + Pack(mask[n..])
  }

  lemma {:induction false} BitOfPackByte(bits: seq<bool>, k: nat)
    requires k < |bits|
    ensures Bit(PackByte(bits), k) == bits[k]
  {
    if k > 0 { BitOfPackByte(bits[1..], k - 1); }
  }

  lemma {:induction false} MaskBitOfPack(mask: seq<bool>, i: nat)
    requires i < |mask|
    ensures MaskBit(Pack(mask), i) == mask[i]
  {
    var n := Min(8, |mask|);
    if i < 8 {
      BitOfPackByte(mask[..n], i);
    } else {
      MaskBitOfPack(mask[8..], i - 8);
      assert Pack(mask)[1..] == Pack(mask[8..]);
      assert i / 8 == (i - 8) / 8 + 1;
    }
  }

  /** Unpacking inverts least-significant-bit-first packing, at every length. */
  lemma UnpackOfPack(mask: seq<bool>)
    ensures Unpack(Pack(mask), |mask|) == mask
  {
    forall i | 0 <= i < |mask| ensures MaskBit(Pack(mask), i) == mask[i] { MaskBitOfPack(mask, i); }
  }
}
