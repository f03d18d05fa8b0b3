/**
 * `Snapshot`: region-level before/after diffing. `save` keeps the blocks
 * pulled from the process; `compare` pulls a second set, pairs every saved
 * block with the first current block it matches, and slides a window of
 * the scan type's width over each saved block, comparing the old bytes with
 * the new bytes at the same absolute address.
 *
 * Pulling memory is a parameter (the blocks `pullMemory` would return);
 * `memCompare` stays uninterpreted.
 */
module SnapshotDiff {
  import opened Wrappers
  import opened ByteBlocks
  import opened MemIO
  import opened Folds

  /** The value interpretations a comparison may use. */
  datatype ScanType = Int8 | Int16 | Int32 | Float32 | Float64

  /** `scanTypeToSize`: the byte width of one value of the type. */
  function ScanTypeSize(t: ScanType): (n: nat)
    ensures 1 <= n <= 8
  {
    match t
    case Int8 => 1
    case Int16 => 2
    case Int32 => 4
    case Float32 => 4
    case Float64 => 8
  }

  /** One match of a snapshot comparison: the absolute address of the value. */
  datatype SnapshotScan = SnapshotScan(address: Address)

  /** A saved (previous) block and the current block it was paired with. */
  datatype MemoryBlockPair = MemoryBlockPair(first: MemoryBlock, second: MemoryBlock)

  // ---------------------------------------------------------------------------
  // Block extents

  /** `getAddress()`: the first address of the block. */
  function First(b: MemoryBlock): int {
    b.address
  }

  /** `getAddress() + getSize()`: one past the block's last byte. */
  function Last(b: MemoryBlock): int {
    b.address + GetSize(b.bytes)
  }

  /** `a` is one of the block's bytes, `[First, Last)`. */
  predicate InExtent(b: MemoryBlock, a: int) {
    First(b) <= a < Last(b)
  }

  /** The closed spans `[First, Last]` of the two blocks meet. */
  predicate SpansMeet(b1: MemoryBlock, b2: MemoryBlock) {
    First(b1) <= Last(b2) && First(b2) <= Last(b1)
  }

  /** `b1` lies strictly inside `b2`, with room on both sides. */
  predicate StrictlyInside(b1: MemoryBlock, b2: MemoryBlock) {
    First(b2) < First(b1) && Last(b1) < Last(b2)
  }

  /** The two blocks end and start at the same address. */
  predicate Touching(b1: MemoryBlock, b2: MemoryBlock) {
    Last(b1) == First(b2) || Last(b2) == First(b1)
  }

  // ---------------------------------------------------------------------------
  // isBlockMatched, as written

  /**
   * `isBlockMatched`: `b2`'s first address, or its end address, lies in the
   * closed span `[First(b1), Last(b1)]`. On blocks of non-negative size that
   * is "the closed spans meet, unless `b1` lies strictly inside `b2`".
   */
  function IsBlockMatched(b1: MemoryBlock, b2: MemoryBlock): (r: bool)
    ensures GetSize(b1.bytes) >= 0 && GetSize(b2.bytes) >= 0 ==>
      (r <==> SpansMeet(b1, b2) && !StrictlyInside(b1, b2))
  {
    (First(b1) <= First(b2) && Last(b1) >= First(b2)) ||
    (First(b1) <= Last(b2) && Last(b1) >= Last(b2))
  }

  /** Every block of non-negative size matches itself. */
  lemma BlockMatchedReflexive(b: MemoryBlock)
    requires GetSize(b.bytes) >= 0
    ensures IsBlockMatched(b, b)
  {
  }

  /** Matching is not symmetric: a block strictly inside another is matched by it but does not match it. */
  lemma BlockMatchedNotSymmetric(b1: MemoryBlock, b2: MemoryBlock)
    requires GetSize(b1.bytes) >= 0
    requires StrictlyInside(b1, b2)
    ensures !IsBlockMatched(b1, b2) && IsBlockMatched(b2, b1)
  {
  }

  // ---------------------------------------------------------------------------
  // The overlap test the pairing evidently intends

  /** The blocks share at least one byte. */
  function IsBlockOverlapping(b1: MemoryBlock, b2: MemoryBlock): (r: bool)
    ensures r <==> exists a: int :: InExtent(b1, a) && InExtent(b2, a)
  {
    var lo := if First(b1) <= First(b2) then First(b2) else First(b1);
    var hi := if Last(b1) <= Last(b2) then Last(b1) else Last(b2);
    assert lo < hi ==> InExtent(b1, lo) && InExtent(b2, lo);
    lo < hi
  }

  /** Sharing a byte does not depend on which block is named first. */
  lemma OverlappingSymmetric(b1: MemoryBlock, b2: MemoryBlock)
    ensures IsBlockOverlapping(b1, b2) == IsBlockOverlapping(b2, b1)
  {
  }

  /** A block with at least one byte overlaps itself. */
  lemma OverlappingReflexive(b: MemoryBlock)
    requires GetSize(b.bytes) > 0
    ensures IsBlockOverlapping(b, b)
  {
    assert InExtent(b, First(b));
  }

  /**
   * On non-empty blocks, `isBlockMatched` is the overlap test with two
   * differences: it also accepts blocks that only touch, and it rejects a
   * `b1` lying strictly inside `b2`.
   */
  lemma MatchedIsOverlapOrTouch(b1: MemoryBlock, b2: MemoryBlock)
    requires GetSize(b1.bytes) > 0 && GetSize(b2.bytes) > 0
    ensures IsBlockMatched(b1, b2) <==>
      (IsBlockOverlapping(b1, b2) && !StrictlyInside(b1, b2)) || Touching(b1, b2)
  {
  }

  /** Two touching blocks share no byte, yet each matches the other. */
  lemma TouchingBlocksMatch(b1: MemoryBlock, b2: MemoryBlock)
    requires GetSize(b1.bytes) >= 0 && GetSize(b2.bytes) >= 0
    requires Last(b1) == First(b2)
    ensures IsBlockMatched(b1, b2) && IsBlockMatched(b2, b1)
    ensures !IsBlockOverlapping(b1, b2)
  {
  }

  // ---------------------------------------------------------------------------
  // createMemoryBlockPairs

  /** The first index from `k` on whose current block `matcher` accepts for `b`. */
  function FirstMatchFrom(b: MemoryBlock, curr: seq<MemoryBlock>, k: nat, matcher: (MemoryBlock, MemoryBlock) -> bool): (r: Option<nat>)
    requires k <= |curr|
    ensures r.Some? ==> k <= r.value < |curr| && matcher(b, curr[r.value])
    ensures r.Some? ==> forall j :: k <= j < r.value ==> !matcher(b, curr[j])
    ensures r.None? ==> forall j :: k <= j < |curr| ==> !matcher(b, curr[j])
    decreases |curr| - k
  {
    if k == |curr| then None
    else if matcher(b, curr[k]) then Some(k)
    else FirstMatchFrom(b, curr, k + 1, matcher)
  }

  /** The inner loop of `createMemoryBlockPairs`: the lowest-index current block that matches `b`. */
  function FirstMatch(b: MemoryBlock, curr: seq<MemoryBlock>, matcher: (MemoryBlock, MemoryBlock) -> bool): (r: Option<nat>)
    ensures r.Some? ==> r.value < |curr| && matcher(b, curr[r.value])
    ensures r.Some? ==> forall j :: 0 <= j < r.value ==> !matcher(b, curr[j])
    ensures r.None? <==> forall j :: 0 <= j < |curr| ==> !matcher(b, curr[j])
  {
    FirstMatchFrom(b, curr, 0, matcher)
  }

  /** `c` is the lowest-index block of `curr` that `matcher` accepts for `b`. */
  predicate IsFirstMatch(b: MemoryBlock, c: MemoryBlock, curr: seq<MemoryBlock>, matcher: (MemoryBlock, MemoryBlock) -> bool) {
    exists j :: 0 <= j < |curr| && curr[j] == c && matcher(b, c) && forall i :: 0 <= i < j ==> !matcher(b, curr[i])
  }

  /** The pair a saved block contributes: none, or the block with its first match. */
  function PairOf(b: MemoryBlock, curr: seq<MemoryBlock>, matcher: (MemoryBlock, MemoryBlock) -> bool): (r: seq<MemoryBlockPair>)
    ensures |r| <= 1
    ensures |r| == 1 <==> exists j :: 0 <= j < |curr| && matcher(b, curr[j])
    ensures |r| == 1 ==> r[0].first == b && IsFirstMatch(b, r[0].second, curr, matcher)
  {
    match FirstMatch(b, curr, matcher)
    case Some(j) => [MemoryBlockPair(b, curr[j])]
    case None => []
  }

  /**
   * `createMemoryBlockPairs`: walks the saved blocks in order and pairs each
   * with its first matching current block; a saved block nothing matches
   * contributes no pair.
   */
  function CreatePairs(prev: seq<MemoryBlock>, curr: seq<MemoryBlock>, matcher: (MemoryBlock, MemoryBlock) -> bool): (r: seq<MemoryBlockPair>)
    ensures |r| <= |prev|
    ensures forall t :: 0 <= t < |r| ==> r[t].first in prev && IsFirstMatch(r[t].first, r[t].second, curr, matcher)
    decreases |prev|
  {
    if |prev| == 0 then []
    else PairOf(prev[0], curr, matcher) + CreatePairs(prev[1..], curr, matcher)
  }

  /** Pairing two runs of saved blocks joins their pairs in order: the pairs follow the saved blocks' order. */
  lemma {:induction false} CreatePairsAppend(p1: seq<MemoryBlock>, p2: seq<MemoryBlock>, curr: seq<MemoryBlock>, matcher: (MemoryBlock, MemoryBlock) -> bool)
    ensures CreatePairs(p1 + p2, curr, matcher) == CreatePairs(p1, curr, matcher) + CreatePairs(p2, curr, matcher)
    decreases |p1|
  {
    if |p1| > 0 {
      assert (p1 + p2)[1..] == p1[1..] + p2;
      CreatePairsAppend(p1[1..], p2, curr, matcher);
    } else {
      assert p1 + p2 == p2;
    }
  }

  /** Every saved block that some current block matches gets a pair, with its first match. */
  lemma {:induction false} CreatePairsComplete(prev: seq<MemoryBlock>, curr: seq<MemoryBlock>, matcher: (MemoryBlock, MemoryBlock) -> bool, i: nat, j: nat)
    requires i < |prev| && j < |curr|
    requires matcher(prev[i], curr[j])
    ensures exists t :: 0 <= t < |CreatePairs(prev, curr, matcher)| && CreatePairs(prev, curr, matcher)[t].first == prev[i]
    decreases |prev|
  {
    var here := PairOf(prev[0], curr, matcher);
    var rest := CreatePairs(prev[1..], curr, matcher);
    assert CreatePairs(prev, curr, matcher) == here + rest;
    if i == 0 {
      assert |here| == 1 && here[0].first == prev[0];
      assert (here + rest)[0] == here[0];
    } else {
      assert prev[1..][i - 1] == prev[i];
      CreatePairsComplete(prev[1..], curr, matcher, i - 1, j);
      var t :| 0 <= t < |rest| && rest[t].first == prev[i];
      assert (here + rest)[|here| + t] == rest[t];
    }
  }

  /** The first match is the lowest index that matches. */
  lemma FirstMatchIs(b: MemoryBlock, curr: seq<MemoryBlock>, matcher: (MemoryBlock, MemoryBlock) -> bool, j: nat)
    requires j < |curr| && matcher(b, curr[j])
    requires forall k :: 0 <= k < j ==> !matcher(b, curr[k])
    ensures FirstMatch(b, curr, matcher) == Some(j)
  {
    assert FirstMatch(b, curr, matcher).Some?;
  }

  /** Every pair is some saved block with its first match. */
  lemma CreatePairsSound(prev: seq<MemoryBlock>, curr: seq<MemoryBlock>, matcher: (MemoryBlock, MemoryBlock) -> bool, pair: MemoryBlockPair)
    requires pair in CreatePairs(prev, curr, matcher)
    ensures exists i, j :: (0 <= i < |prev| && 0 <= j < |curr| && FirstMatch(prev[i], curr, matcher) == Some(j) &&
      pair == MemoryBlockPair(prev[i], curr[j]))
  {
    var pairs := CreatePairs(prev, curr, matcher);
    var t :| 0 <= t < |pairs| && pairs[t] == pair;
    var i :| 0 <= i < |prev| && prev[i] == pair.first;
    var j :| 0 <= j < |curr| && curr[j] == pair.second && matcher(pair.first, pair.second) &&
      forall k :: 0 <= k < j ==> !matcher(pair.first, curr[k]);
    FirstMatchIs(prev[i], curr, matcher, j);
  }

  /** Every saved block with a first match is paired with exactly that match. */
  lemma CreatePairsFirstMatch(prev: seq<MemoryBlock>, curr: seq<MemoryBlock>, matcher: (MemoryBlock, MemoryBlock) -> bool, i: nat, j: nat)
    requires i < |prev| && j < |curr|
    requires FirstMatch(prev[i], curr, matcher) == Some(j)
    ensures MemoryBlockPair(prev[i], curr[j]) in CreatePairs(prev, curr, matcher)
  {
    var pairs := CreatePairs(prev, curr, matcher);
    CreatePairsComplete(prev, curr, matcher, i, j);
    var t :| 0 <= t < |pairs| && pairs[t].first == prev[i];
    var j' :| 0 <= j' < |curr| && curr[j'] == pairs[t].second && matcher(prev[i], curr[j']) &&
      forall k :: 0 <= k < j' ==> !matcher(prev[i], curr[k]);
    FirstMatchIs(prev[i], curr, matcher, j');
    assert pairs[t] == MemoryBlockPair(prev[i], curr[j]);
  }

  // ---------------------------------------------------------------------------
  // comparePair, with the windows kept inside both blocks

  /** The length `comparePair` walks: the block's size, or nothing when the size is negative. */
  function Length(b: MemoryBlock): nat {
    if GetSize(b.bytes) < 0 then 0 else GetSize(b.bytes)
  }

  /** The byte the block holds for absolute address `a`, if it holds one. */
  function ByteAt(b: MemoryBlock, a: int): Option<byte> {
    var off := a - b.address;
    if 0 <= off < |Content(b)| then Some(Content(b)[off]) else None
  }

  /** The `n` bytes the block holds for addresses `a, ..., a + n - 1`, when it holds them all. */
  function Window(b: MemoryBlock, a: int, n: nat): (r: Option<seq<byte>>)
    requires n > 0
    ensures r.Some? <==> forall x :: a <= x < a + n ==> ByteAt(b, x).Some?
    ensures r.Some? ==> |r.value| == n && forall x :: a <= x < a + n ==> ByteAt(b, x) == Some(r.value[x - a])
  {
    var off := a - b.address;
    if 0 <= off && off + n <= |Content(b)| then
      Some(Content(b)[off..off + n])
    else
      assert !ByteAt(b, a).Some? || !ByteAt(b, a + n - 1).Some?;
      None
  }

  /**
   * At address `a` both blocks hold a whole value of width `n`, and the old
   * value (from `first`) stands in relation `op` to the new one (from `second`).
   */
  predicate PairHit(pair: MemoryBlockPair, a: int, n: nat, op: OpType, cmp: Comparator)
    requires n > 0
  {
    var before := Window(pair.first, a, n);
    var after := Window(pair.second, a, n);
    before.Some? && after.Some? && cmp(op, before.value, after.value)
  }

  /** `comparePair` reports `a`: it is one of the addresses the loop walks, and the pair hits there. */
  predicate Reports(pair: MemoryBlockPair, a: int, t: ScanType, op: OpType, cmp: Comparator) {
    First(pair.first) <= a < First(pair.first) + Length(pair.first) && PairHit(pair, a, ScanTypeSize(t), op, cmp)
  }

  /** The matches are listed in strictly increasing address order. */
  predicate IncreasingScans(r: seq<SnapshotScan>) {
    forall i, j :: 0 <= i < j < |r| ==> r[i].address < r[j].address
  }

  /** The loop of `comparePair` from offset `k` on. */
  function CompareFrom(pair: MemoryBlockPair, k: nat, t: ScanType, op: OpType, cmp: Comparator): (r: seq<SnapshotScan>)
    ensures forall i :: 0 <= i < |r| ==> pair.first.address + k <= r[i].address < pair.first.address + Length(pair.first)
    ensures IncreasingScans(r)
    decreases Length(pair.first) - k
  {
    if Length(pair.first) <= k then []
    else
      var a := pair.first.address + k;
      var here := if PairHit(pair, a, ScanTypeSize(t), op, cmp) then [SnapshotScan(a)] else [];
      here + CompareFrom(pair, k + 1, t, op, cmp)
  }

  /** The loop from offset `k` on reports exactly the hits at the offsets it walks. */
  lemma {:induction false} CompareFromHits(pair: MemoryBlockPair, k: nat, t: ScanType, op: OpType, cmp: Comparator)
    ensures forall a: Address :: SnapshotScan(a) in CompareFrom(pair, k, t, op, cmp) <==>
      pair.first.address + k <= a && Reports(pair, a, t, op, cmp)
    decreases Length(pair.first) - k
  {
    if k < Length(pair.first) {
      CompareFromHits(pair, k + 1, t, op, cmp);
      forall a: Address
        ensures SnapshotScan(a) in CompareFrom(pair, k, t, op, cmp) <==> pair.first.address + k <= a && Reports(pair, a, t, op, cmp)
      {
        CompareFromStep(pair, k, t, op, cmp, a);
      }
    }
  }

  /** One step of the loop: offset `k` adds its own address exactly when the pair hits there. */
  lemma CompareFromStep(pair: MemoryBlockPair, k: nat, t: ScanType, op: OpType, cmp: Comparator, a: Address)
    requires k < Length(pair.first)
    requires SnapshotScan(a) in CompareFrom(pair, k + 1, t, op, cmp) <==> pair.first.address + k + 1 <= a && Reports(pair, a, t, op, cmp)
    ensures SnapshotScan(a) in CompareFrom(pair, k, t, op, cmp) <==> pair.first.address + k <= a && Reports(pair, a, t, op, cmp)
  {
    var b := pair.first.address + k;
    var here := if PairHit(pair, b, ScanTypeSize(t), op, cmp) then [SnapshotScan(b)] else [];
    assert CompareFrom(pair, k, t, op, cmp) == here + CompareFrom(pair, k + 1, t, op, cmp);
    assert SnapshotScan(a) in here <==> a == b && PairHit(pair, b, ScanTypeSize(t), op, cmp);
  }

  /**
   * `comparePair`, bounds-checked: reports, in increasing order, exactly the
   * addresses of the saved block where both blocks hold a whole value and
   * the old value stands in relation `op` to the new one.
   */
  function ComparePair(pair: MemoryBlockPair, t: ScanType, op: OpType, cmp: Comparator): (r: seq<SnapshotScan>)
    ensures IncreasingScans(r)
    ensures forall a: Address :: SnapshotScan(a) in r <==> Reports(pair, a, t, op, cmp)
  {
    CompareFromHits(pair, 0, t, op, cmp);
    CompareFrom(pair, 0, t, op, cmp)
  }

  /** Every reported value lies wholly inside the saved block and wholly inside the current one. */
  lemma ComparePairInBounds(pair: MemoryBlockPair, t: ScanType, op: OpType, cmp: Comparator, a: Address)
    requires SnapshotScan(a) in ComparePair(pair, t, op, cmp)
    ensures First(pair.first) <= a && a + ScanTypeSize(t) <= First(pair.first) + |Content(pair.first)|
    ensures First(pair.second) <= a && a + ScanTypeSize(t) <= First(pair.second) + |Content(pair.second)|
  {
    var n := ScanTypeSize(t);
    assert ByteAt(pair.first, a).Some? && ByteAt(pair.first, a + n - 1).Some?;
    assert ByteAt(pair.second, a).Some? && ByteAt(pair.second, a + n - 1).Some?;
  }

  // ---------------------------------------------------------------------------
  // comparePair, as written

  /** `offset = first.getAddress() - second.getAddress()`. */
  function Offset(pair: MemoryBlockPair): int {
    pair.first.address - pair.second.address
  }

  /**
   * Every access the loop makes stays inside the buffers: the old value
   * `firstData[i .. i + n)` and the new value `secondData[offset + i .. offset + i + n)`.
   */
  predicate AsWrittenInBounds(pair: MemoryBlockPair, n: nat) {
    forall i :: 0 <= i < Length(pair.first) ==> AccessInBounds(pair, i, n)
  }

  /** The two accesses of loop offset `i` stay inside the buffers. */
  predicate AccessInBounds(pair: MemoryBlockPair, i: int, n: nat) {
    0 <= i && i + n <= |Content(pair.first)| && 0 <= Offset(pair) + i && Offset(pair) + i + n <= |Content(pair.second)|
  }

  /** The loop of `comparePair` as written, from offset `k` on; defined only where its accesses are in bounds. */
  function CompareFromAsWritten(pair: MemoryBlockPair, k: nat, t: ScanType, op: OpType, cmp: Comparator): (r: seq<SnapshotScan>)
    requires AsWrittenInBounds(pair, ScanTypeSize(t))
    ensures forall i :: 0 <= i < |r| ==> pair.first.address + k <= r[i].address
    decreases Length(pair.first) - k
  {
    if Length(pair.first) <= k then []
    else
      var n := ScanTypeSize(t);
      var off := Offset(pair) + k;
      assert AccessInBounds(pair, k, n);
      var hit := cmp(op, Content(pair.first)[k..k + n], Content(pair.second)[off..off + n]);
      (if hit then [SnapshotScan(pair.first.address + k)] else []) + CompareFromAsWritten(pair, k + 1, t, op, cmp)
  }

  /** `comparePair` as written, defined where its accesses are in bounds. */
  function ComparePairAsWritten(pair: MemoryBlockPair, t: ScanType, op: OpType, cmp: Comparator): (r: seq<SnapshotScan>)
    requires AsWrittenInBounds(pair, ScanTypeSize(t))
    ensures forall i :: 0 <= i < |r| ==> First(pair.first) <= r[i].address
  {
    CompareFromAsWritten(pair, 0, t, op, cmp)
  }

  /** Where its accesses stay in bounds, the loop as written compares the same absolute addresses as the checked one. */
  lemma {:induction false} CompareFromAsWrittenAgrees(pair: MemoryBlockPair, k: nat, t: ScanType, op: OpType, cmp: Comparator)
    requires AsWrittenInBounds(pair, ScanTypeSize(t))
    ensures CompareFromAsWritten(pair, k, t, op, cmp) == CompareFrom(pair, k, t, op, cmp)
    decreases Length(pair.first) - k
  {
    if k < Length(pair.first) {
      var n := ScanTypeSize(t);
      var a := pair.first.address + k;
      var off := Offset(pair) + k;
      assert AccessInBounds(pair, k, n);
      assert Window(pair.first, a, n) == Some(Content(pair.first)[k..k + n]);
      assert a - pair.second.address == off;
      assert Window(pair.second, a, n) == Some(Content(pair.second)[off..off + n]);
      CompareFromAsWrittenAgrees(pair, k + 1, t, op, cmp);
    }
  }

  /** Where the code as written stays in bounds it reports what the checked `ComparePair` reports. */
  lemma ComparePairAsWrittenAgrees(pair: MemoryBlockPair, t: ScanType, op: OpType, cmp: Comparator)
    requires AsWrittenInBounds(pair, ScanTypeSize(t))
    ensures ComparePairAsWritten(pair, t, op, cmp) == ComparePair(pair, t, op, cmp)
  {
    CompareFromAsWrittenAgrees(pair, 0, t, op, cmp);
  }

  /** An 8-byte block at address 16. */
  function Block8(): MemoryBlock {
    MemoryBlock(Bytes(Some([0, 0, 0, 0, 0, 0, 0, 0]), 8), 16)
  }

  /**
   * Comparing a block with itself as `int32` reads past its end: the last
   * offsets of the loop start a 4-byte window in the final 3 bytes.
   */
  lemma ComparePairOverrunsOwnBlock()
    ensures IsBlockMatched(Block8(), Block8())
    ensures !AsWrittenInBounds(MemoryBlockPair(Block8(), Block8()), ScanTypeSize(Int32))
  {
    var pair := MemoryBlockPair(Block8(), Block8());
    assert 7 < Length(pair.first) && !AccessInBounds(pair, 7, 4);
  }

  /**
   * A saved block at 16 paired with a current block at 20 that it matches:
   * the offset is -4, so the very first access reads before the current buffer.
   */
  lemma ComparePairReadsBeforeBuffer()
    ensures IsBlockMatched(Block8(), Block8().(address := 20))
    ensures !AsWrittenInBounds(MemoryBlockPair(Block8(), Block8().(address := 20)), ScanTypeSize(Int8))
  {
    var pair := MemoryBlockPair(Block8(), Block8().(address := 20));
    assert 0 < Length(pair.first) && !AccessInBounds(pair, 0, 1);
  }

  // ---------------------------------------------------------------------------
  // filter

  /**
   * `Snapshot::filter`: the matches of every pair, joined in pair order.
   * (`toMedScans` only changes the element type and is not modelled.)
   */
  function Filter(pairs: seq<MemoryBlockPair>, t: ScanType, op: OpType, cmp: Comparator): (r: seq<SnapshotScan>)
    ensures forall a: Address :: SnapshotScan(a) in r <==> exists i :: 0 <= i < |pairs| && Reports(pairs[i], a, t, op, cmp)
  {
    var f := (p: MemoryBlockPair) => ComparePair(p, t, op, cmp);
    forall a: Address
      ensures SnapshotScan(a) in FlatMap(f, pairs) <==> exists i :: 0 <= i < |pairs| && Reports(pairs[i], a, t, op, cmp)
    {
      FlatMapMembers(f, pairs, SnapshotScan(a));
    }
    FlatMap(f, pairs)
  }

  /** Filtering two runs of pairs joins their matches in order. */
  lemma FilterAppend(p1: seq<MemoryBlockPair>, p2: seq<MemoryBlockPair>, t: ScanType, op: OpType, cmp: Comparator)
    ensures Filter(p1 + p2, t, op, cmp) == Filter(p1, t, op, cmp) + Filter(p2, t, op, cmp)
  {
    FlatMapAppend((p: MemoryBlockPair) => ComparePair(p, t, op, cmp), p1, p2);
  }

  // ---------------------------------------------------------------------------
  // The Snapshot object

  /** The attached process; only its pid matters here. */
  datatype Process = Process(pid: string)

  /**
   * `process` is `None` until the first `save` (the constructor leaves the
   * pointer unset); `scanUnknown` is what `isUnknown()` returns.
   */
  datatype Snapshot = Snapshot(process: Option<Process>, memoryBlocks: MemoryBlocks, scanUnknown: bool)

  /** The constructor: no blocks, not an unknown-value capture. */
  function NewSnapshot(): (s: Snapshot)
    ensures !IsUnknown(s)
    ensures s.process.None? && BlockCount(s.memoryBlocks) == 0
  {
    Snapshot(None, NewMemoryBlocks(), false)
  }

  /** `isUnknown()`: whether a capture was saved for an unknown-value comparison. */
  function IsUnknown(s: Snapshot): bool {
    s.scanUnknown
  }

  /**
   * `save(process)`: always attaches the process. With an empty pid it
   * stops there (the exception object is built but not thrown); otherwise
   * the saved blocks become `pulled` (what `pullMemory` returns) and the
   * snapshot becomes an unknown-value capture.
   */
  function Save(s: Snapshot, process: Process, pulled: MemoryBlocks): (r: Snapshot)
    ensures r.process == Some(process)
    ensures |process.pid| == 0 ==> r.memoryBlocks == s.memoryBlocks && IsUnknown(r) == IsUnknown(s)
    ensures |process.pid| > 0 ==> BlockData(r.memoryBlocks) == BlockData(pulled) && IsUnknown(r)
  {
    if |process.pid| == 0 then
      s.(process := Some(process))
    else
      Snapshot(Some(process), pulled, true)
  }

  /** One `save`: the process passed and the blocks its `pullMemory` returns. */
  datatype SaveCall = SaveCall(process: Process, pulled: MemoryBlocks)

  /** A run of saves, in order. */
  function SaveAll(s: Snapshot, calls: seq<SaveCall>): Snapshot
    decreases |calls|
  {
    if |calls| == 0 then s
    else SaveAll(Save(s, calls[0].process, calls[0].pulled), calls[1..])
  }

  /**
   * The unknown flag after a run of saves: set exactly when it was set before
   * or some save had a non-empty pid. Nothing clears it again, so from a
   * fresh snapshot `isUnknown` is true exactly after a save that pulled memory.
   */
  lemma {:induction false} UnknownAfterSaves(s: Snapshot, calls: seq<SaveCall>)
    ensures IsUnknown(SaveAll(s, calls)) <==> IsUnknown(s) || exists k :: 0 <= k < |calls| && |calls[k].process.pid| > 0
    decreases |calls|
  {
    if |calls| > 0 {
      var s' := Save(s, calls[0].process, calls[0].pulled);
      UnknownAfterSaves(s', calls[1..]);
      if exists k :: 0 <= k < |calls[1..]| && |calls[1..][k].process.pid| > 0 {
        var k :| 0 <= k < |calls[1..]| && |calls[1..][k].process.pid| > 0;
        assert calls[k + 1] == calls[1..][k];
      }
      if exists k :: 0 <= k < |calls| && |calls[k].process.pid| > 0 {
        var k :| 0 <= k < |calls| && |calls[k].process.pid| > 0;
        if k > 0 {
          assert calls[1..][k - 1] == calls[k];
        }
      }
    }
  }

  /** `s` holds a process with a non-empty pid and at least one saved block: `compare` goes past its early returns. */
  predicate Comparable(s: Snapshot)
    requires s.process.Some?
  {
    |s.process.value.pid| > 0 && BlockCount(s.memoryBlocks) != 0
  }

  /**
   * `saved[i]` is paired with `now[j]`, its first match, and `comparePair`
   * reports `a` for that pair.
   */
  predicate PairedReport(saved: seq<MemoryBlock>, now: seq<MemoryBlock>, matcher: (MemoryBlock, MemoryBlock) -> bool,
                         i: int, j: int, a: Address, t: ScanType, op: OpType, cmp: Comparator)
  {
    0 <= i < |saved| && 0 <= j < |now| && FirstMatch(saved[i], now, matcher) == Some(j) &&
    Reports(MemoryBlockPair(saved[i], now[j]), a, t, op, cmp)
  }

  /**
   * Lines 42-44 of `compare`: pair the saved blocks with the current ones and
   * filter the pairs. A scan is reported exactly when some saved block's
   * first match reports it.
   */
  function ComparePaired(saved: seq<MemoryBlock>, now: seq<MemoryBlock>, matcher: (MemoryBlock, MemoryBlock) -> bool,
                         op: OpType, t: ScanType, cmp: Comparator): (r: seq<SnapshotScan>)
    ensures forall a: Address :: SnapshotScan(a) in r <==> exists i, j :: PairedReport(saved, now, matcher, i, j, a, t, op, cmp)
  {
    var r := Filter(CreatePairs(saved, now, matcher), t, op, cmp);
    forall a: Address
      ensures SnapshotScan(a) in r <==> exists i, j :: PairedReport(saved, now, matcher, i, j, a, t, op, cmp)
    {
      if SnapshotScan(a) in r {
        PairedScanSound(saved, now, matcher, a, t, op, cmp);
      }
      if exists i, j :: PairedReport(saved, now, matcher, i, j, a, t, op, cmp) {
        var i, j :| PairedReport(saved, now, matcher, i, j, a, t, op, cmp);
        PairedScanComplete(saved, now, matcher, i, j, a, t, op, cmp);
      }
    }
    r
  }

  /** A scan the filtered pairs report comes from some saved block's first match. */
  lemma PairedScanSound(saved: seq<MemoryBlock>, now: seq<MemoryBlock>, matcher: (MemoryBlock, MemoryBlock) -> bool,
                        a: Address, t: ScanType, op: OpType, cmp: Comparator)
    requires SnapshotScan(a) in Filter(CreatePairs(saved, now, matcher), t, op, cmp)
    ensures exists i, j :: PairedReport(saved, now, matcher, i, j, a, t, op, cmp)
  {
    var pairs := CreatePairs(saved, now, matcher);
    var p :| 0 <= p < |pairs| && Reports(pairs[p], a, t, op, cmp);
    CreatePairsSound(saved, now, matcher, pairs[p]);
    var i, j :| 0 <= i < |saved| && 0 <= j < |now| && FirstMatch(saved[i], now, matcher) == Some(j) &&
      pairs[p] == MemoryBlockPair(saved[i], now[j]);
    assert PairedReport(saved, now, matcher, i, j, a, t, op, cmp);
  }

  /** A scan that a saved block's first match reports is among the filtered pairs' scans. */
  lemma PairedScanComplete(saved: seq<MemoryBlock>, now: seq<MemoryBlock>, matcher: (MemoryBlock, MemoryBlock) -> bool,
                           i: int, j: int, a: Address, t: ScanType, op: OpType, cmp: Comparator)
    requires PairedReport(saved, now, matcher, i, j, a, t, op, cmp)
    ensures SnapshotScan(a) in Filter(CreatePairs(saved, now, matcher), t, op, cmp)
  {
    var pairs := CreatePairs(saved, now, matcher);
    CreatePairsFirstMatch(saved, now, matcher, i, j);
    var p :| 0 <= p < |pairs| && pairs[p] == MemoryBlockPair(saved[i], now[j]);
    assert Reports(pairs[p], a, t, op, cmp);
  }

  /**
   * `compare(op, scanType)`, as written for the pairing: nothing when the pid
   * is empty or no blocks were saved (and then `current`, the second
   * `pullMemory`, is never looked at); otherwise exactly the scans that some
   * saved block's first `isBlockMatched` partner reports. The per-pair loop
   * is the bounds-checked `ComparePair`, which agrees with the source's loop
   * wherever that loop stays inside the buffers. The process pointer must
   * have been set by `save`.
   */
  function CompareAsWritten(s: Snapshot, current: MemoryBlocks, op: OpType, t: ScanType, cmp: Comparator): (r: seq<SnapshotScan>)
    requires s.process.Some?
    ensures !Comparable(s) ==> r == []
    ensures Comparable(s) ==> forall a: Address :: SnapshotScan(a) in r <==>
      exists i, j :: PairedReport(BlockData(s.memoryBlocks), BlockData(current), IsBlockMatched, i, j, a, t, op, cmp)
  {
    if !Comparable(s) then []
    else ComparePaired(BlockData(s.memoryBlocks), BlockData(current), IsBlockMatched, op, t, cmp)
  }

  /**
   * `compare(op, scanType)` with the corrected pairing: as `CompareAsWritten`,
   * but each saved block is paired with the first current block it shares a
   * byte with.
   */
  function Compare(s: Snapshot, current: MemoryBlocks, op: OpType, t: ScanType, cmp: Comparator): (r: seq<SnapshotScan>)
    requires s.process.Some?
    ensures !Comparable(s) ==> r == []
    ensures Comparable(s) ==> forall a: Address :: SnapshotScan(a) in r <==>
      exists i, j :: PairedReport(BlockData(s.memoryBlocks), BlockData(current), IsBlockOverlapping, i, j, a, t, op, cmp)
  {
    if !Comparable(s) then []
    else ComparePaired(BlockData(s.memoryBlocks), BlockData(current), IsBlockOverlapping, op, t, cmp)
  }

  // ---------------------------------------------------------------------------
  // Properties of the whole comparison

  /** A block with at least one byte whose buffer holds exactly `size` bytes, as `pullMemory` builds them. */
  predicate WellFormed(b: MemoryBlock) {
    b.bytes.data.Some? && GetSize(b.bytes) > 0 && |b.bytes.data.value| == GetSize(b.bytes)
  }

  /** No two blocks of the list share a byte. */
  predicate Disjoint(blocks: seq<MemoryBlock>) {
    forall i, j :: 0 <= i < |blocks| && 0 <= j < |blocks| && i != j ==> !IsBlockOverlapping(blocks[i], blocks[j])
  }

  /** With disjoint blocks, each block's first overlapping partner in its own list is itself. */
  lemma SelfPaired(blocks: seq<MemoryBlock>, i: nat)
    requires i < |blocks| && WellFormed(blocks[i]) && Disjoint(blocks)
    ensures FirstMatch(blocks[i], blocks, IsBlockOverlapping) == Some(i)
    ensures MemoryBlockPair(blocks[i], blocks[i]) in CreatePairs(blocks, blocks, IsBlockOverlapping)
  {
    OverlappingReflexive(blocks[i]);
    FirstMatchIs(blocks[i], blocks, IsBlockOverlapping, i);
    CreatePairsFirstMatch(blocks, blocks, IsBlockOverlapping, i, i);
  }

  /** No two blocks of the list have closed spans that meet: at least one unmapped byte lies between any two. */
  predicate Separated(blocks: seq<MemoryBlock>) {
    forall i, j :: 0 <= i < |blocks| && 0 <= j < |blocks| && i != j ==> !SpansMeet(blocks[i], blocks[j])
  }

  /**
   * With well-formed blocks that neither overlap nor touch, each block's first
   * `isBlockMatched` partner in its own list is itself.
   */
  lemma SelfPairedAsWritten(blocks: seq<MemoryBlock>, i: nat)
    requires i < |blocks|
    requires forall k :: 0 <= k < |blocks| ==> WellFormed(blocks[k])
    requires Separated(blocks)
    ensures FirstMatch(blocks[i], blocks, IsBlockMatched) == Some(i)
  {
    assert IsBlockMatched(blocks[i], blocks[i]);
    forall k | 0 <= k < i
      ensures !IsBlockMatched(blocks[i], blocks[k])
    {
      assert !SpansMeet(blocks[i], blocks[k]);
    }
    FirstMatchIs(blocks[i], blocks, IsBlockMatched, i);
  }

  /** A well-formed block compared with itself reports every whole value it holds, when `op` holds between a value and itself. */
  lemma SelfPairReports(b: MemoryBlock, op: OpType, t: ScanType, cmp: Comparator, a: Address)
    requires WellFormed(b)
    requires forall x: seq<byte> :: |x| == ScanTypeSize(t) ==> cmp(op, x, x)
    requires First(b) <= a && a + ScanTypeSize(t) <= Last(b)
    ensures Reports(MemoryBlockPair(b, b), a, t, op, cmp)
  {
    var w := Window(b, a, ScanTypeSize(t));
    assert w.Some?;
    assert cmp(op, w.value, w.value);
  }

  /**
   * Comparing a capture with itself under the corrected pairing: when the
   * saved blocks are disjoint and well formed and `op` holds between a value
   * and itself (as `Unchanged` does), every address of every saved block
   * that starts a whole value is reported.
   */
  lemma UnchangedRoundTrip(s: Snapshot, op: OpType, t: ScanType, cmp: Comparator, i: nat, a: Address)
    requires s.process.Some? && |s.process.value.pid| > 0
    requires i < |BlockData(s.memoryBlocks)|
    requires forall k :: 0 <= k < |BlockData(s.memoryBlocks)| ==> WellFormed(BlockData(s.memoryBlocks)[k])
    requires Disjoint(BlockData(s.memoryBlocks))
    requires forall x: seq<byte> :: |x| == ScanTypeSize(t) ==> cmp(op, x, x)
    requires First(BlockData(s.memoryBlocks)[i]) <= a && a + ScanTypeSize(t) <= Last(BlockData(s.memoryBlocks)[i])
    ensures SnapshotScan(a) in Compare(s, s.memoryBlocks, op, t, cmp)
  {
    var blocks := BlockData(s.memoryBlocks);
    SelfPaired(blocks, i);
    SelfPairReports(blocks[i], op, t, cmp, a);
    assert PairedReport(blocks, blocks, IsBlockOverlapping, i, i, a, t, op, cmp);
  }

  /**
   * The same round trip for `compare` as written: it holds when the saved
   * blocks also do not touch. `TouchingBlockStealsPair` shows it fails for
   * touching blocks.
   */
  lemma UnchangedRoundTripAsWritten(s: Snapshot, op: OpType, t: ScanType, cmp: Comparator, i: nat, a: Address)
    requires s.process.Some? && |s.process.value.pid| > 0
    requires i < |BlockData(s.memoryBlocks)|
    requires forall k :: 0 <= k < |BlockData(s.memoryBlocks)| ==> WellFormed(BlockData(s.memoryBlocks)[k])
    requires Separated(BlockData(s.memoryBlocks))
    requires forall x: seq<byte> :: |x| == ScanTypeSize(t) ==> cmp(op, x, x)
    requires First(BlockData(s.memoryBlocks)[i]) <= a && a + ScanTypeSize(t) <= Last(BlockData(s.memoryBlocks)[i])
    ensures SnapshotScan(a) in CompareAsWritten(s, s.memoryBlocks, op, t, cmp)
  {
    var blocks := BlockData(s.memoryBlocks);
    SelfPairedAsWritten(blocks, i);
    SelfPairReports(blocks[i], op, t, cmp, a);
    assert PairedReport(blocks, blocks, IsBlockMatched, i, i, a, t, op, cmp);
  }

  /** A buffer of `size` zero bytes captured at `address`. */
  function ZeroBlock(address: Address, size: nat): (b: MemoryBlock)
    ensures First(b) == address && Last(b) == address + size
  {
    MemoryBlock(Bytes(Some(seq(size, _ => 0)), size), address)
  }

  /**
   * Two adjacent saved blocks compared with an unchanged capture: the second
   * block touches the first, so it is paired with the first instead of with
   * itself, and every access of that pair lies past the first block's buffer.
   * The overlap test pairs each block with itself.
   */
  lemma TouchingBlockStealsPair()
    ensures CreatePairs([ZeroBlock(0, 4), ZeroBlock(4, 4)], [ZeroBlock(0, 4), ZeroBlock(4, 4)], IsBlockMatched) ==
      [MemoryBlockPair(ZeroBlock(0, 4), ZeroBlock(0, 4)), MemoryBlockPair(ZeroBlock(4, 4), ZeroBlock(0, 4))]
    ensures !AsWrittenInBounds(MemoryBlockPair(ZeroBlock(4, 4), ZeroBlock(0, 4)), ScanTypeSize(Int8))
  {
    var a, b := ZeroBlock(0, 4), ZeroBlock(4, 4);
    var blocks := [a, b];
    assert IsBlockMatched(a, a) && IsBlockMatched(b, a);
    assert FirstMatch(a, blocks, IsBlockMatched) == Some(0);
    assert FirstMatch(b, blocks, IsBlockMatched) == Some(0);
    assert CreatePairs(blocks, blocks, IsBlockMatched) == PairOf(a, blocks, IsBlockMatched) + CreatePairs([b], blocks, IsBlockMatched);
    assert CreatePairs([b], blocks, IsBlockMatched) == PairOf(b, blocks, IsBlockMatched) + CreatePairs([], blocks, IsBlockMatched);
    assert 0 < Length(b) && !AccessInBounds(MemoryBlockPair(b, a), 0, 1);
  }

  /** With the overlap test, each of the two adjacent blocks is paired with itself. */
  lemma TouchingBlocksPairedByOverlap()
    ensures CreatePairs([ZeroBlock(0, 4), ZeroBlock(4, 4)], [ZeroBlock(0, 4), ZeroBlock(4, 4)], IsBlockOverlapping) ==
      [MemoryBlockPair(ZeroBlock(0, 4), ZeroBlock(0, 4)), MemoryBlockPair(ZeroBlock(4, 4), ZeroBlock(4, 4))]
  {
    var a, b := ZeroBlock(0, 4), ZeroBlock(4, 4);
    var blocks := [a, b];
    OverlappingReflexive(a);
    OverlappingReflexive(b);
    assert blocks[0] == a && blocks[1] == b;
    assert !IsBlockOverlapping(b, a) && IsBlockOverlapping(b, b);
    assert FirstMatch(a, blocks, IsBlockOverlapping) == Some(0);
    assert FirstMatch(b, blocks, IsBlockOverlapping) == Some(1);
    assert CreatePairs(blocks, blocks, IsBlockOverlapping) == PairOf(a, blocks, IsBlockOverlapping) + CreatePairs([b], blocks, IsBlockOverlapping);
    assert CreatePairs([b], blocks, IsBlockOverlapping) == PairOf(b, blocks, IsBlockOverlapping) + CreatePairs([], blocks, IsBlockOverlapping);
  }

  /**
   * A saved block lying strictly inside the only current block (the region
   * grew on both sides) gets no pair, so none of its bytes are compared; the
   * overlap test pairs them.
   */
  lemma ContainedBlockUnpaired()
    ensures CreatePairs([ZeroBlock(4, 4)], [ZeroBlock(0, 12)], IsBlockMatched) == []
    ensures CreatePairs([ZeroBlock(4, 4)], [ZeroBlock(0, 12)], IsBlockOverlapping) == [MemoryBlockPair(ZeroBlock(4, 4), ZeroBlock(0, 12))]
  {
    var b, c := ZeroBlock(4, 4), ZeroBlock(0, 12);
    assert !IsBlockMatched(b, c);
    assert InExtent(b, 4) && InExtent(c, 4);
    assert CreatePairs([b], [c], IsBlockMatched) == PairOf(b, [c], IsBlockMatched) + CreatePairs([], [c], IsBlockMatched);
    assert CreatePairs([b], [c], IsBlockOverlapping) == PairOf(b, [c], IsBlockOverlapping) + CreatePairs([], [c], IsBlockOverlapping);
  }

  /**
   * The contained block at the level of `compare`: a saved block of four
   * bytes at 4 inside a current block of twelve bytes at 0, unchanged. As
   * written nothing is reported; the corrected pairing reports address 4.
   */
  lemma ContainedBlockCompareDiffers(op: OpType, cmp: Comparator)
    requires forall x: seq<byte> :: |x| == 1 ==> cmp(op, x, x)
    ensures CompareAsWritten(Snapshot(Some(Process("1")), MemoryBlocks([ZeroBlock(4, 4)]), true),
                             MemoryBlocks([ZeroBlock(0, 12)]), op, Int8, cmp) == []
    ensures SnapshotScan(4) in Compare(Snapshot(Some(Process("1")), MemoryBlocks([ZeroBlock(4, 4)]), true),
                                       MemoryBlocks([ZeroBlock(0, 12)]), op, Int8, cmp)
  {
    var b, c := ZeroBlock(4, 4), ZeroBlock(0, 12);
    ContainedBlockUnpaired();
    assert FlatMap((p: MemoryBlockPair) => ComparePair(p, Int8, op, cmp), []) == [];
    OverlappingReflexive(b);
    assert InExtent(b, 4) && InExtent(c, 4);
    FirstMatchIs(b, [c], IsBlockOverlapping, 0);
    var w, v := Window(b, 4, 1), Window(c, 4, 1);
    assert ByteAt(b, 4) == Some(0) && ByteAt(c, 4) == Some(0);
    assert w.Some? && v.Some?;
    assert w.value[0] == 0 && v.value[0] == 0;
    assert w.value == [0] == v.value;
    assert cmp(op, w.value, v.value);
    assert PairedReport([b], [c], IsBlockOverlapping, 0, 0, 4, Int8, op, cmp);
  }
}
