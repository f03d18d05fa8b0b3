/**
 * `MemScanner`: the known-value scan over the process's mapped regions and
 * the filter pass over an existing candidate list. Every queued task here is
 * one step of a sequential fold, and each seek with its read is one step
 * (`MemIO.Read`). The tasks share one descriptor, so in the source another
 * task's seek can come between them (`SharedOffset`); that race and the
 * unlocked appends of `scanPage` are outside this fold. The lemmas at the
 * end of each part show that the final `sortByAddress` removes the order in
 * which tasks append.
 */
module MemScanner {
  import opened Wrappers
  import opened ByteBlocks
  import opened MemIO
  import opened MemList
  import opened Folds
  import opened SharedAppend

  /** Distance between two tested window offsets inside a page. */
  const STEP: nat := 1
  /** Number of candidates one filter task re-reads. */
  const CHUNK_SIZE: nat := 128

  /** One mapped region `[start, end)` of the target (`maps.starts[i]`, `maps.ends[i]`). */
  datatype Region = Region(start: Address, end: Address)

  /** What a scan or filter pass looks for: `size` bytes in relation `op` to `value`. */
  datatype Query = Query(value: seq<byte>, size: nat, scanType: string, op: OpType)

  /** The `size` bytes at `a` can be read and stand in relation `op` to `value`. */
  predicate Matches(mem: Memory, a: Address, q: Query, cmp: Comparator) {
    match Read(mem, a, q.size)
    case Some(w) => cmp(q.op, w, q.value)
    case None => false
  }

  /** `c` is what `memio->read(c.address, size)` yields, tagged with the query's scan type. */
  predicate Reported(mem: Memory, c: Pem, q: Query) {
    Read(mem, c.address, q.size) == Some(c.data) && c.scanType == q.scanType
  }

  /** `from, from + step, from + 2 * step, ...` while below `to`. */
  function Strided(from: nat, to: nat, step: nat): (r: seq<nat>)
    requires step > 0
    ensures |r| == 0 <==> to <= from
    ensures |r| > 0 ==> r[0] == from
    ensures forall t :: 0 <= t < |r| ==> from <= r[t] < to
    ensures forall t :: 0 <= t < |r| - 1 ==> r[t + 1] == r[t] + step
    ensures |r| > 0 ==> to <= r[|r| - 1] + step
    decreases if from < to then to - from else 0
  {
    if to <= from then [] else [from] + Strided(from + step, to, step)
  }

  /** Each start lies at least `step` below every later one. */
  predicate Spaced(r: seq<nat>, step: nat) {
    forall t, u :: 0 <= t < u < |r| ==> r[t] + step <= r[u]
  }

  /** Strided starts are spaced at least `step` apart. */
  lemma StridedSpaced(from: nat, to: nat, step: nat)
    requires step > 0
    ensures Spaced(Strided(from, to, step), step)
  {
    var r := Strided(from, to, step);
    forall t, u | 0 <= t < u < |r|
      ensures r[t] + step <= r[u]
    {
      StepsGrow(r, step, t, u);
    }
  }

  /** In a list whose neighbours lie exactly `step` apart, each entry lies at least `step` below every later one. */
  lemma {:induction false} StepsGrow(r: seq<nat>, step: nat, t: nat, u: nat)
    requires forall k :: 0 <= k < |r| - 1 ==> r[k + 1] == r[k] + step
    requires t < u < |r|
    ensures r[t] + step <= r[u]
    decreases u - t
  {
    if t + 1 < u {
      StepsGrow(r, step, t, u - 1);
      assert r[u] == r[u - 1] + step;
    }
  }

  /**
   * The blocks `[s, s + step)` of the strided starts partition `[from, to)`:
   * every address there lies in exactly one of them.
   */
  lemma StridedCovers(from: nat, to: nat, step: nat, a: nat)
    requires step > 0
    requires from <= a < to
    ensures exists t :: 0 <= t < |Strided(from, to, step)| && InBlock(Strided(from, to, step)[t], step, a)
    ensures forall t, u ::
      (0 <= t < |Strided(from, to, step)| && 0 <= u < |Strided(from, to, step)| &&
       InBlock(Strided(from, to, step)[t], step, a) && InBlock(Strided(from, to, step)[u], step, a)) ==> t == u
  {
    StridedSpaced(from, to, step);
    SpacedBlocksApart(Strided(from, to, step), step, a);
    StridedReaches(from, to, step, a);
  }

  /** Some strided start has `a` in its block. */
  lemma {:induction false} StridedReaches(from: nat, to: nat, step: nat, a: nat)
    requires step > 0
    requires from <= a < to
    decreases if from < to then to - from else 0
    ensures exists t :: 0 <= t < |Strided(from, to, step)| && InBlock(Strided(from, to, step)[t], step, a)
  {
    var r := Strided(from, to, step);
    if a < from + step {
      assert InBlock(r[0], step, a);
    } else {
      StridedReaches(from + step, to, step, a);
      var rest := Strided(from + step, to, step);
      assert r[1..] == rest;
      var t' :| 0 <= t' < |rest| && InBlock(rest[t'], step, a);
      assert InBlock(r[t' + 1], step, a);
    }
  }

  /** Blocks whose starts are spaced at least `step` apart do not share an address. */
  lemma SpacedBlocksApart(r: seq<nat>, step: nat, a: nat)
    requires Spaced(r, step)
    ensures forall t, u :: 0 <= t < |r| && 0 <= u < |r| && InBlock(r[t], step, a) && InBlock(r[u], step, a) ==> t == u
  {
    forall t, u | 0 <= t < |r| && 0 <= u < |r| && InBlock(r[t], step, a) && InBlock(r[u], step, a)
      ensures t == u
    {
      assert !(t < u) && !(u < t);
    }
  }

  /** `a` lies in the block of `step` addresses starting at `s`. */
  predicate InBlock(s: nat, step: nat, a: nat) {
    s <= a < s + step
  }

  // ---------------------------------------------------------------------------
  // scanPage

  /**
   * The window at page offset `k` fits in the page, its bytes satisfy the
   * query, and `memio->read` of it succeeds.
   */
  predicate WindowHit(mem: Memory, page: seq<byte>, start: Address, k: nat, q: Query, cmp: Comparator) {
    k + q.size <= |page| && cmp(q.op, page[k..k + q.size], q.value) && Read(mem, start + k, q.size).Some?
  }

  /** `c` reports a window hit of the page starting at `start`. */
  predicate PageReport(mem: Memory, page: seq<byte>, start: Address, c: Pem, q: Query, cmp: Comparator) {
    start <= c.address && WindowHit(mem, page, start, c.address - start, q, cmp) && Reported(mem, c, q)
  }

  /** The loop of `scanPage` from offset `k` on. */
  function ScanWindows(mem: Memory, page: seq<byte>, start: Address, k: nat, q: Query, cmp: Comparator): (r: seq<Pem>)
    decreases |page| + 1 - k
    ensures forall i :: 0 <= i < |r| ==> start + k <= r[i].address
    ensures forall i :: 0 <= i < |r| ==> PageReport(mem, page, start, r[i], q, cmp)
    ensures StrictlyIncreasing(r)
  {
    if k + q.size > |page| then []
    else
      var rest := ScanWindows(mem, page, start, k + STEP, q, cmp);
      if !cmp(q.op, page[k..k + q.size], q.value) then rest
      else match Read(mem, start + k, q.size)
        case None => rest
        case Some(d) =>
          var c := Pem(start + k, d, q.scanType);
          assert PageReport(mem, page, start, c, q, cmp);
          [c] + rest
  }

  /** One step of the `scanPage` loop: the window at `k` is reported, when it hits, ahead of the later ones. */
  lemma ScanWindowsStep(mem: Memory, page: seq<byte>, start: Address, k: nat, q: Query, cmp: Comparator)
    requires k + q.size <= |page|
    ensures ScanWindows(mem, page, start, k, q, cmp) ==
      (if WindowHit(mem, page, start, k, q, cmp) then [Pem(start + k, Read(mem, start + k, q.size).value, q.scanType)] else []) +
      ScanWindows(mem, page, start, k + STEP, q, cmp)
  {
  }

  /** Every window hit from offset `k` on is reported. */
  lemma {:induction false} ScanWindowsComplete(mem: Memory, page: seq<byte>, start: Address, k: nat, q: Query, cmp: Comparator)
    decreases |page| + 1 - k
    ensures forall j :: k <= j ==>
      (start + j in AddressesOf(ScanWindows(mem, page, start, k, q, cmp)) <==> WindowHit(mem, page, start, j, q, cmp))
  {
    if k + q.size <= |page| {
      ScanWindowsComplete(mem, page, start, k + STEP, q, cmp);
      ScanWindowsStep(mem, page, start, k, q, cmp);
      var hit := WindowHit(mem, page, start, k, q, cmp);
      var here := if hit then [Pem(start + k, Read(mem, start + k, q.size).value, q.scanType)] else [];
      var rest := ScanWindows(mem, page, start, k + STEP, q, cmp);
      AddressesOfConcat(here, rest);
      AddressesOfSmall(Pem(start + k, [], q.scanType));
      if hit {
        AddressesOfSmall(here[0]);
      }
      assert AddressesOf(here) == if hit then {start + k} else {};
      assert start + k !in AddressesOf(rest) by {
        assert forall i :: 0 <= i < |rest| ==> rest[i].address != start + k;
      }
      forall j | k <= j
        ensures start + j in AddressesOf(here + rest) <==> WindowHit(mem, page, start, j, q, cmp)
      {
        if j == k {
          assert start + j !in AddressesOf(rest);
        } else {
          assert start + j !in AddressesOf(here);
        }
      }
    } else {
      assert ScanWindows(mem, page, start, k, q, cmp) == [];
      AddressesOfSmall(Pem(start, [], q.scanType));
    }
  }

  /**
   * `scanPage`: slides a `size`-byte window over the page one byte at a time
   * and reports `start + k` exactly when the window at offset `k` matches and
   * can be read back; every reported window lies inside the page.
   */
  function ScanPage(mem: Memory, page: seq<byte>, start: Address, q: Query, cmp: Comparator): (r: seq<Pem>)
    ensures forall i :: 0 <= i < |r| ==> start <= r[i].address && r[i].address + q.size <= start + |page|
    ensures forall i :: 0 <= i < |r| ==> Reported(mem, r[i], q)
    ensures forall k :: start + k in AddressesOf(r) <==> WindowHit(mem, page, start, k, q, cmp)
    ensures StrictlyIncreasing(r)
  {
    ScanWindowsComplete(mem, page, start, 0, q, cmp);
    ScanWindows(mem, page, start, 0, q, cmp)
  }

  /**
   * When the page buffer is what memory holds at `start`, a window hit is a
   * plain match of memory at `start + k`, and the reported bytes are the
   * window's own bytes.
   */
  lemma WindowHitOfReadPage(mem: Memory, start: Address, pageSize: nat, k: nat, q: Query, cmp: Comparator)
    requires Read(mem, start, pageSize).Some?
    ensures var page := Read(mem, start, pageSize).value;
      WindowHit(mem, page, start, k, q, cmp) <==> k + q.size <= pageSize && Matches(mem, start + k, q, cmp)
    ensures k + q.size <= pageSize ==>
      Read(mem, start + k, q.size) == Some(Read(mem, start, pageSize).value[k..k + q.size])
  {
    if k + q.size <= pageSize {
      ReadSlice(mem, start, pageSize, k, q.size);
    }
  }

  // ---------------------------------------------------------------------------
  // scanMap and scan

  /**
   * A page of `pageSize` bytes starting at `p` can be read, and the window of
   * `size` bytes at `a` lies inside that page and matches the query.
   */
  predicate PageHit(mem: Memory, p: Address, pageSize: nat, a: Address, q: Query, cmp: Comparator) {
    Readable(mem, p, pageSize) && p <= a && a + q.size <= p + pageSize && Matches(mem, a, q, cmp)
  }

  /** The hits of one page: nothing when its seek or read fails. */
  function ScanOnePage(mem: Memory, p: Address, pageSize: nat, q: Query, cmp: Comparator): (r: seq<Pem>)
    ensures forall i :: 0 <= i < |r| ==> Reported(mem, r[i], q) && PageHit(mem, p, pageSize, r[i].address, q, cmp)
    ensures forall i :: 0 <= i < |r| ==> p <= r[i].address && r[i].address + q.size <= p + pageSize
    ensures forall a :: a in AddressesOf(r) <==> PageHit(mem, p, pageSize, a, q, cmp)
    ensures StrictlyIncreasing(r)
  {
    match Read(mem, p, pageSize)
    case None => []
    case Some(page) =>
      var r := ScanPage(mem, page, p, q, cmp);
      assert forall i | 0 <= i < |r| :: PageHit(mem, p, pageSize, r[i].address, q, cmp) by {
        forall i | 0 <= i < |r|
          ensures PageHit(mem, p, pageSize, r[i].address, q, cmp)
        {
          WindowHitOfReadPage(mem, p, pageSize, r[i].address - p, q, cmp);
        }
      }
      assert forall a :: a in AddressesOf(r) <==> PageHit(mem, p, pageSize, a, q, cmp) by {
        forall a: Address
          ensures a in AddressesOf(r) <==> PageHit(mem, p, pageSize, a, q, cmp)
        {
          if a >= p {
            WindowHitOfReadPage(mem, p, pageSize, a - p, q, cmp);
            assert p + (a - p) == a;
          }
        }
      }
      r
  }

  /**
   * The hits of the pages starting at `pages`, one page after another. With
   * an empty window a page's last offset and the next page's first offset
   * name the same address, so only a non-empty window gives strict order.
   */
  function ScanPageList(mem: Memory, pages: seq<nat>, pageSize: nat, q: Query, cmp: Comparator): (r: seq<Pem>)
    requires Spaced(pages, pageSize)
    ensures forall i :: 0 <= i < |r| ==> Reported(mem, r[i], q)
    ensures |pages| > 0 ==> forall i :: 0 <= i < |r| ==> pages[0] <= r[i].address
    ensures SortedByAddress(r)
    ensures q.size > 0 ==> StrictlyIncreasing(r)
  {
    if |pages| == 0 then []
    else
      var here := ScanOnePage(mem, pages[0], pageSize, q, cmp);
      var rest := ScanPageList(mem, pages[1..], pageSize, q, cmp);
      assert |pages| > 1 ==> pages[0] + pageSize <= pages[1];
      JoinPages(here, rest, pages[0] + pageSize, q.size);
      here + rest
  }

  /**
   * Joining the hits of one page, whose windows end by `bound`, with the
   * hits of later pages, which start at `bound` or above, keeps the order.
   */
  lemma JoinPages(here: seq<Pem>, rest: seq<Pem>, bound: nat, size: nat)
    requires SortedByAddress(here) && SortedByAddress(rest)
    requires forall i :: 0 <= i < |here| ==> here[i].address + size <= bound
    requires forall j :: 0 <= j < |rest| ==> bound <= rest[j].address
    ensures SortedByAddress(here + rest)
    ensures size > 0 && StrictlyIncreasing(here) && StrictlyIncreasing(rest) ==> StrictlyIncreasing(here + rest)
  {
    var ab := here + rest;
    forall i, j | 0 <= i < j < |ab|
      ensures ab[i].address <= ab[j].address
      ensures size > 0 && StrictlyIncreasing(here) && StrictlyIncreasing(rest) ==> ab[i].address < ab[j].address
    {
      if j < |here| {
        assert ab[i] == here[i] && ab[j] == here[j];
      } else if i < |here| {
        assert ab[i] == here[i] && ab[j] == rest[j - |here|];
      } else {
        assert ab[i] == rest[i - |here|] && ab[j] == rest[j - |here|];
      }
    }
  }

  /** Every reported address is a hit of one of the listed pages. */
  lemma {:induction false} ScanPageListSound(mem: Memory, pages: seq<nat>, pageSize: nat, q: Query, cmp: Comparator, a: Address)
    requires Spaced(pages, pageSize)
    requires a in AddressesOf(ScanPageList(mem, pages, pageSize, q, cmp))
    ensures exists t :: 0 <= t < |pages| && PageHit(mem, pages[t], pageSize, a, q, cmp)
  {
    var here := ScanOnePage(mem, pages[0], pageSize, q, cmp);
    var rest := ScanPageList(mem, pages[1..], pageSize, q, cmp);
    AddressesOfConcat(here, rest);
    if a in AddressesOf(rest) {
      ScanPageListSound(mem, pages[1..], pageSize, q, cmp, a);
      var t :| 0 <= t < |pages[1..]| && PageHit(mem, pages[1..][t], pageSize, a, q, cmp);
      assert PageHit(mem, pages[t + 1], pageSize, a, q, cmp);
    } else {
      assert PageHit(mem, pages[0], pageSize, a, q, cmp);
    }
  }

  /** Every hit of a listed page is reported. */
  lemma {:induction false} ScanPageListComplete(mem: Memory, pages: seq<nat>, pageSize: nat, q: Query, cmp: Comparator, t: nat, a: Address)
    requires Spaced(pages, pageSize)
    requires t < |pages| && PageHit(mem, pages[t], pageSize, a, q, cmp)
    ensures a in AddressesOf(ScanPageList(mem, pages, pageSize, q, cmp))
    decreases t
  {
    var here := ScanOnePage(mem, pages[0], pageSize, q, cmp);
    var rest := ScanPageList(mem, pages[1..], pageSize, q, cmp);
    AddressesOfConcat(here, rest);
    if t > 0 {
      assert pages[1..][t - 1] == pages[t];
      ScanPageListComplete(mem, pages[1..], pageSize, q, cmp, t - 1, a);
    }
  }

  /** The page starts `scanMap` visits in `region`: `start, start + pageSize, ...` below `end`. */
  function PageStarts(region: Region, pageSize: nat): (r: seq<nat>)
    requires pageSize > 0
    ensures |r| == 0 <==> region.end <= region.start
    ensures |r| > 0 ==> r[0] == region.start && region.end <= r[|r| - 1] + pageSize
    ensures forall t :: 0 <= t < |r| - 1 ==> r[t + 1] == r[t] + pageSize
    ensures forall t :: 0 <= t < |r| ==> region.start <= r[t] < region.end
    ensures Spaced(r, pageSize)
  {
    StridedSpaced(region.start, region.end, pageSize);
    Strided(region.start, region.end, pageSize)
  }

  /** Some visited page of `region` is readable and holds a matching window at `a`. */
  ghost predicate RegionHit(mem: Memory, region: Region, pageSize: nat, a: Address, q: Query, cmp: Comparator)
    requires pageSize > 0
  {
    exists p :: ScannedPage(region, pageSize, p) && PageHit(mem, p, pageSize, a, q, cmp)
  }

  /** `p` is one of the page starts `scanMap` visits in `region`. */
  predicate ScannedPage(region: Region, pageSize: nat, p: nat)
    requires pageSize > 0
  {
    p in PageStarts(region, pageSize)
  }

  /**
   * `scanMap`: reports `a` exactly when some visited page of the region is
   * readable and holds a matching window at `a`. A page whose seek or read
   * fails contributes nothing and does not stop the walk.
   */
  function ScanMap(mem: Memory, region: Region, pageSize: nat, q: Query, cmp: Comparator): (r: seq<Pem>)
    requires pageSize > 0
    ensures forall i :: 0 <= i < |r| ==> Reported(mem, r[i], q) && region.start <= r[i].address
    ensures forall a: Address :: a in AddressesOf(r) <==> RegionHit(mem, region, pageSize, a, q, cmp)
    ensures SortedByAddress(r)
    ensures q.size > 0 ==> StrictlyIncreasing(r)
  {
    var r := ScanPageList(mem, PageStarts(region, pageSize), pageSize, q, cmp);
    PageListHits(mem, region, pageSize, q, cmp);
    r
  }

  /** The hits of the visited pages of `region` are exactly the region's hits. */
  lemma PageListHits(mem: Memory, region: Region, pageSize: nat, q: Query, cmp: Comparator)
    requires pageSize > 0
    ensures forall a: Address :: a in AddressesOf(ScanPageList(mem, PageStarts(region, pageSize), pageSize, q, cmp)) <==>
      RegionHit(mem, region, pageSize, a, q, cmp)
  {
    var pages := PageStarts(region, pageSize);
    var r := ScanPageList(mem, pages, pageSize, q, cmp);
    forall a: Address
      ensures a in AddressesOf(r) <==> RegionHit(mem, region, pageSize, a, q, cmp)
    {
      if RegionHit(mem, region, pageSize, a, q, cmp) {
        var p :| ScannedPage(region, pageSize, p) && PageHit(mem, p, pageSize, a, q, cmp);
        var t :| 0 <= t < |pages| && pages[t] == p;
        ScanPageListComplete(mem, pages, pageSize, q, cmp, t, a);
      }
      if a in AddressesOf(r) {
        ScanPageListSound(mem, pages, pageSize, q, cmp, a);
        var t :| 0 <= t < |pages| && PageHit(mem, pages[t], pageSize, a, q, cmp);
        assert ScannedPage(region, pageSize, pages[t]);
      }
    }
  }

  /**
   * A window that crosses the end of the visited page holding its first
   * byte is never reported: windows never straddle two pages.
   */
  lemma StraddlingWindowMissed(mem: Memory, region: Region, pageSize: nat, p: nat, a: Address, q: Query, cmp: Comparator)
    requires pageSize > 0
    requires ScannedPage(region, pageSize, p)
    requires p <= a < p + pageSize < a + q.size
    ensures a !in AddressesOf(ScanMap(mem, region, pageSize, q, cmp))
  {

  }

  /** One `scanMap` task per region, run one after another; the tasks' results joined in queue order. */
  function ScanRegions(mem: Memory, regions: seq<Region>, pageSize: nat, q: Query, cmp: Comparator): (r: seq<Pem>)
    requires pageSize > 0
    ensures forall i :: 0 <= i < |r| ==> Reported(mem, r[i], q)
  {
    if |regions| == 0 then []
    else ScanMap(mem, regions[0], pageSize, q, cmp) + ScanRegions(mem, regions[1..], pageSize, q, cmp)
  }

  /** The joined task results report exactly the addresses some region's pages hit. */
  lemma {:induction false} ScanRegionsHits(mem: Memory, regions: seq<Region>, pageSize: nat, q: Query, cmp: Comparator)
    requires pageSize > 0
    ensures forall a: Address :: a in AddressesOf(ScanRegions(mem, regions, pageSize, q, cmp)) <==>
      exists m :: 0 <= m < |regions| && RegionHit(mem, regions[m], pageSize, a, q, cmp)
  {
    if |regions| > 0 {
      ScanRegionsHits(mem, regions[1..], pageSize, q, cmp);
      AddressesOfConcat(ScanMap(mem, regions[0], pageSize, q, cmp), ScanRegions(mem, regions[1..], pageSize, q, cmp));
      forall a: Address
        ensures a in AddressesOf(ScanRegions(mem, regions, pageSize, q, cmp)) <==>
          exists m :: 0 <= m < |regions| && RegionHit(mem, regions[m], pageSize, a, q, cmp)
      {
        RegionsHitCons(mem, regions, pageSize, a, q, cmp);
      }
    }
  }

  /** Some region of a non-empty list hits `a` exactly when the first does or some later one does. */
  lemma RegionsHitCons(mem: Memory, regions: seq<Region>, pageSize: nat, a: Address, q: Query, cmp: Comparator)
    requires pageSize > 0 && |regions| > 0
    ensures (exists m :: 0 <= m < |regions| && RegionHit(mem, regions[m], pageSize, a, q, cmp)) <==>
      RegionHit(mem, regions[0], pageSize, a, q, cmp) ||
      exists m :: 0 <= m < |regions[1..]| && RegionHit(mem, regions[1..][m], pageSize, a, q, cmp)
  {
    forall m | 0 <= m < |regions[1..]|
      ensures regions[1..][m] == regions[m + 1]
    {
    }
    if exists m :: 0 <= m < |regions| && RegionHit(mem, regions[m], pageSize, a, q, cmp) {
      var m :| 0 <= m < |regions| && RegionHit(mem, regions[m], pageSize, a, q, cmp);
      if m > 0 {
        assert regions[1..][m - 1] == regions[m];
      }
    }
  }

  /**
   * `scan`: every mapped region's hits, sorted by address. An address is
   * reported exactly when a visited page of some region is readable and
   * holds a matching window there.
   */
  function Scan(mem: Memory, regions: seq<Region>, pageSize: nat, q: Query, cmp: Comparator): (r: seq<Pem>)
    requires pageSize > 0
    ensures SortedByAddress(r)
    ensures forall i :: 0 <= i < |r| ==> Reported(mem, r[i], q)
    ensures forall a: Address :: a in AddressesOf(r) <==>
      exists m :: 0 <= m < |regions| && RegionHit(mem, regions[m], pageSize, a, q, cmp)
    ensures multiset(r) == multiset(ScanRegions(mem, regions, pageSize, q, cmp))
  {
    var r := SortByAddress(ScanRegions(mem, regions, pageSize, q, cmp));
    SortedHits(mem, regions, pageSize, q, cmp);
    r
  }

  /** Sorting the joined task results keeps what they report and which addresses they hold. */
  lemma SortedHits(mem: Memory, regions: seq<Region>, pageSize: nat, q: Query, cmp: Comparator)
    requires pageSize > 0
    ensures forall i :: 0 <= i < |SortByAddress(ScanRegions(mem, regions, pageSize, q, cmp))| ==>
      Reported(mem, SortByAddress(ScanRegions(mem, regions, pageSize, q, cmp))[i], q)
    ensures forall a: Address :: a in AddressesOf(SortByAddress(ScanRegions(mem, regions, pageSize, q, cmp))) <==>
      exists m :: 0 <= m < |regions| && RegionHit(mem, regions[m], pageSize, a, q, cmp)
  {
    var found := ScanRegions(mem, regions, pageSize, q, cmp);
    ScanRegionsHits(mem, regions, pageSize, q, cmp);
    AddressesOfPermutation(SortByAddress(found), found);
    SortedReported(mem, found, q);
  }

  /** Sorting a list of entries that each match memory gives entries that each match memory. */
  lemma SortedReported(mem: Memory, found: seq<Pem>, q: Query)
    requires forall i :: 0 <= i < |found| ==> Reported(mem, found[i], q)
    ensures forall i :: 0 <= i < |SortByAddress(found)| ==> Reported(mem, SortByAddress(found)[i], q)
  {
    var r := SortByAddress(found);
    forall i | 0 <= i < |r|
      ensures Reported(mem, r[i], q)
    {
      assert r[i] in multiset(found);
    }
  }

  /** The joined task results are the fold of the `scanMap` task over the regions. */
  lemma {:induction false} ScanRegionsIsFold(mem: Memory, regions: seq<Region>, pageSize: nat, q: Query, cmp: Comparator)
    requires pageSize > 0
    ensures ScanRegions(mem, regions, pageSize, q, cmp) == FlatMap((r: Region) => ScanMap(mem, r, pageSize, q, cmp), regions)
    decreases |regions|
  {
    if |regions| > 0 {
      ScanRegionsIsFold(mem, regions[1..], pageSize, q, cmp);
    }
  }

  /** One past the last byte of the last page `scanMap` reads in `region`. */
  function PagesEnd(region: Region, pageSize: nat): nat
    requires pageSize > 0
  {
    var pages := PageStarts(region, pageSize);
    if |pages| == 0 then region.start else pages[|pages| - 1] + pageSize
  }

  /** A region's hits lie inside the pages read for it. */
  lemma RegionHitWithin(mem: Memory, region: Region, pageSize: nat, a: Address, q: Query, cmp: Comparator)
    requires pageSize > 0
    requires RegionHit(mem, region, pageSize, a, q, cmp)
    ensures region.start <= a && a + q.size <= PagesEnd(region, pageSize)
  {
    var pages := PageStarts(region, pageSize);
    var p :| ScannedPage(region, pageSize, p) && PageHit(mem, p, pageSize, a, q, cmp);
    var t :| 0 <= t < |pages| && pages[t] == p;
    if t < |pages| - 1 {
      assert pages[t] + pageSize <= pages[|pages| - 1];
    }
  }

  /** The page ranges read for different regions do not overlap. */
  predicate DisjointScans(regions: seq<Region>, pageSize: nat)
    requires pageSize > 0
  {
    forall m, n :: 0 <= m < |regions| && 0 <= n < |regions| && m != n ==>
      PagesEnd(regions[m], pageSize) <= regions[n].start || PagesEnd(regions[n], pageSize) <= regions[m].start
  }

  /** Dropping the first region keeps the remaining page ranges apart. */
  lemma DisjointScansTail(regions: seq<Region>, pageSize: nat)
    requires pageSize > 0 && |regions| > 0
    requires DisjointScans(regions, pageSize)
    ensures DisjointScans(regions[1..], pageSize)
  {
    var t := regions[1..];
    forall m, n | 0 <= m < |t| && 0 <= n < |t| && m != n
      ensures PagesEnd(t[m], pageSize) <= t[n].start || PagesEnd(t[n], pageSize) <= t[m].start
    {
      assert t[m] == regions[m + 1] && t[n] == regions[n + 1];
    }
  }

  /** The first region's hits and the later regions' hits share no address. */
  lemma FirstRegionApart(mem: Memory, regions: seq<Region>, pageSize: nat, q: Query, cmp: Comparator)
    requires pageSize > 0 && q.size > 0 && |regions| > 0
    requires DisjointScans(regions, pageSize)
    ensures AddressesOf(ScanMap(mem, regions[0], pageSize, q, cmp)) !! AddressesOf(ScanRegions(mem, regions[1..], pageSize, q, cmp))
  {
    var here := ScanMap(mem, regions[0], pageSize, q, cmp);
    var rest := ScanRegions(mem, regions[1..], pageSize, q, cmp);
    ScanRegionsHits(mem, regions[1..], pageSize, q, cmp);
    forall a | a in AddressesOf(here)
      ensures a !in AddressesOf(rest)
    {
      NoLaterHit(mem, regions, pageSize, a, q, cmp);
    }
  }

  /** An address the first region hits is hit by no later region. */
  lemma NoLaterHit(mem: Memory, regions: seq<Region>, pageSize: nat, a: Address, q: Query, cmp: Comparator)
    requires pageSize > 0 && q.size > 0 && |regions| > 0
    requires DisjointScans(regions, pageSize)
    requires RegionHit(mem, regions[0], pageSize, a, q, cmp)
    ensures forall m :: 0 <= m < |regions[1..]| ==> !RegionHit(mem, regions[1..][m], pageSize, a, q, cmp)
  {
    forall m | 0 <= m < |regions[1..]|
      ensures !RegionHit(mem, regions[1..][m], pageSize, a, q, cmp)
    {
      assert regions[1..][m] == regions[m + 1];
      HitsApart(mem, regions[0], regions[m + 1], pageSize, a, q, cmp);
    }
  }

  /** Two regions whose page ranges do not overlap cannot both hit the same address. */
  lemma HitsApart(mem: Memory, r1: Region, r2: Region, pageSize: nat, a: Address, q: Query, cmp: Comparator)
    requires pageSize > 0 && q.size > 0
    requires PagesEnd(r1, pageSize) <= r2.start || PagesEnd(r2, pageSize) <= r1.start
    requires RegionHit(mem, r1, pageSize, a, q, cmp)
    ensures !RegionHit(mem, r2, pageSize, a, q, cmp)
  {
    RegionHitWithin(mem, r1, pageSize, a, q, cmp);
    if RegionHit(mem, r2, pageSize, a, q, cmp) {
      RegionHitWithin(mem, r2, pageSize, a, q, cmp);
    }
  }

  /** With non-empty windows and non-overlapping page ranges, no address is found twice. */
  lemma {:induction false} ScanRegionsDistinct(mem: Memory, regions: seq<Region>, pageSize: nat, q: Query, cmp: Comparator)
    requires pageSize > 0 && q.size > 0
    requires DisjointScans(regions, pageSize)
    ensures DistinctAddresses(ScanRegions(mem, regions, pageSize, q, cmp))
    decreases |regions|
  {
    if |regions| > 0 {
      DisjointScansTail(regions, pageSize);
      ScanRegionsDistinct(mem, regions[1..], pageSize, q, cmp);
      FirstRegionApart(mem, regions, pageSize, q, cmp);
      DistinctConcat(ScanMap(mem, regions[0], pageSize, q, cmp), ScanRegions(mem, regions[1..], pageSize, q, cmp));
    }
  }

  /**
   * The thread pool may run the per-region tasks in any order and their
   * appends may interleave: whatever list holds the same hits as the
   * tasks run in queue order, sorting it gives the result of `scan`, as
   * long as the regions' pages do not overlap.
   */
  lemma ScanTaskOrderIrrelevant(mem: Memory, regions: seq<Region>, joined: seq<Pem>, pageSize: nat, q: Query, cmp: Comparator)
    requires pageSize > 0 && q.size > 0
    requires DisjointScans(regions, pageSize)
    requires multiset(joined) == multiset(ScanRegions(mem, regions, pageSize, q, cmp))
    ensures SortByAddress(joined) == Scan(mem, regions, pageSize, q, cmp)
  {
    ScanRegionsDistinct(mem, regions, pageSize, q, cmp);
    SortCanonical(ScanRegions(mem, regions, pageSize, q, cmp), joined);
  }

  /**
   * `scan` with each `scanMap` task pushing its hits under a lock, in any
   * element-by-element interleaving that lets every task finish: the
   * sorted list is the result of `scan`.
   */
  lemma ScanLockedInterleaving(mem: Memory, regions: seq<Region>, schedule: seq<nat>, pageSize: nat, q: Query, cmp: Comparator)
    requires pageSize > 0 && q.size > 0
    requires DisjointScans(regions, pageSize)
    requires Finished(Interleave(Results((r: Region) => ScanMap(mem, r, pageSize, q, cmp), regions), schedule, []).1)
    ensures SortByAddress(Interleave(Results((r: Region) => ScanMap(mem, r, pageSize, q, cmp), regions), schedule, []).0) ==
      Scan(mem, regions, pageSize, q, cmp)
  {
    var task := (r: Region) => ScanMap(mem, r, pageSize, q, cmp);
    LockedBatchKeepsAll(task, regions, schedule);
    ScanRegionsIsFold(mem, regions, pageSize, q, cmp);
    ScanTaskOrderIrrelevant(mem, regions, Interleave(Results(task, regions), schedule, []).0, pageSize, q, cmp);
  }

  // ---------------------------------------------------------------------------
  // filter

  /** A candidate as `filterByChunk` passes it on: the same entry with its scan type replaced. */
  function Retag(c: Pem, scanType: string): (r: Pem)
    ensures r.address == c.address && r.data == c.data && r.scanType == scanType
  {
    c.(scanType := scanType)
  }

  /** Every candidate of `s`, retagged. */
  function RetagAll(s: seq<Pem>, scanType: string): (r: seq<Pem>)
    ensures |r| == |s|
    ensures forall i :: 0 <= i < |s| ==> r[i] == Retag(s[i], scanType)
  {
    seq(|s|, i requires 0 <= i < |s| => Retag(s[i], scanType))
  }

  /** `c` is the retagged candidate `list[k]` for some `k` in `[lo, hi)` whose address still matches. */
  predicate Survivor(mem: Memory, list: seq<Pem>, lo: nat, hi: nat, c: Pem, q: Query, cmp: Comparator)
    requires hi <= |list|
  {
    exists k :: lo <= k < hi && c == Retag(list[k], q.scanType) && Matches(mem, list[k].address, q, cmp)
  }

  /**
   * The inner loop of `filterByChunk` over the indices `[lo, hi)`: a
   * candidate whose seek or read fails, or whose fresh bytes do not
   * compare, is dropped; the rest are passed on in index order with the
   * new scan type and their previously recorded bytes.
   */
  function FilterRange(mem: Memory, list: seq<Pem>, lo: nat, hi: nat, q: Query, cmp: Comparator): (r: seq<Pem>)
    requires lo <= hi <= |list|
    ensures |r| <= hi - lo
    decreases hi - lo
  {
    if lo == hi then []
    else
      var here := if Matches(mem, list[lo].address, q, cmp) then [Retag(list[lo], q.scanType)] else [];
      here + FilterRange(mem, list, lo + 1, hi, q, cmp)
  }

  /** `FilterRange` passes on exactly the retagged candidates of the range whose address still matches. */
  lemma {:induction false} FilterRangeMembers(mem: Memory, list: seq<Pem>, lo: nat, hi: nat, q: Query, cmp: Comparator)
    requires lo <= hi <= |list|
    ensures forall c :: c in FilterRange(mem, list, lo, hi, q, cmp) <==> Survivor(mem, list, lo, hi, c, q, cmp)
    decreases hi - lo
  {
    if lo < hi {
      FilterRangeMembers(mem, list, lo + 1, hi, q, cmp);
      forall c | Survivor(mem, list, lo, hi, c, q, cmp)
        ensures c in FilterRange(mem, list, lo, hi, q, cmp)
      {
        var k :| lo <= k < hi && c == Retag(list[k], q.scanType) && Matches(mem, list[k].address, q, cmp);
        if k > lo {
          assert Survivor(mem, list, lo + 1, hi, c, q, cmp);
        }
      }
    }
  }

  /** `FilterRange` passes each candidate of the range on at most once. */
  lemma {:induction false} FilterRangeSubMultiset(mem: Memory, list: seq<Pem>, lo: nat, hi: nat, q: Query, cmp: Comparator)
    requires lo <= hi <= |list|
    ensures multiset(FilterRange(mem, list, lo, hi, q, cmp)) <= multiset(RetagAll(list[lo..hi], q.scanType))
    decreases hi - lo
  {
    if lo < hi {
      FilterRangeSubMultiset(mem, list, lo + 1, hi, q, cmp);
      var head := Retag(list[lo], q.scanType);
      var here := if Matches(mem, list[lo].address, q, cmp) then [head] else [];
      var rest := FilterRange(mem, list, lo + 1, hi, q, cmp);
      RetagAllCons(list[lo..hi], q.scanType);
      assert list[lo..hi][1..] == list[lo + 1..hi];
      assert multiset(here + rest) == multiset(here) + multiset(rest);
      assert multiset(here) <= multiset{head};
    }
  }

  /** Retagging a non-empty list retags its head, then its tail. */
  lemma RetagAllCons(s: seq<Pem>, scanType: string)
    requires |s| > 0
    ensures RetagAll(s, scanType) == [Retag(s[0], scanType)] + RetagAll(s[1..], scanType)
  {
  }

  /** The survivors of two adjacent index ranges are those of their union. */
  lemma {:induction false} FilterRangeSplit(mem: Memory, list: seq<Pem>, lo: nat, mid: nat, hi: nat, q: Query, cmp: Comparator)
    requires lo <= mid <= hi <= |list|
    ensures FilterRange(mem, list, lo, hi, q, cmp) == FilterRange(mem, list, lo, mid, q, cmp) + FilterRange(mem, list, mid, hi, q, cmp)
    decreases mid - lo
  {
    if lo < mid {
      FilterRangeSplit(mem, list, lo + 1, mid, hi, q, cmp);
    }
  }

  /** Filtering a strictly increasing list keeps it strictly increasing. */
  lemma {:induction false} FilterRangeStrict(mem: Memory, list: seq<Pem>, lo: nat, hi: nat, q: Query, cmp: Comparator)
    requires lo <= hi <= |list|
    requires StrictlyIncreasing(list)
    ensures StrictlyIncreasing(FilterRange(mem, list, lo, hi, q, cmp))
    decreases hi - lo
  {
    if lo < hi {
      FilterRangeStrict(mem, list, lo + 1, hi, q, cmp);
      var rest := FilterRange(mem, list, lo + 1, hi, q, cmp);
      FilterRangeMembers(mem, list, lo + 1, hi, q, cmp);
      forall j | 0 <= j < |rest|
        ensures list[lo].address < rest[j].address
      {
        assert rest[j] in rest;
        var k :| lo + 1 <= k < hi && rest[j] == Retag(list[k], q.scanType) && Matches(mem, list[k].address, q, cmp);
      }
    }
  }

  /** The smaller of two naturals. */
  function Min(a: nat, b: nat): nat {
    if a <= b then a else b
  }

  /**
   * `filterByChunk`: the task for the chunk starting at `listIndex`
   * handles the indices from `listIndex` below both `listIndex + CHUNK_SIZE`
   * and the list's length.
   */
  function FilterByChunk(mem: Memory, list: seq<Pem>, listIndex: nat, q: Query, cmp: Comparator): (r: seq<Pem>)
    ensures forall c :: c in r <==>
      exists k :: listIndex <= k < listIndex + CHUNK_SIZE && k < |list| &&
        c == Retag(list[k], q.scanType) && Matches(mem, list[k].address, q, cmp)
  {
    if |list| <= listIndex then []
    else
      var hi := Min(listIndex + CHUNK_SIZE, |list|);
      FilterRangeMembers(mem, list, listIndex, hi, q, cmp);
      FilterRange(mem, list, listIndex, hi, q, cmp)
  }

  /** The chunk starts `filter` queues: `0, CHUNK_SIZE, 2 * CHUNK_SIZE, ...` below the list's length. */
  function ChunkStarts(n: nat): (r: seq<nat>)
    ensures |r| == 0 <==> n == 0
    ensures |r| > 0 ==> r[0] == 0 && n <= r[|r| - 1] + CHUNK_SIZE
    ensures forall t :: 0 <= t < |r| - 1 ==> r[t + 1] == r[t] + CHUNK_SIZE
    ensures Spaced(r, CHUNK_SIZE)
    ensures forall t :: 0 <= t < |r| ==> r[t] < n
  {
    StridedSpaced(0, n, CHUNK_SIZE);
    Strided(0, n, CHUNK_SIZE)
  }

  /** Every index of the list belongs to exactly one queued chunk. */
  lemma ChunksPartition(n: nat, k: nat)
    requires k < n
    ensures exists t :: 0 <= t < |ChunkStarts(n)| && InBlock(ChunkStarts(n)[t], CHUNK_SIZE, k)
    ensures forall t, u ::
      (0 <= t < |ChunkStarts(n)| && 0 <= u < |ChunkStarts(n)| &&
       InBlock(ChunkStarts(n)[t], CHUNK_SIZE, k) && InBlock(ChunkStarts(n)[u], CHUNK_SIZE, k)) ==> t == u
  {
    assert ChunkStarts(n) == Strided(0, n, CHUNK_SIZE);
    StridedCovers(0, n, CHUNK_SIZE, k);
  }

  /** The chunk task applied to one start. */
  function ChunkTask(mem: Memory, list: seq<Pem>, q: Query, cmp: Comparator): nat -> seq<Pem> {
    (i: nat) => FilterByChunk(mem, list, i, q, cmp)
  }

  /** Running the tasks of the strided starts from `from` runs the task of `from`, then the rest. */
  lemma StridedFirst(task: nat -> seq<Pem>, from: nat, to: nat)
    requires from < to
    ensures FlatMap(task, Strided(from, to, CHUNK_SIZE)) == task(from) + FlatMap(task, Strided(from + CHUNK_SIZE, to, CHUNK_SIZE))
  {
    var starts := Strided(from, to, CHUNK_SIZE);
    assert starts[0] == from && starts[1..] == Strided(from + CHUNK_SIZE, to, CHUNK_SIZE);
  }

  /** The chunk task of a start inside the list filters the indices from it below the next start and the length. */
  lemma ChunkTaskRange(mem: Memory, list: seq<Pem>, from: nat, q: Query, cmp: Comparator)
    requires from < |list|
    ensures ChunkTask(mem, list, q, cmp)(from) == FilterRange(mem, list, from, Min(from + CHUNK_SIZE, |list|), q, cmp)
  {
  }

  /** The chunk tasks from `from` on, run in queue order, filter the whole tail `[from, |list|)`. */
  lemma {:induction false} ChunkTasksFromCover(mem: Memory, list: seq<Pem>, from: nat, q: Query, cmp: Comparator)
    requires from <= |list|
    ensures FlatMap(ChunkTask(mem, list, q, cmp), Strided(from, |list|, CHUNK_SIZE)) == FilterRange(mem, list, from, |list|, q, cmp)
    decreases |list| - from
  {
    if from < |list| {
      var task := ChunkTask(mem, list, q, cmp);
      var rest := Strided(from + CHUNK_SIZE, |list|, CHUNK_SIZE);
      StridedFirst(task, from, |list|);
      ChunkTaskRange(mem, list, from, q, cmp);
      if from + CHUNK_SIZE < |list| {
        ChunkTasksFromCover(mem, list, from + CHUNK_SIZE, q, cmp);
        FilterRangeSplit(mem, list, from, from + CHUNK_SIZE, |list|, q, cmp);
      } else {
        assert rest == [];
        assert task(from) + [] == FilterRange(mem, list, from, |list|, q, cmp);
      }
    }
  }

  /** All chunk tasks, run in queue order, filter the whole list in index order. */
  lemma ChunkTasksCover(mem: Memory, list: seq<Pem>, q: Query, cmp: Comparator)
    ensures FlatMap(ChunkTask(mem, list, q, cmp), ChunkStarts(|list|)) == FilterRange(mem, list, 0, |list|, q, cmp)
  {
    ChunkTasksFromCover(mem, list, 0, q, cmp);
  }

  /**
   * `filter`: re-reads every candidate and keeps, sorted by address, those
   * whose current bytes still compare; survivors carry the new scan type
   * and keep the bytes recorded when they were found.
   */
  function Filter(mem: Memory, list: seq<Pem>, q: Query, cmp: Comparator): (r: seq<Pem>)
    ensures SortedByAddress(r)
    ensures |r| <= |list|
    ensures forall c :: c in r <==> Survivor(mem, list, 0, |list|, c, q, cmp)
    ensures multiset(r) <= multiset(RetagAll(list, q.scanType))
  {
    var joined := FlatMap(ChunkTask(mem, list, q, cmp), ChunkStarts(|list|));
    ChunkTasksCover(mem, list, q, cmp);
    FilterRangeMembers(mem, list, 0, |list|, q, cmp);
    FilterRangeSubMultiset(mem, list, 0, |list|, q, cmp);
    assert list[0..|list|] == list;
    var r := SortByAddress(joined);
    assert forall c :: c in r <==> c in multiset(joined);
    assert |r| == |multiset(r)| <= |multiset(RetagAll(list, q.scanType))| == |list|;
    r
  }

  /** Filtering a strictly increasing list (such as a scan result) keeps its survivors in list order. */
  lemma FilterOfIncreasing(mem: Memory, list: seq<Pem>, q: Query, cmp: Comparator)
    requires StrictlyIncreasing(list)
    ensures Filter(mem, list, q, cmp) == FilterRange(mem, list, 0, |list|, q, cmp)
  {
    var kept := FilterRange(mem, list, 0, |list|, q, cmp);
    FilterRangeStrict(mem, list, 0, |list|, q, cmp);
    ChunkTasksCover(mem, list, q, cmp);
    SortIdempotent(kept);
  }

  /**
   * The thread pool may run the chunk tasks in any order and their locked
   * appends may interleave: on a strictly increasing list, whatever list
   * holds the same survivors as the tasks run in queue order sorts to the
   * result of `filter`.
   */
  lemma FilterTaskOrderIrrelevant(mem: Memory, list: seq<Pem>, joined: seq<Pem>, q: Query, cmp: Comparator)
    requires StrictlyIncreasing(list)
    requires multiset(joined) == multiset(FilterRange(mem, list, 0, |list|, q, cmp))
    ensures SortByAddress(joined) == Filter(mem, list, q, cmp)
  {
    var kept := FilterRange(mem, list, 0, |list|, q, cmp);
    FilterRangeStrict(mem, list, 0, |list|, q, cmp);
    FilterOfIncreasing(mem, list, q, cmp);
    SortCanonical(kept, joined);
    SortIdempotent(kept);
  }

  /**
   * `filter` as the thread pool runs it: each chunk task pushes its
   * survivors under `filterMutex`, in any element-by-element interleaving
   * that lets every task finish; on a strictly increasing list the sorted
   * list is the result of `filter`.
   */
  lemma FilterLockedInterleaving(mem: Memory, list: seq<Pem>, schedule: seq<nat>, q: Query, cmp: Comparator)
    requires StrictlyIncreasing(list)
    requires Finished(Interleave(Results(ChunkTask(mem, list, q, cmp), ChunkStarts(|list|)), schedule, []).1)
    ensures SortByAddress(Interleave(Results(ChunkTask(mem, list, q, cmp), ChunkStarts(|list|)), schedule, []).0) ==
      Filter(mem, list, q, cmp)
  {
    var task := ChunkTask(mem, list, q, cmp);
    LockedBatchKeepsAll(task, ChunkStarts(|list|), schedule);
    ChunkTasksCover(mem, list, q, cmp);
    FilterTaskOrderIrrelevant(mem, list, Interleave(Results(task, ChunkStarts(|list|)), schedule, []).0, q, cmp);
  }
}
