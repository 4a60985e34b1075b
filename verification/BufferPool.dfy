/** src/buffer.rs and the part of src/disk.rs it rests on: a write-back cache of pages with pins, dirty
    bits and a clock sweep. The specification is plain memory: a map from page ids to pages. */
module BufferPools {
  import opened Bytes
  import opened PairCodec

  type Page = s: Bytes | |s| == PAGE_SIZE witness Zeros(PAGE_SIZE)

  function ZeroPage(): Page { Zeros(PAGE_SIZE) }

  // ----- disk -----

  function Written(file: seq<Page>, id: nat, data: Page): (f: seq<Page>)
    ensures |f| == (if id < |file| then |file| else id + 1) && f[id] == data
    ensures forall p | 0 <= p < |f| && p != id :: f[p] == if p < |file| then file[p] else ZeroPage()
  {
    if id < |file| then file[id := data]
    else (file + seq(id + 1 - |file|, _ => ZeroPage()))[id := data]
  }

  /** The heap file is a sequence of pages. */
  class DiskManager {
    var heapFile: seq<Page>
    var nextPageId: nat

    /** The next page id comes from the size of the file. */
    constructor (file: seq<Page>)
      ensures heapFile == file && nextPageId == |file|
    {
      heapFile, nextPageId := file, |file|;
    }

    /** Reading past the end of the file is an error. */
    method ReadPageData(id: nat) returns (r: Option<Page>)
      ensures r == if id < |heapFile| then Some(heapFile[id]) else None
    {
      r := if id < |heapFile| then Some(heapFile[id]) else None;
    }

    /** Writing past the end of the file leaves zeros in between. */
    method WritePageData(id: nat, data: Page)
      modifies this`heapFile
      ensures heapFile == Written(old(heapFile), id, data)
      ensures forall p, k | |old(heapFile)| <= p < id && 0 <= k < PAGE_SIZE :: heapFile[p][k] == 0
    {
      if id >= |heapFile| {
        heapFile := heapFile + seq(id + 1 - |heapFile|, _ => ZeroPage());
      }
      heapFile := heapFile[id := data];
    }

    method AllocatePage() returns (id: nat)
      modifies this`nextPageId
      ensures id == old(nextPageId) && nextPageId == old(nextPageId) + 1
    {
      id := nextPageId;
      nextPageId := nextPageId + 1;
    }
  }

  // ----- clock sweep -----

  /** A frame and the buffer in it; `pins` is the number of references handed out. */
  datatype Frame = Frame(usageCount: nat, pageId: Option<nat>, page: Page, isDirty: bool, pins: nat)

  function EmptyFrame(): Frame { Frame(0, None, ZeroPage(), false, 0) }

  function TotalUsage(fs: seq<Frame>): nat {
    if fs == [] then 0 else fs[0].usageCount + TotalUsage(fs[1..])
  }

  lemma {:induction false} UsageUpdate(fs: seq<Frame>, i: nat, f: Frame)
    requires i < |fs|
    ensures TotalUsage(fs[i := f]) == TotalUsage(fs) - fs[i].usageCount + f.usageCount
  {
    if i > 0 {
      UsageUpdate(fs[1..], i - 1, f);
      assert fs[i := f][1..] == fs[1..][i - 1 := f];
    }
  }

  /** How many holders the buffers have together. */
  function TotalPins(fs: seq<Frame>): nat {
    if fs == [] then 0 else fs[0].pins + TotalPins(fs[1..])
  }

  /** One more holder, whatever else happens to the frames. */
  lemma {:induction false} OneMorePin(fs: seq<Frame>, gs: seq<Frame>, i: nat)
    requires |gs| == |fs| && forall k | 0 <= k < |fs| :: gs[k].pins == fs[k].pins + (if k == i then 1 else 0)
    ensures TotalPins(gs) == TotalPins(fs) + (if i < |fs| then 1 else 0)
  {
    if fs != [] {
      if i == 0 {
        OneMorePin(fs[1..], gs[1..], |fs|);
      } else {
        OneMorePin(fs[1..], gs[1..], i - 1);
      }
    }
  }

  ghost predicate AllPinned(fs: seq<Frame>) {
    forall i | 0 <= i < |fs| :: fs[i].pins > 0
  }

  /** When no frame can be taken there are as many holders as frames, or more. */
  lemma {:induction false} AllPinnedHeld(fs: seq<Frame>)
    requires AllPinned(fs)
    ensures TotalPins(fs) >= |fs|
  {
    if fs != [] {
      assert forall i | 0 <= i < |fs[1..]| :: fs[1..][i] == fs[i + 1];
      AllPinnedHeld(fs[1..]);
    }
  }

  /** A page that is in use was used: what makes it safe to take any frame with a zero count. */
  ghost predicate PinnedAreUsed(fs: seq<Frame>) {
    forall i | 0 <= i < |fs| :: fs[i].pins > 0 ==> fs[i].usageCount > 0
  }

  /** A sweep lowers the counts of frames that are not pinned and changes nothing else. */
  ghost predicate Swept(fs: seq<Frame>, gs: seq<Frame>) {
    && |gs| == |fs|
    && forall i | 0 <= i < |fs| ::
         gs[i].usageCount <= fs[i].usageCount && gs[i] == fs[i].(usageCount := gs[i].usageCount)
         && (fs[i].pins > 0 ==> gs[i] == fs[i])
  }

  /** Frame `i` is one of the `k` frames the hand of the clock has just passed. */
  ghost predicate Passed(i: int, hand: int, k: int, n: int) {
    hand - k <= i < hand || i >= n + hand - k
  }

  function IncrementId(id: nat, poolSize: nat): (r: nat)
    requires id < poolSize
    ensures r == if id + 1 == poolSize then 0 else id + 1
  {
    assert id + 1 < poolSize ==> (id + 1) % poolSize == id + 1;
    (id + 1) % poolSize
  }

  lemma NothingPassed(fs: seq<Frame>, hand: nat)
    requires hand < |fs|
    ensures forall i | 0 <= i < |fs| :: !Passed(i, hand, 0, |fs|)
  {
  }

  /** What the hand has passed when it moves on over a pinned frame. */
  lemma PassedOn(fs: seq<Frame>, hand: nat, k: nat)
    requires hand < |fs| && k < |fs| && fs[hand].pins > 0
    requires forall i | 0 <= i < |fs| && Passed(i, hand, k, |fs|) :: fs[i].pins > 0
    ensures forall i | 0 <= i < |fs| && Passed(i, IncrementId(hand, |fs|), k + 1, |fs|) :: fs[i].pins > 0
    ensures k + 1 == |fs| ==> AllPinned(fs)
  {
    forall i | 0 <= i < |fs| && Passed(i, IncrementId(hand, |fs|), k + 1, |fs|)
      ensures fs[i].pins > 0
    {
      assert i == hand || Passed(i, hand, k, |fs|);
    }
    if k + 1 == |fs| {
      forall i | 0 <= i < |fs|
        ensures fs[i].pins > 0
      {
        assert i == hand || Passed(i, hand, k, |fs|);
      }
    }
  }

  /** The hand, set out from `hand`, comes to frame `i` before it comes to frame `v`. */
  predicate Earlier(i: nat, v: nat, hand: nat) {
    if hand <= v then hand <= i < v else i >= hand || i < v
  }

  /** How often the hand, set out from `hand`, has lowered the count of frame `i` when it takes frame `v`,
      whose count was `rounds`. */
  function Lowered(i: nat, v: nat, hand: nat, rounds: nat): nat {
    if Earlier(i, v, hand) then rounds + 1 else rounds
  }

  /** Of the frames that are not pinned `v` has the smallest count, and is the first of those with that count
      that the hand comes to. */
  ghost predicate LeastUsed(fs: seq<Frame>, hand: nat, v: nat) {
    && v < |fs| && fs[v].pins == 0
    && forall i | 0 <= i < |fs| && fs[i].pins == 0 ::
         fs[v].usageCount < fs[i].usageCount || (fs[v].usageCount == fs[i].usageCount && !Earlier(i, v, hand))
  }

  /** What the sweep has made of the frames but `v` when it takes `v`: the counts of those not pinned are
      lowered by one a round. */
  ghost predicate OthersSwept(fs: seq<Frame>, gs: seq<Frame>, hand: nat, v: nat) {
    && v < |fs| == |gs|
    && forall i | 0 <= i < |fs| && i != v ::
         && (fs[i].pins > 0 ==> gs[i] == fs[i])
         && (fs[i].pins == 0 ==>
               && gs[i] == fs[i].(usageCount := gs[i].usageCount)
               && gs[i].usageCount == fs[i].usageCount - Lowered(i, v, hand, fs[v].usageCount))
  }

  /** So far the sweep has gone `rounds` rounds from `start`, and on to `hand`. */
  ghost predicate InSweep(fs: seq<Frame>, gs: seq<Frame>, start: nat, hand: nat, rounds: nat) {
    && |gs| == |fs| && start < |fs| && hand < |fs|
    && forall i | 0 <= i < |fs| ::
         gs[i].usageCount == fs[i].usageCount - if fs[i].pins > 0 then 0 else Lowered(i, hand, start, rounds)
  }

  lemma SweepBegins(fs: seq<Frame>, hand: nat)
    requires hand < |fs|
    ensures InSweep(fs, fs, hand, hand, 0)
  {
  }

  /** One step of the sweep. */
  lemma SweepOn(fs: seq<Frame>, gs: seq<Frame>, hs: seq<Frame>, start: nat, hand: nat, rounds: nat)
    requires InSweep(fs, gs, start, hand, rounds)
    requires |hs| == |gs| && forall i | 0 <= i < |gs| && i != hand :: hs[i] == gs[i]
    requires hs[hand].usageCount == gs[hand].usageCount - if fs[hand].pins > 0 then 0 else 1
    ensures var next := IncrementId(hand, |fs|);
      InSweep(fs, hs, start, next, if next == start then rounds + 1 else rounds)
  {
  }

  /** Where it stops. */
  lemma SweepEnds(fs: seq<Frame>, gs: seq<Frame>, start: nat, hand: nat, rounds: nat)
    requires InSweep(fs, gs, start, hand, rounds) && Swept(fs, gs)
    requires gs[hand].usageCount == 0 && gs[hand].pins == 0
    ensures LeastUsed(fs, start, hand) && OthersSwept(fs, gs, start, hand)
  {
    assert rounds == fs[hand].usageCount;
  }

  lemma FilledSwept(fs: seq<Frame>, gs: seq<Frame>, hand: nat, v: nat, f: Frame)
    requires OthersSwept(fs, gs, hand, v)
    ensures OthersSwept(fs, gs[v := f], hand, v)
  {
  }

  class BufferPool {
    var buffers: seq<Frame>
    var nextVictimId: nat

    constructor (poolSize: nat)
      ensures |buffers| == poolSize && nextVictimId == 0
      ensures forall i | 0 <= i < poolSize :: buffers[i] == EmptyFrame()
      ensures forall i | 0 <= i < poolSize ::
                && buffers[i].usageCount == 0 && buffers[i].pageId == None
                && !buffers[i].isDirty && buffers[i].pins == 0
                && forall k | 0 <= k < PAGE_SIZE :: buffers[i].page[k] == 0
    {
      buffers := seq(poolSize, _ => EmptyFrame());
      nextVictimId := 0;
    }

    /** The sweep ends. It finds no victim exactly when every frame is pinned, and then has gone once
        around and changed nothing. Otherwise it takes the least used of the frames that are not pinned,
        the first that the hand comes to where there are several, and leaves the hand there. */
    method Evict() returns (r: Option<nat>)
      requires nextVictimId < |buffers| && PinnedAreUsed(buffers)
      modifies this
      ensures nextVictimId < |buffers| && PinnedAreUsed(buffers) && Swept(old(buffers), buffers)
      ensures r.None? <==> AllPinned(old(buffers))
      ensures r.None? ==> buffers == old(buffers) && IncrementId(nextVictimId, |buffers|) == old(nextVictimId)
      ensures r.Some? ==> LeastUsed(old(buffers), old(nextVictimId), r.value) && nextVictimId == r.value
      ensures r.Some? ==> OthersSwept(old(buffers), buffers, old(nextVictimId), r.value)
      ensures r.Some? ==> buffers[r.value] == old(buffers)[r.value].(usageCount := 0)
    {
      hide TotalUsage, Passed, InSweep, LeastUsed, OthersSwept, IncrementId;
      var poolSize := |buffers|;
      ghost var fs, start, rounds := buffers, nextVictimId, 0;
      SweepBegins(fs, start);
      var consecutivePinned := 0;
      NothingPassed(buffers, nextVictimId);
      while true
        invariant nextVictimId < |buffers| == poolSize && PinnedAreUsed(buffers) && Swept(old(buffers), buffers)
        invariant 0 <= consecutivePinned < poolSize && InSweep(fs, buffers, start, nextVictimId, rounds)
        invariant AllPinned(fs) ==>
                    consecutivePinned == nextVictimId - start + if nextVictimId < start then poolSize else 0
        invariant forall i | 0 <= i < poolSize && Passed(i, nextVictimId, consecutivePinned, poolSize) ::
                    buffers[i].pins > 0
        decreases TotalUsage(buffers), poolSize - consecutivePinned
      {
        var frame := buffers[nextVictimId];
        ghost var before, hand := buffers, nextVictimId;
        if frame.usageCount == 0 {
          SweepEnds(fs, buffers, start, nextVictimId, rounds);
          return Some(nextVictimId);
        }
        if frame.pins == 0 {
          UsageUpdate(buffers, nextVictimId, frame.(usageCount := frame.usageCount - 1));
          buffers := buffers[nextVictimId := frame.(usageCount := frame.usageCount - 1)];
          consecutivePinned := 0;
          NothingPassed(buffers, IncrementId(nextVictimId, poolSize));
        } else {
          PassedOn(buffers, nextVictimId, consecutivePinned);
          consecutivePinned := consecutivePinned + 1;
          if consecutivePinned >= poolSize {
            return None;
          }
        }
        nextVictimId := IncrementId(nextVictimId, poolSize);
        SweepOn(fs, before, buffers, start, hand, rounds);
        if nextVictimId == start { rounds := rounds + 1; }
      }
    }
  }

  // ----- the manager -----

  datatype PageResult = Buffer(frame: nat) | NoFreeBuffer | IoError

  ghost predicate OnDisk(file: seq<Page>, p: nat, page: Page) {
    p < |file| && file[p] == page
  }

  /** The page table and the frames agree; clean pages are on disk as they are in memory; every page
      that was allocated is in a frame or on disk. */
  ghost predicate Coherent(fs: seq<Frame>, table: map<nat, nat>, file: seq<Page>, next: nat) {
    && (forall p | p in table :: table[p] < |fs| && fs[table[p]].pageId == Some(p))
    && (forall i | 0 <= i < |fs| && fs[i].pageId.Some? ::
          && fs[i].pageId.value in table && table[fs[i].pageId.value] == i && fs[i].pageId.value < next
          && (!fs[i].isDirty ==> OnDisk(file, fs[i].pageId.value, fs[i].page)))
    && (forall i | 0 <= i < |fs| && fs[i].pageId.None? :: !fs[i].isDirty && fs[i].pins == 0)
    && |file| <= next
    && forall p | 0 <= p < next :: p in table || p < |file|
  }

  /** What a reader of page `p` gets: the cached page, or the one on disk. */
  ghost function PageOf(fs: seq<Frame>, table: map<nat, nat>, file: seq<Page>, p: nat): Page {
    if p in table && table[p] < |fs| then fs[table[p]].page
    else if p < |file| then file[p] else ZeroPage()
  }

  ghost function Ids(next: nat): (s: set<nat>)
    ensures forall p: nat :: p in s <==> p < next
  {
    if next == 0 then {} else Ids(next - 1) + {next - 1}
  }

  ghost function MemoryOf(fs: seq<Frame>, table: map<nat, nat>, file: seq<Page>, next: nat): map<nat, Page> {
    map p | p in Ids(next) :: PageOf(fs, table, file, p)
  }

  lemma SweptCoherent(fs: seq<Frame>, gs: seq<Frame>, table: map<nat, nat>, file: seq<Page>, next: nat)
    requires Swept(fs, gs) && Coherent(fs, table, file, next)
    ensures Coherent(gs, table, file, next) && MemoryOf(gs, table, file, next) == MemoryOf(fs, table, file, next)
  {
    hide OnDisk;
  }

  /** The page table when frame `i`, which held `evicted`, takes page `id`. */
  function Retabled(table: map<nat, nat>, evicted: Option<nat>, id: nat, i: nat): map<nat, nat> {
    (if evicted.Some? then table - {evicted.value} else table)[id := i]
  }

  lemma FrameReplacedMemory(fs: seq<Frame>, table: map<nat, nat>, file: seq<Page>, next: nat, i: nat, id: nat, f: Frame,
                            next': nat)
    requires Coherent(fs, table, file, next) && i < |fs|
    requires fs[i].pageId.Some? ==> OnDisk(file, fs[i].pageId.value, fs[i].page)
    requires id !in table && id < next' && (next' == next || (next' == next + 1 && id == next))
    ensures MemoryOf(fs[i := f], Retabled(table, fs[i].pageId, id, i), file, next') ==
              MemoryOf(fs, table, file, next)[id := f.page]
  {
    var gs, table' := fs[i := f], Retabled(table, fs[i].pageId, id, i);
    forall p | 0 <= p < next' && p != id
      ensures PageOf(gs, table', file, p) == PageOf(fs, table, file, p)
    {
    }
  }

  lemma FrameReplacedCoherent(fs: seq<Frame>, table: map<nat, nat>, file: seq<Page>, next: nat, i: nat, id: nat,
                              f: Frame, next': nat)
    requires Coherent(fs, table, file, next) && i < |fs|
    requires fs[i].pageId.Some? ==> OnDisk(file, fs[i].pageId.value, fs[i].page)
    requires id !in table && f.pageId == Some(id)
    requires if f.isDirty then id == next && next' == next + 1 else next' == next && OnDisk(file, id, f.page)
    ensures Coherent(fs[i := f], Retabled(table, fs[i].pageId, id, i), file, next')
  {
    var gs, table' := fs[i := f], Retabled(table, fs[i].pageId, id, i);
    forall p | p in table'
      ensures table'[p] < |gs| && gs[table'[p]].pageId == Some(p)
    {
      assert p != id ==> p in table && table'[p] == table[p];
    }
  }

  /** Frame `i`, whose page is safe on disk, takes another page: one that is on disk as well, or a new
      one that is dirty. */
  lemma FrameReplaced(fs: seq<Frame>, table: map<nat, nat>, file: seq<Page>, next: nat, i: nat, id: nat, f: Frame,
                      next': nat)
    requires Coherent(fs, table, file, next) && i < |fs| && fs[i].pins == 0
    requires fs[i].pageId.Some? ==> OnDisk(file, fs[i].pageId.value, fs[i].page)
    requires id !in table && f.pageId == Some(id)
    requires if f.isDirty then id == next && next' == next + 1 else next' == next && OnDisk(file, id, f.page)
    requires id < next'
    ensures Coherent(fs[i := f], Retabled(table, fs[i].pageId, id, i), file, next')
    ensures MemoryOf(fs[i := f], Retabled(table, fs[i].pageId, id, i), file, next') ==
              MemoryOf(fs, table, file, next)[id := f.page]
  {
    hide Coherent, MemoryOf;
    FrameReplacedMemory(fs, table, file, next, i, id, f, next');
    FrameReplacedCoherent(fs, table, file, next, i, id, f, next');
  }

  /** Use and holders of a frame are of no concern to memory. */
  lemma FrameTouched(fs: seq<Frame>, table: map<nat, nat>, file: seq<Page>, next: nat, i: nat, f: Frame)
    requires Coherent(fs, table, file, next) && i < |fs| && fs[i].pageId.Some?
    requires f.pageId == fs[i].pageId && f.page == fs[i].page && f.isDirty == fs[i].isDirty
    ensures Coherent(fs[i := f], table, file, next)
    ensures MemoryOf(fs[i := f], table, file, next) == MemoryOf(fs, table, file, next)
  {
    hide OnDisk;
  }

  lemma TableEntry(fs: seq<Frame>, table: map<nat, nat>, file: seq<Page>, next: nat, id: nat)
    requires Coherent(fs, table, file, next)
    ensures id in table ==> table[id] < |fs| && fs[table[id]].pageId == Some(id)
  {
  }

  lemma FrameHolds(fs: seq<Frame>, table: map<nat, nat>, file: seq<Page>, next: nat, i: nat, id: nat)
    requires Coherent(fs, table, file, next) && i < |fs| && fs[i].pageId == Some(id)
    ensures id in MemoryOf(fs, table, file, next) && MemoryOf(fs, table, file, next)[id] == fs[i].page
  {
  }

  /** Of the pages that are not cached, those on disk are the ones that were allocated. */
  lemma NotCached(fs: seq<Frame>, table: map<nat, nat>, file: seq<Page>, next: nat, id: nat)
    requires Coherent(fs, table, file, next) && id !in table
    ensures id < |file| <==> id < next
    ensures id < next ==> MemoryOf(fs, table, file, next)[id := file[id]] == MemoryOf(fs, table, file, next)
  {
  }

  lemma NextIsNew(fs: seq<Frame>, table: map<nat, nat>, file: seq<Page>, next: nat)
    requires Coherent(fs, table, file, next)
    ensures next !in table && next !in MemoryOf(fs, table, file, next)
  {
  }

  /** A frame with a page the table does not know. */
  lemma Incoherent(fs: seq<Frame>, table: map<nat, nat>, file: seq<Page>, next: nat, i: nat)
    requires i < |fs| && fs[i].pageId.Some? && fs[i].pageId.value !in table
    ensures !Coherent(fs, table, file, next)
  {
  }

  /** One step of a flush. */
  lemma FrameFlushed(fs: seq<Frame>, table: map<nat, nat>, file: seq<Page>, next: nat, id: nat)
    requires Coherent(fs, table, file, next) && id in table && table[id] < |fs|
    ensures var i := table[id]; var gs, file' := fs[i := fs[i].(isDirty := false)], Written(file, id, fs[i].page);
      && Coherent(gs, table, file', next) && MemoryOf(gs, table, file', next) == MemoryOf(fs, table, file, next)
  {
    var i := table[id];
    var gs, file' := fs[i := fs[i].(isDirty := false)], Written(file, id, fs[i].page);
    forall p | 0 <= p < next
      ensures PageOf(gs, table, file', p) == PageOf(fs, table, file, p)
    {
    }
  }

  lemma CleanOnDisk(fs: seq<Frame>, table: map<nat, nat>, file: seq<Page>, next: nat, p: nat)
    requires Coherent(fs, table, file, next) && p < next && forall i | 0 <= i < |fs| :: !fs[i].isDirty
    ensures p < |file| && PageOf(fs, table, file, p) == file[p]
  {
    if p in table {
      assert OnDisk(file, p, fs[table[p]].page);
    }
  }

  /** With every cached page on disk, the disk is the memory. */
  lemma AllOnDisk(fs: seq<Frame>, table: map<nat, nat>, file: seq<Page>, next: nat)
    requires Coherent(fs, table, file, next) && forall i | 0 <= i < |fs| :: !fs[i].isDirty
    ensures |file| == next && MemoryOf(fs, table, file, next) == map p | p in Ids(|file|) :: file[p]
  {
    forall p | 0 <= p < next { CleanOnDisk(fs, table, file, next, p); }
    if next > |file| { CleanOnDisk(fs, table, file, next, |file|); }
  }

  /** Frames whose pages the table knows are all frames that can be dirty. */
  lemma NothingDirty(fs: seq<Frame>, table: map<nat, nat>, file: seq<Page>, next: nat)
    requires Coherent(fs, table, file, next)
    requires forall p | p in table :: table[p] < |fs| && !fs[table[p]].isDirty
    ensures forall i | 0 <= i < |fs| :: !fs[i].isDirty
  {
    hide OnDisk;
  }

  class BufferPoolManager {
    const disk: DiskManager
    const pool: BufferPool
    var pageTable: map<nat, nat>

    ghost predicate Valid()
      reads this, pool, disk
    {
      && pool.nextVictimId < |pool.buffers| && PinnedAreUsed(pool.buffers)
      && Coherent(pool.buffers, pageTable, disk.heapFile, disk.nextPageId)
    }

    /** The memory this cache stands for: every allocated page. */
    ghost function Memory(): map<nat, Page>
      reads this, pool, disk
    {
      MemoryOf(pool.buffers, pageTable, disk.heapFile, disk.nextPageId)
    }

    /** A manager on an existing file. */
    constructor (disk: DiskManager, pool: BufferPool)
      requires |pool.buffers| > 0 && pool.nextVictimId == 0
      requires forall i | 0 <= i < |pool.buffers| :: pool.buffers[i] == EmptyFrame()
      requires disk.nextPageId == |disk.heapFile|
      ensures Valid() && this.disk == disk && this.pool == pool && pageTable == map[]
      ensures Memory() == map p | p in Ids(|disk.heapFile|) :: disk.heapFile[p]
    {
      this.disk, this.pool, pageTable := disk, pool, map[];
    }

    /** The page of a buffer that is held stays in its frame, and the count of holders changes only in
        frame `taken`, by one. */
    twostate predicate PinsKept(taken: nat)
      reads this, pool, disk
    {
      && |pool.buffers| == |old(pool.buffers)|
      && forall i | 0 <= i < |pool.buffers| ::
           && pool.buffers[i].pins == old(pool.buffers[i].pins) + (if i == taken then 1 else 0)
           && (old(pool.buffers[i].pins) > 0 ==>
                 && pool.buffers[i].pageId == old(pool.buffers[i].pageId)
                 && pool.buffers[i].page == old(pool.buffers[i].page)
                 && pool.buffers[i].isDirty == old(pool.buffers[i].isDirty))
    }

    /** A page that was cached: its count goes up by one, and no other frame changes. */
    twostate predicate UsedOnceMore(i: nat)
      reads this, pool
    {
      && pageTable == old(pageTable) && pool.nextVictimId == old(pool.nextVictimId)
      && i < |pool.buffers| == |old(pool.buffers)|
      && pool.buffers[i].usageCount == old(pool.buffers[i].usageCount) + 1
      && forall k | 0 <= k < |pool.buffers| && k != i :: pool.buffers[k] == old(pool.buffers[k])
    }

    /** A page that was not: it takes the frame the sweep has come to, and has been used once there. */
    twostate predicate ComesInto(i: nat)
      reads this, pool
    {
      && LeastUsed(old(pool.buffers), old(pool.nextVictimId), i)
      && OthersSwept(old(pool.buffers), pool.buffers, old(pool.nextVictimId), i)
      && pool.nextVictimId == i && pool.buffers[i].usageCount == 1
    }

    /** Makes room in frame `i`: its page, if changed, goes to disk. */
    method WriteBack(i: nat)
      requires Valid() && i < |pool.buffers|
      modifies disk`heapFile
      ensures Valid() && Memory() == old(Memory())
      ensures pool.buffers[i].pageId.Some? ==> OnDisk(disk.heapFile, pool.buffers[i].pageId.value, pool.buffers[i].page)
    {
      var frame := pool.buffers[i];
      if frame.isDirty {
        disk.WritePageData(frame.pageId.value, frame.page);
      }
    }

    /** The page in a buffer that is now held once more. Memory does not change, whatever was evicted. A
        page that was never allocated, not being in the table either, ends in a read error, and that
        is the one case in which the table and the frames no longer agree afterwards: the frame has
        been given the page id already. */
    method FetchPage(id: nat) returns (r: PageResult)
      requires Valid()
      modifies this, pool, disk`heapFile
      ensures Valid() <==> !r.IoError?
      ensures r.IoError? <==> id !in old(pageTable) && !AllPinned(old(pool.buffers)) && id >= disk.nextPageId
      ensures r.IoError? ==>
                pageTable == old(pageTable) && exists i | 0 <= i < |pool.buffers| :: pool.buffers[i].pageId == Some(id)
      ensures r.NoFreeBuffer? <==> id !in old(pageTable) && AllPinned(old(pool.buffers))
      ensures !r.IoError? ==> Memory() == old(Memory())
      ensures r.Buffer? ==>
                r.frame < |pool.buffers| && pool.buffers[r.frame].pageId == Some(id) && pool.buffers[r.frame].pins > 0
      ensures r.Buffer? ==> id in Memory() && pool.buffers[r.frame].page == Memory()[id]
      ensures PinsKept(if r.Buffer? then r.frame else |pool.buffers|)
      ensures r.NoFreeBuffer? ==> pageTable == old(pageTable) && pool.buffers == old(pool.buffers)
      ensures id in old(pageTable) ==> r == Buffer(old(pageTable)[id]) && UsedOnceMore(r.frame)
      ensures r.Buffer? && id !in old(pageTable) ==> ComesInto(r.frame)
    {
      hide Coherent, MemoryOf, LeastUsed, OthersSwept;
      assert id in pageTable ==> pageTable[id] < |pool.buffers| && pool.buffers[pageTable[id]].pageId == Some(id) by {
        TableEntry(pool.buffers, pageTable, disk.heapFile, disk.nextPageId, id);
      }
      if id in pageTable {
        var frame := pool.buffers[pageTable[id]];
        FrameHolds(pool.buffers, pageTable, disk.heapFile, disk.nextPageId, pageTable[id], id);
        FrameTouched(pool.buffers, pageTable, disk.heapFile, disk.nextPageId, pageTable[id],
                     frame.(usageCount := frame.usageCount + 1, pins := frame.pins + 1));
        pool.buffers :=
          pool.buffers[pageTable[id] := frame.(usageCount := frame.usageCount + 1, pins := frame.pins + 1)];
        return Buffer(pageTable[id]);
      }
      var victim := pool.Evict();
      SweptCoherent(old(pool.buffers), pool.buffers, pageTable, disk.heapFile, disk.nextPageId);
      if victim.None? {
        return NoFreeBuffer;
      }
      var i := victim.value;
      var evictPageId := pool.buffers[i].pageId;
      WriteBack(i);
      NotCached(pool.buffers, pageTable, disk.heapFile, disk.nextPageId, id);
      var data := disk.ReadPageData(id);
      if data.None? {
        var junk: Page := *;
        pool.buffers := pool.buffers[i := pool.buffers[i].(pageId := Some(id), isDirty := false, page := junk)];
        assert pool.buffers[i].pageId == Some(id);
        Incoherent(pool.buffers, pageTable, disk.heapFile, disk.nextPageId, i);
        return IoError;
      }
      FrameReplaced(pool.buffers, pageTable, disk.heapFile, disk.nextPageId, i, id,
                    Frame(1, Some(id), data.value, false, 1), disk.nextPageId);
      FilledSwept(old(pool.buffers), pool.buffers, old(pool.nextVictimId), i, Frame(1, Some(id), data.value, false, 1));
      pool.buffers := pool.buffers[i := Frame(1, Some(id), data.value, false, 1)];
      pageTable := Retabled(pageTable, evictPageId, id, i);
      FrameHolds(pool.buffers, pageTable, disk.heapFile, disk.nextPageId, i, id);
      r := Buffer(i);
    }

    /** A new page of zeros in a buffer that is held; the rest of memory stays as it is. */
    method CreatePage() returns (r: PageResult)
      requires Valid()
      modifies this, pool, disk
      ensures Valid() && !r.IoError?
      ensures r.NoFreeBuffer? <==> AllPinned(old(pool.buffers))
      ensures r.NoFreeBuffer? ==> Memory() == old(Memory()) && disk.nextPageId == old(disk.nextPageId)
      ensures r.NoFreeBuffer? ==> pageTable == old(pageTable) && pool.buffers == old(pool.buffers)
      ensures r.Buffer? ==> old(disk.nextPageId) !in old(Memory()) && disk.nextPageId == old(disk.nextPageId) + 1
      ensures r.Buffer? ==> Memory() == old(Memory())[old(disk.nextPageId) := ZeroPage()]
      ensures r.Buffer? ==> r.frame < |pool.buffers| && pool.buffers[r.frame].pins > 0
      ensures r.Buffer? ==> pool.buffers[r.frame].pageId == Some(old(disk.nextPageId))
      ensures r.Buffer? ==> forall k | 0 <= k < PAGE_SIZE :: pool.buffers[r.frame].page[k] == 0
      ensures PinsKept(if r.Buffer? then r.frame else |pool.buffers|)
      ensures r.Buffer? ==> ComesInto(r.frame)
    {
      hide Coherent, MemoryOf, OnDisk, LeastUsed, OthersSwept;
      NextIsNew(pool.buffers, pageTable, disk.heapFile, disk.nextPageId);
      var victim := pool.Evict();
      SweptCoherent(old(pool.buffers), pool.buffers, pageTable, disk.heapFile, disk.nextPageId);
      if victim.None? {
        return NoFreeBuffer;
      }
      var i := victim.value;
      var evictPageId := pool.buffers[i].pageId;
      WriteBack(i);
      var id := disk.AllocatePage();
      FrameReplaced(pool.buffers, pageTable, disk.heapFile, id, i, id, Frame(1, Some(id), ZeroPage(), true, 1),
                    disk.nextPageId);
      FilledSwept(old(pool.buffers), pool.buffers, old(pool.nextVictimId), i, Frame(1, Some(id), ZeroPage(), true, 1));
      pool.buffers := pool.buffers[i := Frame(1, Some(id), ZeroPage(), true, 1)];
      pageTable := Retabled(pageTable, evictPageId, id, i);
      r := Buffer(i);
    }

    /** A client that holds a buffer writes to the page and sets the dirty flag. */
    method WritePage(i: nat, data: Page)
      requires Valid() && i < |pool.buffers| && pool.buffers[i].pins > 0
      modifies pool
      ensures Valid() && pool.buffers[i].pageId.Some?
      ensures pool.buffers == old(pool.buffers)[i := old(pool.buffers)[i].(page := data, isDirty := true)]
      ensures Memory() == old(Memory())[pool.buffers[i].pageId.value := data]
    {
      pool.buffers := pool.buffers[i := pool.buffers[i].(page := data, isDirty := true)];
    }

    /** A client drops a buffer it holds. */
    method Release(i: nat)
      requires Valid() && i < |pool.buffers| && pool.buffers[i].pins > 0
      modifies pool
      ensures Valid() && Memory() == old(Memory())
      ensures pool.buffers == old(pool.buffers)[i := old(pool.buffers)[i].(pins := old(pool.buffers)[i].pins - 1)]
    {
      pool.buffers := pool.buffers[i := pool.buffers[i].(pins := pool.buffers[i].pins - 1)];
    }

    method FlushPage(id: nat)
      requires Valid() && id in pageTable
      modifies pool, disk`heapFile
      ensures Valid() && Memory() == old(Memory()) && pageTable[id] < |pool.buffers| == |old(pool.buffers)|
      ensures pool.buffers == old(pool.buffers)[pageTable[id] := old(pool.buffers)[pageTable[id]].(isDirty := false)]
    {
      hide Coherent, MemoryOf, OnDisk, Written;
      TableEntry(pool.buffers, pageTable, disk.heapFile, disk.nextPageId, id);
      FrameFlushed(pool.buffers, pageTable, disk.heapFile, disk.nextPageId, id);
      var frame := pool.buffers[pageTable[id]];
      disk.WritePageData(id, frame.page);
      pool.buffers := pool.buffers[pageTable[id] := frame.(isDirty := false)];
    }

    /** Every cached page goes to disk; afterwards no page is dirty and the disk is the memory. */
    method Flush()
      requires Valid()
      modifies pool, disk`heapFile
      ensures Valid() && Memory() == old(Memory())
      ensures |pool.buffers| == |old(pool.buffers)|
      ensures forall i | 0 <= i < |pool.buffers| :: pool.buffers[i] == old(pool.buffers)[i].(isDirty := false)
      ensures |disk.heapFile| == disk.nextPageId && Memory() == map p | p in Ids(|disk.heapFile|) :: disk.heapFile[p]
    {
      hide Coherent, MemoryOf, OnDisk, Written, Ids;
      var pending := pageTable.Keys;
      while pending != {}
        invariant Valid() && Memory() == old(Memory()) && pending <= pageTable.Keys
        invariant |pool.buffers| == |old(pool.buffers)|
        invariant forall i | 0 <= i < |pool.buffers| ::
                    pool.buffers[i] == old(pool.buffers)[i].(isDirty := pool.buffers[i].isDirty)
        invariant forall p | p in pageTable && p !in pending ::
                    pageTable[p] < |pool.buffers| && !pool.buffers[pageTable[p]].isDirty
        decreases |pending|
      {
        var id :| id in pending;
        FlushPage(id);
        pending := pending - {id};
      }
      NothingDirty(pool.buffers, pageTable, disk.heapFile, disk.nextPageId);
      AllOnDisk(pool.buffers, pageTable, disk.heapFile, disk.nextPageId);
    }
  }

  /** Durability: a manager opened on the file after a flush has the same memory and goes on with the
      same page ids. */
  method FlushAndReopen(m: BufferPoolManager, poolSize: nat) returns (n: BufferPoolManager)
    requires m.Valid() && poolSize > 0
    modifies m.pool, m.disk`heapFile
    ensures fresh(n) && n.Valid() && n.Memory() == old(m.Memory()) && n.disk.nextPageId == old(m.disk.nextPageId)
    ensures fresh(n.pool) && fresh(n.disk) && |n.pool.buffers| == poolSize
    ensures forall i | 0 <= i < poolSize :: n.pool.buffers[i] == EmptyFrame()
  {
    hide Coherent;
    m.Flush();
    var disk := new DiskManager(m.disk.heapFile);
    var pool := new BufferPool(poolSize);
    n := new BufferPoolManager(disk, pool);
  }

  /** The read error, on the smallest pool: an empty file, one frame, and page 0. */
  method FetchMissingPage() returns (m: BufferPoolManager, r: PageResult)
    ensures fresh(m) && r.IoError? && !m.Valid()
  {
    hide Coherent, MemoryOf;
    var disk := new DiskManager([]);
    var pool := new BufferPool(1);
    m := new BufferPoolManager(disk, pool);
    assert m.pool.buffers[0].pins == 0;
    r := m.FetchPage(0);
  }
}
