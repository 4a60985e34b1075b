/** The pages of a tree, kept in the buffer pool: what fetching, creating, writing and letting go of a
    page means for the pages as the tree sees them, and which buffers are held. */
module PageStore {
  import opened Bytes
  import opened PairCodec
  import opened Nodes
  import opened Tree
  import opened Limits
  import opened PageFormat
  import opened BufferPools

  /** The memory of the buffer pool is that of these pages. */
  ghost predicate Stands(pages: Pages, memory: map<nat, BufferPools.Page>) {
    && (forall id | id in memory :: id < MAX_PAGE_ID && id in pages)
    && forall id | id in pages :: id in memory && FillsPage(pages[id]) && memory[id] == PageBytes(pages[id])
  }

  /** The buffers that are held, once for each holder: they are in the pool, which counts the same holders. */
  ghost predicate HeldIn(held: multiset<PageId>, fs: seq<Frame>, table: map<nat, nat>) {
    && |held| == TotalPins(fs)
    && (forall id | id in held :: id in table)
    && forall i | 0 <= i < |fs| && fs[i].pageId.Some? && fs[i].pageId.value < MAX_PAGE_ID ::
        held[fs[i].pageId.value] == fs[i].pins
  }

  lemma AllocatedIds(m: BufferPoolManager)
    ensures forall id | id in m.Memory() :: id < m.disk.nextPageId
  {
  }

  lemma {:induction false} NobodyHolds(fs: seq<Frame>)
    requires forall i | 0 <= i < |fs| :: fs[i].pins == 0
    ensures TotalPins(fs) == 0
  {
    if fs != [] { NobodyHolds(fs[1..]); }
  }

  lemma HeldBuffer(s: Store, id: PageId)
    requires s.Valid() && id in s.held
    ensures id in s.pages && id in s.manager.pageTable && s.manager.pageTable[id] < |s.manager.pool.buffers|
    ensures var f := s.manager.pool.buffers[s.manager.pageTable[id]];
      f.pageId == Some(id) && f.pins > 0 && f.page == PageBytes(s.pages[id])
  {
    hide PageBytes;
    TableEntry(s.manager.pool.buffers, s.manager.pageTable, s.manager.disk.heapFile, s.manager.disk.nextPageId, id);
  }

  lemma HeldAllocated(s: Store)
    requires s.Valid()
    ensures forall id | id in s.held :: id < s.manager.disk.nextPageId
  {
    AllocatedIds(s.manager);
  }

  /** The frame of a held page has as many pins as the page has holders. */
  lemma HeldPins(s: Store, id: PageId)
    requires s.Valid() && id in s.held
    ensures id in s.manager.pageTable && s.manager.pageTable[id] < |s.manager.pool.buffers|
    ensures s.manager.pool.buffers[s.manager.pageTable[id]].pins == s.held[id]
  {
    hide PageBytes, Stands;
    TableEntry(s.manager.pool.buffers, s.manager.pageTable, s.manager.disk.heapFile, s.manager.disk.nextPageId, id);
  }

  /** Two different pages held in a pool of two frames: both frames are pinned, and no other page is cached. */
  lemma TwoHeldFill(s: Store, p: PageId, q: PageId)
    requires s.Valid() && s.frames == 2 && p != q && p in s.held && q in s.held
    ensures s.Full()
    ensures forall id | id in s.manager.pageTable :: id == p || id == q
  {
    hide PageBytes, Stands;
    HeldBuffer(s, p);
    HeldBuffer(s, q);
    forall id | id in s.manager.pageTable
      ensures id == p || id == q
    {
      TableEntry(s.manager.pool.buffers, s.manager.pageTable, s.manager.disk.heapFile, s.manager.disk.nextPageId, id);
    }
  }

  lemma HeldCount(held: multiset<PageId>, fs: seq<Frame>, table: map<nat, nat>)
    requires HeldIn(held, fs, table)
    ensures |held| == TotalPins(fs)
  {
  }

  /** Where a buffer is held its page stays, and nobody holds a page that has come into a frame. */
  lemma HeldPages(held: multiset<PageId>, fs: seq<Frame>, table: map<nat, nat>, file: seq<BufferPools.Page>, next: nat,
                  gs: seq<Frame>, table': map<nat, nat>, file': seq<BufferPools.Page>, next': nat)
    requires HeldIn(held, fs, table) && Coherent(fs, table, file, next) && Coherent(gs, table', file', next')
    requires |gs| == |fs|
    requires forall k | 0 <= k < |fs| && fs[k].pins > 0 :: gs[k].pageId == fs[k].pageId
    ensures forall p | p in held :: p in table'
    ensures forall k | 0 <= k < |gs| && gs[k].pageId.Some? && gs[k].pageId.value < MAX_PAGE_ID ::
              held[gs[k].pageId.value] == fs[k].pins
  {
    hide OnDisk, TotalPins;
    forall p | p in held
      ensures p in table' && table[p] < |fs| && gs[table[p]].pageId == Some(p) && fs[table[p]].pins == held[p]
    {
      assert p in table;
    }
    forall k | 0 <= k < |gs| && gs[k].pageId.Some? && gs[k].pageId.value < MAX_PAGE_ID
      ensures held[gs[k].pageId.value] == fs[k].pins
    {
      if fs[k].pins == 0 && gs[k].pageId.value in held {
        assert false;
      }
    }
  }

  /** A page is in one frame at most. */
  lemma OneFrame(fs: seq<Frame>, table: map<nat, nat>, file: seq<BufferPools.Page>, next: nat)
    requires Coherent(fs, table, file, next)
    ensures forall i, k | 0 <= i < |fs| && 0 <= k < |fs| && fs[i].pageId.Some? && fs[i].pageId == fs[k].pageId :: i == k
  {
    hide OnDisk;
  }

  lemma TableEntryOf(fs: seq<Frame>, table: map<nat, nat>, file: seq<BufferPools.Page>, next: nat, i: nat)
    requires Coherent(fs, table, file, next)
    ensures i < |fs| && fs[i].pageId.Some? ==> fs[i].pageId.value in table
  {
    hide OnDisk;
  }

  /** The holders of buffers are still those, and one more of page `id` if its frame `i` has one more,
      whichever other buffers were given to other pages. */
  lemma HoldersKept(held: multiset<PageId>, fs: seq<Frame>, table: map<nat, nat>, file: seq<BufferPools.Page>,
                    next: nat, gs: seq<Frame>, table': map<nat, nat>, file': seq<BufferPools.Page>, next': nat, i: nat,
                    id: PageId)
    requires HeldIn(held, fs, table) && Coherent(fs, table, file, next) && Coherent(gs, table', file', next')
    requires |gs| == |fs|
    requires forall k | 0 <= k < |fs| :: gs[k].pins == fs[k].pins + (if k == i then 1 else 0)
    requires forall k | 0 <= k < |fs| && fs[k].pins > 0 :: gs[k].pageId == fs[k].pageId
    requires i < |fs| ==> gs[i].pageId == Some(id)
    ensures HeldIn(if i < |fs| then held + multiset{id} else held, gs, table')
  {
    hide Coherent, TotalPins;
    OneMorePin(fs, gs, i);
    HeldPages(held, fs, table, file, next, gs, table', file', next');
    OneFrame(gs, table', file', next');
    assert i < |fs| ==> id in table' by { TableEntryOf(gs, table', file', next', i); }
  }

  /** The same page into both. */
  lemma StandsWith(pages: Pages, memory: map<nat, BufferPools.Page>, id: PageId, page: Nodes.Page)
    requires Stands(pages, memory) && FillsPage(page)
    ensures Stands(pages[id := page], memory[id := PageBytes(page)])
    ensures id in memory <==> id in pages
    ensures PageBytes(BlankPage) == ZeroPage()
  {
  }

  lemma SameHolders(held: multiset<PageId>, fs: seq<Frame>, table: map<nat, nat>, gs: seq<Frame>)
    requires HeldIn(held, fs, table) && |gs| == |fs|
    requires forall k | 0 <= k < |fs| :: gs[k].pins == fs[k].pins && gs[k].pageId == fs[k].pageId
    ensures HeldIn(held, gs, table)
  {
    hide TotalPins;
    OneMorePin(fs, gs, |fs|);
  }

  lemma HolderGone(held: multiset<PageId>, fs: seq<Frame>, table: map<nat, nat>, file: seq<BufferPools.Page>, next: nat,
                   gs: seq<Frame>, i: nat, id: PageId, rest: multiset<PageId>)
    requires HeldIn(held, fs, table) && Coherent(fs, table, file, next) && i < |fs| && held == rest + multiset{id}
    requires fs[i].pageId == Some(id) && fs[i].pins > 0 && gs == fs[i := fs[i].(pins := fs[i].pins - 1)]
    ensures HeldIn(rest, gs, table)
  {
    hide OnDisk, TotalPins;
    OneMorePin(gs, fs, i);
    forall k | 0 <= k < |gs| && k != i && gs[k].pageId.Some?
      ensures gs[k].pageId.value != id
    {
      assert table[gs[k].pageId.value] == k;
    }
  }

  class Store {
    const manager: BufferPoolManager
    const leafCapacity: nat := LEAF_BODY
    const branchCapacity: nat := BRANCH_BODY
    /** How many buffers there are. */
    const frames: nat
    ghost var pages: Pages
    ghost var nextPageId: nat
    ghost var held: multiset<PageId>

    ghost predicate Valid()
      reads this, manager, manager.pool, manager.disk
      ensures Valid() ==> forall id | id in pages :: id < nextPageId
    {
      AllocatedIds(manager);
      && manager.Valid() && |manager.pool.buffers| == frames
      && manager.disk.nextPageId == nextPageId <= MAX_PAGE_ID
      && Stands(pages, manager.Memory())
      && HeldIn(held, manager.pool.buffers, manager.pageTable)
    }

    ghost function Capacities(): Caps { Caps(leafCapacity, branchCapacity) }

    /** Pages in a pool nobody holds a buffer of: none in a new one, those there were in a reopened one. */
    constructor (manager: BufferPoolManager, ghost pages: Pages)
      requires manager.Valid() && manager.disk.nextPageId <= MAX_PAGE_ID
      requires Stands(pages, manager.Memory())
      requires forall i | 0 <= i < |manager.pool.buffers| :: manager.pool.buffers[i].pins == 0
      ensures Valid() && this.manager == manager && this.pages == pages && held == multiset{}
      ensures frames == |manager.pool.buffers| && nextPageId == manager.disk.nextPageId
    {
      NobodyHolds(manager.pool.buffers);
      this.manager, frames, this.pages := manager, |manager.pool.buffers|, pages;
      nextPageId, held := manager.disk.nextPageId, multiset{};
    }

    /** Every frame is pinned. */
    ghost predicate Full()
      reads manager, manager.pool
    {
      AllPinned(manager.pool.buffers)
    }

    /** What has to be so for an operation that needs `n` buffers held at a time to fail. */
    ghost predicate Short(n: nat)
      reads this
    {
      n > frames || nextPageId >= MAX_PAGE_ID
    }

    /** A node, in a buffer that is now held once more. Fails only when every buffer is held. */
    method FetchNode(id: PageId) returns (r: Option<Nodes.Page>)
      requires Valid() && id in pages && (pages[id].LeafPage? || pages[id].BranchPage?)
      modifies this`held, manager, manager.pool, manager.disk`heapFile
      ensures Valid()
      ensures r.Some? ==> r.value == pages[id] && FillsPage(r.value) && held == old(held) + multiset{id}
      ensures r.None? ==> held == old(held) && |held| >= frames
      ensures r.None? <==> id !in old(manager.pageTable) && old(Full())
    {
      hide Coherent, MemoryOf, PageBytes, Stands, HeldIn;
      var fetched := FetchBuffer(id);
      r := None;
      if fetched {
        r := Some(ReadNode(id));
      }
    }

    /** A meta page, likewise. */
    method FetchMeta(id: PageId) returns (r: Option<Nodes.Page>)
      requires Valid() && id in pages && pages[id].MetaPage?
      modifies this`held, manager, manager.pool, manager.disk`heapFile
      ensures Valid()
      ensures r.Some? ==> r.value == pages[id] && held == old(held) + multiset{id}
      ensures r.None? ==> held == old(held) && |held| >= frames
      ensures r.None? <==> id !in old(manager.pageTable) && old(Full())
    {
      hide Coherent, MemoryOf, PageBytes, Stands, HeldIn;
      var fetched := FetchBuffer(id);
      r := None;
      if fetched {
        HeldBuffer(this, id);
        MetaRoundTrip(pages[id].root);
        r := MetaFrom(manager.pool.buffers[manager.pageTable[id]].page);
      }
    }

    method FetchBuffer(id: PageId) returns (ok: bool)
      requires Valid() && id in pages
      modifies this`held, manager, manager.pool, manager.disk`heapFile
      ensures Valid()
      ensures held == if ok then old(held) + multiset{id} else old(held)
      ensures !ok ==> |held| >= frames
      ensures !ok <==> id !in old(manager.pageTable) && old(Full())
    {
      hide Coherent, MemoryOf, PageBytes, Stands, HeldIn, AllPinned;
      AllocatedIds(manager);
      ghost var fs, table := manager.pool.buffers, manager.pageTable;
      ghost var file, next := manager.disk.heapFile, manager.disk.nextPageId;
      if AllPinned(fs) { AllPinnedHeld(fs); }
      HeldCount(held, fs, table);
      var f := manager.FetchPage(id);
      ok := f.Buffer?;
      HoldersKept(held, fs, table, file, next, manager.pool.buffers, manager.pageTable, manager.disk.heapFile,
                  manager.disk.nextPageId, if ok then f.frame else |fs|, id);
      if ok {
        held := held + multiset{id};
      }
    }

    /** A new page, in a buffer that is held; the other pages stay as they are. */
    method CreatePage() returns (r: Option<PageId>)
      requires Valid()
      modifies this, manager, manager.pool, manager.disk
      ensures Valid()
      ensures r.Some? ==> r.value == old(nextPageId) && r.value !in old(pages)
      ensures r.Some? ==> r.value !in old(held) && held == old(held) + multiset{r.value}
      ensures r.Some? ==> pages == old(pages)[r.value := BlankPage] && nextPageId == old(nextPageId) + 1
      ensures r.None? ==> pages == old(pages) && nextPageId == old(nextPageId) && held == old(held)
      ensures r.None? ==> |held| >= frames || nextPageId >= MAX_PAGE_ID
      ensures r.None? <==> old(Full()) || old(nextPageId) == MAX_PAGE_ID
    {
      hide Coherent, MemoryOf, PageBytes, Stands, HeldIn, AllPinned;
      ghost var fs, table := manager.pool.buffers, manager.pageTable;
      ghost var file, next := manager.disk.heapFile, manager.disk.nextPageId;
      HeldAllocated(this);
      if AllPinned(fs) { AllPinnedHeld(fs); }
      HeldCount(held, fs, table);
      var id := manager.disk.nextPageId;
      if id >= MAX_PAGE_ID {
        return None;
      }
      var f := manager.CreatePage();
      HoldersKept(held, fs, table, file, next, manager.pool.buffers, manager.pageTable, manager.disk.heapFile,
                  manager.disk.nextPageId, if f.Buffer? then f.frame else |fs|, id);
      if !f.Buffer? {
        return None;
      }
      StandsWith(pages, old(manager.Memory()), id, BlankPage);
      pages, nextPageId, held := pages[id := BlankPage], nextPageId + 1, held + multiset{id};
      r := Some(id);
    }

    /** Writing to a buffer that is held, and marking it dirty: never fails, and no other page notices. */
    method WritePage(id: PageId, page: Nodes.Page)
      requires Valid() && id in held && FillsPage(page)
      modifies this`pages, manager.pool
      ensures Valid() && pages == old(pages)[id := page]
    {
      hide Coherent, MemoryOf, PageBytes, Stands, HeldIn;
      HeldBuffer(this, id);
      StandsWith(pages, manager.Memory(), id, page);
      ghost var fs := manager.pool.buffers;
      manager.WritePage(manager.pageTable[id], PageBytes(page));
      SameHolders(held, fs, manager.pageTable, manager.pool.buffers);
      pages := pages[id := page];
    }

    /** Letting go of a buffer: the pages, and everybody else's buffers, stay. When nobody else holds it
        there is a buffer to be had again. */
    method Release(id: PageId, ghost rest: multiset<PageId>)
      requires Valid() && held == rest + multiset{id}
      modifies this`held, manager.pool
      ensures Valid() && held == rest
      ensures id !in rest || !old(Full()) ==> !Full()
    {
      hide Coherent, MemoryOf, PageBytes, Stands, HeldIn;
      HeldBuffer(this, id);
      HeldPins(this, id);
      ghost var fs := manager.pool.buffers;
      manager.Release(manager.pageTable[id]);
      HolderGone(held, fs, manager.pageTable, manager.disk.heapFile, manager.disk.nextPageId, manager.pool.buffers,
                 manager.pageTable[id], id, rest);
      if !AllPinned(fs) {
        ghost var k :| 0 <= k < |fs| && fs[k].pins == 0;
        assert manager.pool.buffers[k].pins == 0;
      }
      held := rest;
      assert manager.pool.buffers[manager.pageTable[id]].pins == rest[id];
    }

    /** Reading a node whose buffer is held. */
    function ReadNode(id: PageId): (page: Nodes.Page)
      requires Valid() && id in held && id in pages && (pages[id].LeafPage? || pages[id].BranchPage?)
      reads this, manager, manager.pool, manager.disk
      ensures page == pages[id] && FillsPage(page)
    {
      HeldBuffer(this, id);
      NodeRoundTrip(pages[id]);
      NodeFrom(manager.pool.buffers[manager.pageTable[id]].page).value
    }
  }

  /** After a flush the pages can be taken up again on the file alone: they are the same, and so every
      tree in them is still the tree it was. */
  method Reopen(s: Store, poolSize: nat) returns (r: Store)
    requires s.Valid() && poolSize > 0
    modifies s.manager.pool, s.manager.disk`heapFile
    ensures fresh(r) && fresh(r.manager) && fresh(r.manager.pool) && fresh(r.manager.disk)
    ensures r.Valid() && r.frames == poolSize && r.held == multiset{}
    ensures r.pages == old(s.pages) && r.nextPageId == old(s.nextPageId)
  {
    hide Coherent, MemoryOf, PageBytes, Stands, HeldIn;
    var manager := FlushAndReopen(s.manager, poolSize);
    r := new Store(manager, s.pages);
  }
}
