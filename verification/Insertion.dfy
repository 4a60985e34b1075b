/** src/btree.rs, `insert_internal`. */
module Insertion {
  import opened Bytes
  import opened SlottedLayout
  import opened PairCodec
  import opened NodeSpec
  import opened NodeBody
  import opened Nodes
  import opened Tree
  import opened TreeEdit
  import opened PageFormat
  import opened PageStore
  import opened InsertSteps

  /** What the code asserts of a pair, and what it needs of the key when a split makes it a
      separator. */
  ghost predicate Accepts(x: Pair, lo: Option<Bytes>, hi: Option<Bytes>, caps: Caps) {
    InBounds(x.key, lo, hi) && KeyFits(x.key, caps.branch) && Fits(x, caps.leaf)
  }

  /** What `insert_internal` has done to the subtree `t`; `pages0` and `next0` are from before. With page
      ids left, what fails does so before anything has changed. */
  ghost predicate HasInserted(r: Outcome, keys: seq<Bytes>, kids: seq<Tree>, pages: Pages, pages0: Pages, next: nat,
                              next0: nat, t: Tree, h: nat, lo: Option<Bytes>, hi: Option<Bytes>, caps: Caps, x: Pair,
                              before: seq<LeafRec>, after: seq<LeafRec>)
  {
    && (r.DuplicateKey? ==> HasKey(Contents(t), x.key) && pages == pages0)
    && (r.Inserted? ==> keys == [] && |kids| == 1)
    && (r.Overflow? ==> keys == [r.key] && |kids| == 2 && kids[0].id == r.page)
    && (r.Inserted? || r.Overflow? ==>
          && !HasKey(Contents(t), x.key)
          && Rebuilt(pages, keys, kids, h, lo, hi, caps, SortedInsert(Contents(t), x), Ids(t), next0, before, after)
          && kids[|keys|].id == t.id)
    && (r.BufferError? ==> next >= MAX_PAGE_ID || pages == pages0)
  }

  lemma HasKeyAt(ps: seq<Pair>, i: nat, key: Bytes)
    requires i < |ps| && ps[i].key == key
    ensures HasKey(ps, key)
  {
  }

  /** The buffer of a page, if there is one. */
  ghost function HeldOf(id: Option<PageId>): (m: multiset<PageId>)
    ensures |m| <= 1 && (id.Some? ==> id.value in m)
  {
    if id.Some? then multiset{id.value} else multiset{}
  }

  /** The buffers a split needs: the previous leaf, if there is one, and then a new page. */
  method HoldForSplit(store: Store, prevId: Option<PageId>) returns (newId: Option<PageId>, prevPage: Option<Page>)
    requires store.Valid() && (prevId.Some? ==> prevId.value in store.pages && store.pages[prevId.value].LeafPage?)
    modifies store, store.manager, store.manager.pool, store.manager.disk
    ensures store.Valid() && store.nextPageId >= old(store.nextPageId)
    ensures newId.None? ==> store.pages == old(store.pages) && store.nextPageId == old(store.nextPageId)
    ensures newId.None? ==> store.held == old(store.held) && store.Short(|store.held| + 2)
    ensures newId.Some? ==>
              newId.value !in old(store.pages) && store.pages == old(store.pages)[newId.value := BlankPage]
    ensures newId.Some? ==> newId.value == old(store.nextPageId) && newId.value !in old(store.held)
    ensures newId.Some? ==> store.held == old(store.held) + HeldOf(prevId) + multiset{newId.value}
    ensures newId.Some? && prevId.Some? ==>
              prevPage == Some(old(store.pages)[prevId.value]) && FillsPage(prevPage.value)
  {
    hide Store.Valid;
    newId, prevPage := None, None;
    if prevId.Some? {
      prevPage := store.FetchNode(prevId.value);
      if prevPage.None? {
        return;
      }
    }
    newId := store.CreatePage();
    if newId.None? && prevId.Some? {
      store.Release(prevId.value, old(store.held));
    }
  }

  /** `set_next_page_id` on the previous leaf. */
  method SetNext(store: Store, id: PageId, page: Page, next: Option<PageId>)
    requires store.Valid() && id in store.held && page.LeafPage? && FillsPage(page)
    modifies store`pages, store.manager.pool
    ensures store.Valid()
    ensures store.pages == old(store.pages)[id := page.(next := next)]
  {
    var leaf := new Leaf(page);
    leaf.next := next;
    store.WritePage(id, leaf.ToPage());
  }

  /** The new leaf of a split, linked in front of the old one. */
  method SplitLeafPage(leaf: Leaf, id: PageId, newId: PageId, key: Bytes, value: Bytes)
    returns (overflow: Bytes, newPage: Page, ghost lower: seq<Pair>)
    requires leaf.Valid() && leaf.Capacity() < 0x1_0000
    requires Ascending(leaf.Pairs()) && !HasKey(leaf.Pairs(), key)
    requires AllFit(leaf.Pairs(), leaf.Capacity()) && Fits(Pair(key, value), leaf.Capacity())
    requires Cost(leaf.Pairs()) <= leaf.Capacity() < Cost(leaf.Pairs()) + POINTER_SIZE + PairSize(Pair(key, value))
    modifies leaf, leaf.body, leaf.body.body
    ensures leaf.Valid() && leaf.prev == Some(newId) && leaf.next == old(leaf.next)
    ensures newPage.LeafPage? && newPage.prev == old(leaf.prev) && newPage.next == Some(id)
    ensures Holds(newPage.body, leaf.Capacity(), lower)
    ensures lower + leaf.Pairs() == SortedInsert(old(leaf.Pairs()), Pair(key, value))
    ensures |lower| > 1 && Cost(lower) <= leaf.Capacity()
    ensures leaf.Pairs() != [] && Cost(leaf.Pairs()) <= leaf.Capacity() && overflow == leaf.Pairs()[0].key
  {
    hide Lt, LowerBound, Fits, ValidBody, PairsIn, Cost, SplitPoint, HasKey, Ascending, AllFit, SortedInsert;
    var prevId := leaf.prev;
    leaf.prev := Some(newId);
    var newLeaf := new Leaf(LeafPage(None, None, BlankImage(leaf.Capacity())));
    overflow := leaf.SplitInsert(newLeaf, key, value);
    newLeaf.next := Some(id);
    newLeaf.prev := prevId;
    newPage := newLeaf.ToPage();
    lower := newLeaf.Pairs();
  }

  /** What the pages are once the three of a split have been written. */
  lemma SplitWritten(pages: Pages, linked: Pages, id: PageId, newId: PageId, newPage: Page, page: Page,
                     lower: seq<Pair>, upper: seq<Pair>, cap: nat)
    requires id in pages && pages[id].LeafPage? && newId !in pages
    requires pages[id].prev.None? ==> linked == pages[newId := BlankPage]
    requires pages[id].prev.Some? ==>
               var p := pages[id].prev.value;
               p in pages && p != id && pages[p].LeafPage? &&
               linked == pages[newId := BlankPage][p := pages[p].(next := Some(newId))]
    requires newPage.LeafPage? && newPage.prev == pages[id].prev && newPage.next == Some(id)
    requires page.LeafPage? && page.prev == Some(newId) && page.next == pages[id].next
    requires Holds(newPage.body, cap, lower) && Holds(page.body, cap, upper)
    ensures SplitOnPages(pages, linked[newId := newPage][id := page], id, newId, lower, upper, cap)
  {
    hide Holds;
  }

  /** The three pages of a split: the previous leaf and the two halves. */
  method WriteHalves(store: Store, id: PageId, leaf: Leaf, prevPage: Option<Page>, newId: PageId, key: Bytes,
                     value: Bytes, ghost pages: Pages)
    returns (overflow: Bytes, ghost lower: seq<Pair>)
    requires store.Valid() && id in store.held && newId in store.held && newId != id
    requires store.pages == pages[newId := BlankPage] && newId !in pages && id in pages && pages[id].LeafPage?
    requires leaf.prev == pages[id].prev && leaf.next == pages[id].next && leaf.Capacity() == store.leafCapacity
    requires leaf.prev.Some? ==>
      var p := leaf.prev.value;
      p in store.held && p in pages && p != id && pages[p].LeafPage? && FillsPage(pages[p]) &&
      prevPage == Some(pages[p])
    requires leaf.Valid() && Ascending(leaf.Pairs()) && !HasKey(leaf.Pairs(), key)
    requires AllFit(leaf.Pairs(), leaf.Capacity()) && Fits(Pair(key, value), leaf.Capacity())
    requires Cost(leaf.Pairs()) <= leaf.Capacity() < Cost(leaf.Pairs()) + POINTER_SIZE + PairSize(Pair(key, value))
    modifies store`pages, store.manager.pool, leaf, leaf.body, leaf.body.body
    ensures store.Valid() && leaf.Valid()
    ensures SplitOnPages(pages, store.pages, id, newId, lower, leaf.Pairs(), store.leafCapacity)
    ensures lower + leaf.Pairs() == SortedInsert(old(leaf.Pairs()), Pair(key, value))
    ensures |lower| > 1 && Cost(lower) <= leaf.Capacity()
    ensures leaf.Pairs() != [] && Cost(leaf.Pairs()) <= leaf.Capacity() && overflow == leaf.Pairs()[0].key
  {
    hide Store.Valid, Store.Full, Lt, LowerBound, Fits, ValidBody, PairsIn, Cost, SplitPoint, HasKey, Ascending, AllFit,
         SortedInsert, SplitOnPages;
    if leaf.prev.Some? {
      SetNext(store, leaf.prev.value, prevPage.value, Some(newId));
    }
    ghost var linked := store.pages;
    var newPage;
    overflow, newPage, lower := SplitLeafPage(leaf, id, newId, key, value);
    store.WritePage(newId, newPage);
    store.WritePage(id, leaf.ToPage());
    SplitWritten(pages, linked, id, newId, newPage, leaf.ToPage(), lower, leaf.Pairs(), store.leafCapacity);
  }

  method LetGoAfterSplit(store: Store, newId: PageId, prevId: Option<PageId>, ghost rest: multiset<PageId>)
    requires store.Valid() && store.held == rest + HeldOf(prevId) + multiset{newId}
    requires newId !in rest && prevId != Some(newId)
    modifies store`held, store.manager.pool
    ensures store.Valid() && store.held == rest && !store.Full()
  {
    hide Store.Valid, Store.Full, Store.Full;
    store.Release(newId, rest + HeldOf(prevId));
    if prevId.Some? { store.Release(prevId.value, rest); }
  }

  /** The second half of the leaf case, when the pair did not fit. */
  method SplitLeaf(store: Store, id: PageId, leaf: Leaf, key: Bytes, value: Bytes,
                   ghost t: Tree, ghost lo: Option<Bytes>, ghost hi: Option<Bytes>,
                   ghost before: seq<LeafRec>, ghost after: seq<LeafRec>)
    returns (r: Outcome, ghost keys: seq<Bytes>, ghost kids: seq<Tree>)
    requires store.Valid() && t.Leaf? && id == t.id
    requires id in store.held
    requires Ready(store.pages, t, 0, lo, hi, store.Capacities(), before, after)
    requires Accepts(Pair(key, value), lo, hi, store.Capacities()) && !HasKey(t.pairs, key)
    requires leaf.Valid() && leaf.Pairs() == t.pairs && leaf.Capacity() == store.leafCapacity
    requires id in store.pages && store.pages[id].LeafPage?
    requires leaf.prev == store.pages[id].prev && leaf.next == store.pages[id].next
    requires Cost(t.pairs) <= store.leafCapacity < Cost(t.pairs) + POINTER_SIZE + PairSize(Pair(key, value))
    modifies store, store.manager, store.manager.pool, store.manager.disk, leaf, leaf.body, leaf.body.body
    ensures store.Valid() && store.nextPageId >= old(store.nextPageId)
    ensures Kept(old(store.pages), store.pages, Ids(t), before)
    ensures store.held == old(store.held) && (r.BufferError? ==> store.Short(|store.held| + 2))
    ensures r.Overflow? ==> !store.Full()
    ensures HasInserted(r, keys, kids, store.pages, old(store.pages), store.nextPageId, old(store.nextPageId), t, 0, lo,
                        hi, store.Capacities(), Pair(key, value), before, after)
  {
    hide Store.Valid, Store.Full, SplitOnPages, HeldOf, Lt, LowerBound, KeyFits, InBounds, ValidBody, PairsIn, Cost,
         Chain, UniqueLeaves, SplitPoint, HasKey, Ready, Rebuilt, Kept, Ascending, AllFit;
    ghost var x, pages0 := Pair(key, value), store.pages;
    keys, kids := [], [];
    LeafFacts(pages0, t, lo, hi, store.Capacities(), before, after);
    KeptSame(pages0, Ids(t), before);
    LeafBefore(pages0, before, LeafRec(id, t.pairs), after);
    var prevId := leaf.prev;
    var newId, prevPage := HoldForSplit(store, prevId);
    if newId.None? {
      return BufferError, keys, kids;
    }
    var overflow;
    ghost var lower;
    overflow, lower := WriteHalves(store, id, leaf, prevPage, newId.value, key, value, pages0);
    LeafSplit(pages0, store.pages, t, x, lo, hi, store.Capacities(), newId.value, lower, leaf.Pairs(), before, after);
    LetGoAfterSplit(store, newId.value, prevId, old(store.held));
    return Overflow(overflow, newId.value), [overflow], [Leaf(newId.value, lower), Leaf(id, leaf.Pairs())];
  }

  method InsertIntoLeaf(store: Store, id: PageId, page: Page, key: Bytes, value: Bytes,
                        ghost t: Tree, ghost lo: Option<Bytes>, ghost hi: Option<Bytes>,
                        ghost before: seq<LeafRec>, ghost after: seq<LeafRec>)
    returns (r: Outcome, ghost keys: seq<Bytes>, ghost kids: seq<Tree>)
    requires store.Valid() && t.Leaf? && id == t.id && id in store.pages && page == store.pages[id]
    requires id in store.held
    requires Ready(store.pages, t, 0, lo, hi, store.Capacities(), before, after)
    requires Accepts(Pair(key, value), lo, hi, store.Capacities())
    modifies store, store.manager, store.manager.pool, store.manager.disk
    ensures store.Valid() && store.nextPageId >= old(store.nextPageId)
    ensures Kept(old(store.pages), store.pages, Ids(t), before)
    ensures store.held == old(store.held) && (r.BufferError? ==> store.Short(|store.held| + 2))
    ensures r.Overflow? ==> !store.Full()
    ensures HasInserted(r, keys, kids, store.pages, old(store.pages), store.nextPageId, old(store.nextPageId), t, 0, lo,
                        hi, store.Capacities(), Pair(key, value), before, after)
  {
    hide Store.Valid, Store.Full, Lt, LowerBound, KeyFits, InBounds, ValidBody, PairsIn, Cost, Chain, UniqueLeaves,
         SplitPoint, HasKey, Ready, Rebuilt, Kept, Ascending, AllFit;
    ghost var x, pages0 := Pair(key, value), store.pages;
    keys, kids := [], [];
    LeafFacts(pages0, t, lo, hi, store.Capacities(), before, after);
    KeptSame(pages0, Ids(t), before);
    var leaf := new Leaf(page);
    var slot := leaf.SearchSlotId(key);
    if slot.Found? {
      HasKeyAt(t.pairs, slot.index, key);
      return DuplicateKey, keys, kids;
    }
    var ok := leaf.Insert(slot.index, key, value);
    if ok {
      store.WritePage(id, leaf.ToPage());
      CostInsertAt(t.pairs, slot.index, x);
      LeafGrown(pages0, store.pages, t, x, lo, hi, store.Capacities(), old(store.nextPageId), before, after);
      return Inserted, [], [Leaf(id, SortedInsert(t.pairs, x))];
    }
    r, keys, kids := SplitLeaf(store, id, leaf, key, value, t, lo, hi, before, after);
  }

  lemma CutEntries(keys: seq<Bytes>, kids: seq<Tree>, c: nat)
    requires |kids| == |keys| + 1 && 0 < c <= |keys|
    ensures Entries(keys[..c - 1], kids[..c]) == Entries(keys, kids)[..c - 1]
    ensures Entries(keys[c..], kids[c..]) == Entries(keys, kids)[c..]
  {
  }

  /** The new branch of a split, which takes the lower children. */
  method SplitBranchPage(branch: Branch, newId: PageId, id: PageId, key: Bytes, child: PageId,
                         ghost keys: seq<Bytes>, ghost kids: seq<Tree>)
    returns (overflow: Bytes, newPage: Page, ghost a: Tree, ghost b: Tree, ghost c: nat)
    requires branch.Valid() && branch.Capacity() < 0x1_0000 && |kids| == |keys| + 1
    requires Entries(keys, kids) == SortedInsert(branch.Pairs(), Entry(key, child)) && branch.right == kids[|keys|].id
    requires Ascending(branch.Pairs()) && !HasKey(branch.Pairs(), key)
    requires AllFit(branch.Pairs(), branch.Capacity()) && Fits(Entry(key, child), branch.Capacity())
    requires Cost(branch.Pairs()) <= branch.Capacity()
    requires branch.Capacity() < Cost(branch.Pairs()) + POINTER_SIZE + PairSize(Entry(key, child))
    modifies branch, branch.body, branch.body.body
    ensures IsCut(a, b, keys, kids, c) && a.id == newId && b.id == id && overflow == keys[c - 1]
    ensures NodeFits(a, branch.Capacity()) && NodeFits(b, branch.Capacity())
    ensures NodePage(newPage, a, branch.Capacity()) && NodePage(branch.ToPage(), b, branch.Capacity())
  {
    hide Lt, LowerBound, Fits, ValidBody, PairsIn, Cost, SplitPoint, HasKey, Ascending, AllFit, SortedInsert,
         LittleEndian, PageIdFrom;
    var newBranch := new Branch(BranchPage(0, BlankImage(branch.Capacity())));
    overflow := branch.SplitInsert(newBranch, key, child);
    newPage := newBranch.ToPage();
    c := SplitPoint(Entries(keys, kids), branch.Capacity());
    a, b := Node(newId, keys[..c - 1], kids[..c]), Node(id, keys[c..], kids[c..]);
    PageIdRoundTrip(kids[c - 1].id);
    CutEntries(keys, kids, c);
  }

  /** A new separator and child for a branch whose other children are in place: `keys` and `kids` are
      what the node has to hold now. */
  method AddEntry(store: Store, id: PageId, branch: Branch, i: nat, key: Bytes, child: PageId,
                  ghost keys: seq<Bytes>, ghost kids: seq<Tree>, ghost h: nat, ghost lo: Option<Bytes>,
                  ghost hi: Option<Bytes>, ghost contents: seq<Pair>, ghost ids: set<PageId>, ghost firstNew: nat,
                  ghost before: seq<LeafRec>, ghost after: seq<LeafRec>)
    returns (r: Outcome, ghost ks: seq<Bytes>, ghost ts: seq<Tree>)
    requires store.Valid() && firstNew <= store.nextPageId && id in store.held && !store.Full()
    requires Rebuilt(store.pages, keys, kids, h, lo, hi, store.Capacities(), contents, ids, firstNew, before, after)
    requires id in store.pages && store.pages[id].BranchPage? && id !in ids && id < firstNew
    requires branch.Valid() && branch.Capacity() == store.branchCapacity && i <= |branch.Pairs()|
    requires Entries(keys, kids) == InsertAt(branch.Pairs(), i, Entry(key, child)) && branch.right == kids[|keys|].id
    requires Ascending(branch.Pairs()) && LowerBound(branch.Pairs(), key) == i && !HasKey(branch.Pairs(), key)
    requires AllFit(branch.Pairs(), store.branchCapacity) && Fits(Entry(key, child), store.branchCapacity)
    requires Cost(branch.Pairs()) <= store.branchCapacity
    modifies store, store.manager, store.manager.pool, store.manager.disk, branch, branch.body, branch.body.body
    ensures store.Valid() && store.nextPageId >= old(store.nextPageId)
    ensures forall p | p in old(store.pages) && p != id :: p in store.pages && store.pages[p] == old(store.pages)[p]
    ensures id in store.pages && store.pages[id].BranchPage?
    ensures store.held == old(store.held)
    ensures r.Inserted? || r.Overflow? || (r.BufferError? && store.nextPageId >= MAX_PAGE_ID)
    ensures r.Overflow? ==> !store.Full()
    ensures r.Inserted? ==> ks == [] && |ts| == 1
    ensures r.BufferError? ==> store.pages == old(store.pages)
    ensures r.Overflow? ==> ks == [r.key] && |ts| == 2 && ts[0].id == r.page
    ensures r.Inserted? || r.Overflow? ==>
      && Rebuilt(store.pages, ks, ts, h + 1, lo, hi, store.Capacities(), contents, ids + {id}, firstNew, before, after)
      && ts[|ks|].id == id
  {
    hide Store.Valid, Store.Full, Lt, LowerBound, Fits, ValidBody, PairsIn, Cost, SplitPoint, HasKey, Ascending, AllFit,
         Rebuilt;
    ghost var caps, pages0 := store.Capacities(), store.pages;
    ks, ts := [], [];
    RebuiltShape(store.pages, keys, kids, h, lo, hi, caps, contents, ids, firstNew, before, after);
    CostInsertAt(branch.Pairs(), i, Entry(key, child));
    var ok := branch.Insert(i, key, child);
    if ok {
      store.WritePage(id, branch.ToPage());
      ghost var t := Node(id, keys, kids);
      OneNode(pages0, store.pages, t, h, lo, hi, caps, contents, ids, firstNew, before, after);
      return Inserted, [], [t];
    }
    var newId := store.CreatePage();
    if newId.None? {
      return BufferError, ks, ts;
    }
    var overflow, newPage;
    ghost var a, b, c;
    overflow, newPage, a, b, c := SplitBranchPage(branch, newId.value, id, key, child, keys, kids);
    store.WritePage(newId.value, newPage);
    store.WritePage(id, branch.ToPage());
    TwoNodes(pages0, store.pages, a, b, c, keys, kids, h, lo, hi, caps, contents, ids, firstNew, before, after);
    store.Release(newId.value, old(store.held));
    return Overflow(overflow, newId.value), [overflow], [a, b];
  }

  // ----- insert_internal -----

  /** Child `i` has split into `a` and `b`: the branch takes the separator between them, or splits too. */
  method TakeOverflow(store: Store, id: PageId, branch: Branch, i: nat, key: Bytes, child: PageId, ghost a: Tree,
                      ghost b: Tree, ghost x: Pair, ghost t: Tree, ghost h: nat, ghost lo: Option<Bytes>,
                      ghost hi: Option<Bytes>, ghost pages0: Pages, ghost next0: nat, ghost before: seq<LeafRec>,
                      ghost after: seq<LeafRec>)
    returns (r: Outcome, ghost keys: seq<Bytes>, ghost kids: seq<Tree>)
    requires store.Valid() && !store.Full() && id == t.id && id in store.held && t.Node? && h > 0
    requires Ready(pages0, t, h, lo, hi, store.Capacities(), before, after) && Separates(t.keys, x.key, i)
    requires i < |t.kids| == |t.keys| + 1 && a.id == child && b.id == t.kids[i].id
    requires next0 <= store.nextPageId && forall p | p in pages0 :: p < next0
    requires Kept(pages0, store.pages, Ids(t.kids[i]), before + LeavesOf(t.kids[..i]))
    requires !HasKey(Contents(t.kids[i]), x.key)
    requires Rebuilt(store.pages, [key], [a, b], h - 1, LoAt(t.keys, i, lo), HiAt(t.keys, i, hi), store.Capacities(),
                     SortedInsert(Contents(t.kids[i]), x), Ids(t.kids[i]), next0,
                     before + LeavesOf(t.kids[..i]), LeavesOf(t.kids[i + 1..]) + after)
    requires id in pages0 && branch.ToPage() == pages0[id] && branch.Capacity() == store.branchCapacity
    modifies store, store.manager, store.manager.pool, store.manager.disk, branch, branch.body, branch.body.body
    ensures store.Valid() && store.nextPageId >= old(store.nextPageId) && store.held == old(store.held)
    ensures Kept(pages0, store.pages, Ids(t), before)
    ensures r.BufferError? ==> store.nextPageId >= MAX_PAGE_ID
    ensures r.Overflow? ==> !store.Full()
    ensures HasInserted(r, keys, kids, store.pages, pages0, store.nextPageId, next0, t, h, lo, hi, store.Capacities(),
                        x, before, after)
  {
    hide Store.Valid, Store.Full, Lt, LowerBound, Fits, KeyFits, ValidBody, PairsIn, Cost, Ready, Rebuilt, Entries,
         Ascending, AllFit, Separates, Kept, PageIdFrom, SoundForest, StoredForest, DistinctForest, Ids, IdsOf, Leaves,
         LeavesOf, LeafSet, Contents, ContentsOf, SortedInsert, HasKey, SpliceKeys, SpliceKids;
    ghost var caps, pages1 := store.Capacities(), store.pages;
    NodeFacts(pages0, t, h, lo, hi, caps, before, after);
    EntriesAscending(t.keys, t.kids);
    KeptUp(pages0, pages1, t, i, before);
    ChildHasKey(t.keys, t.kids, i, x.key, h - 1, lo, hi, caps);
    ChildOverflowed(pages0, pages1, t, i, key, a, b, x, h, lo, hi, caps, next0, before, after);
    r, keys, kids := AddEntry(store, id, branch, i, key, child, SpliceKeys(t.keys, i, [key]),
                              SpliceKids(t.kids, i, [a, b]), h - 1, lo, hi, SortedInsert(Contents(t), x), IdsOf(t.kids),
                              next0, before, after);
    KeptThen(pages0, pages1, store.pages, id, Ids(t), before);
    assert IdsOf(t.kids) + {id} == Ids(t);
  }

  /** What the branch makes of what has become of child `i`. */
  method AfterChild(store: Store, id: PageId, branch: Branch, i: nat, o: Outcome, ghost ks: seq<Bytes>,
                    ghost ts: seq<Tree>, ghost x: Pair, ghost t: Tree, ghost h: nat, ghost lo: Option<Bytes>,
                    ghost hi: Option<Bytes>, ghost pages0: Pages, ghost next0: nat, ghost before: seq<LeafRec>,
                    ghost after: seq<LeafRec>)
    returns (r: Outcome, ghost keys: seq<Bytes>, ghost kids: seq<Tree>)
    requires store.Valid() && id == t.id && id in store.held && t.Node? && h > 0
    requires Ready(pages0, t, h, lo, hi, store.Capacities(), before, after) && Separates(t.keys, x.key, i)
    requires i < |t.kids| == |t.keys| + 1 && next0 <= store.nextPageId && forall p | p in pages0 :: p < next0
    requires Kept(pages0, store.pages, Ids(t.kids[i]), before + LeavesOf(t.kids[..i]))
    requires HasInserted(o, ks, ts, store.pages, pages0, store.nextPageId, next0, t.kids[i], h - 1, LoAt(t.keys, i, lo),
                         HiAt(t.keys, i, hi), store.Capacities(), x, before + LeavesOf(t.kids[..i]),
                         LeavesOf(t.kids[i + 1..]) + after)
    requires o.Overflow? ==> !store.Full()
    requires id in pages0 && branch.ToPage() == pages0[id] && branch.Capacity() == store.branchCapacity
    modifies store, store.manager, store.manager.pool, store.manager.disk, branch, branch.body, branch.body.body
    ensures store.Valid() && store.nextPageId >= old(store.nextPageId) && store.held == old(store.held)
    ensures Kept(pages0, store.pages, Ids(t), before)
    ensures r.BufferError? ==>
              store.nextPageId >= MAX_PAGE_ID || (o.BufferError? && store.nextPageId == old(store.nextPageId))
    ensures r.Overflow? ==> !store.Full()
    ensures HasInserted(r, keys, kids, store.pages, pages0, store.nextPageId, next0, t, h, lo, hi, store.Capacities(),
                        x, before, after)
  {
    hide Store.Valid, Store.Full, Lt, ValidBody, PairsIn, Cost, Ready, Rebuilt, Entries, Separates, Kept, SoundForest,
         StoredForest, DistinctForest, Ids, IdsOf, Leaves, LeavesOf, LeafSet, Contents, ContentsOf, SortedInsert,
         HasKey, SpliceKids, LoAt, HiAt;
    ghost var caps := store.Capacities();
    NodeFacts(pages0, t, h, lo, hi, caps, before, after);
    KeptUp(pages0, store.pages, t, i, before);
    ChildHasKey(t.keys, t.kids, i, x.key, h - 1, lo, hi, caps);
    match o
    case DuplicateKey =>
      return o, [], [];
    case BufferError =>
      return o, [], [];
    case Inserted =>
      assert ts == [ts[0]];
      ChildInserted(pages0, store.pages, t, i, ts[0], x, h, lo, hi, caps, next0, before, after);
      return o, [], [Node(id, t.keys, SpliceKids(t.kids, i, ts))];
    case Overflow(key, page) =>
      assert ts == [ts[0], ts[1]];
      r, keys, kids := TakeOverflow(store, id, branch, i, key, page, ts[0], ts[1], x, t, h, lo, hi, pages0, next0,
                                    before, after);
  }

  lemma NothingDone(pages: Pages, next: nat, t: Tree, h: nat, lo: Option<Bytes>, hi: Option<Bytes>, caps: Caps, x: Pair,
                    before: seq<LeafRec>, after: seq<LeafRec>)
    ensures HasInserted(BufferError, [], [], pages, pages, next, next, t, h, lo, hi, caps, x, before, after)
  {
  }

  /** Insertion below the page `id`, which stands for the tree `t`. */
  method InsertInternal(store: Store, id: PageId, page: Page, key: Bytes, value: Bytes,
                        ghost t: Tree, ghost h: nat, ghost lo: Option<Bytes>, ghost hi: Option<Bytes>,
                        ghost before: seq<LeafRec>, ghost after: seq<LeafRec>, ghost rest: multiset<PageId>)
    returns (r: Outcome, ghost keys: seq<Bytes>, ghost kids: seq<Tree>)
    requires store.Valid() && id == t.id && id in store.pages && page == store.pages[id]
    requires store.held == rest + multiset{id}
    requires Ready(store.pages, t, h, lo, hi, store.Capacities(), before, after)
    requires Accepts(Pair(key, value), lo, hi, store.Capacities())
    modifies store, store.manager, store.manager.pool, store.manager.disk
    ensures store.Valid() && store.nextPageId >= old(store.nextPageId)
    ensures Kept(old(store.pages), store.pages, Ids(t), before)
    ensures store.held == rest && (r.BufferError? ==> store.Short(|rest| + h + 3))
    ensures r.Overflow? ==> !store.Full()
    ensures HasInserted(r, keys, kids, store.pages, old(store.pages), store.nextPageId, old(store.nextPageId), t, h, lo,
                        hi, store.Capacities(), Pair(key, value), before, after)
    decreases h
  {
    hide Store.Valid, Store.Full, SoundForest, Chain, UniqueLeaves, Kept, HasInserted, Holds, Accepts;
    if page.LeafPage? {
      r, keys, kids := InsertIntoLeaf(store, id, page, key, value, t, lo, hi, before, after);
    } else {
      r, keys, kids := InsertIntoBranch(store, id, page, key, value, t, h, lo, hi, before, after);
    }
    store.Release(id, rest);
  }

  method InsertIntoBranch(store: Store, id: PageId, page: Page, key: Bytes, value: Bytes,
                          ghost t: Tree, ghost h: nat, ghost lo: Option<Bytes>, ghost hi: Option<Bytes>,
                          ghost before: seq<LeafRec>, ghost after: seq<LeafRec>)
    returns (r: Outcome, ghost keys: seq<Bytes>, ghost kids: seq<Tree>)
    requires store.Valid() && id == t.id && id in store.pages && page == store.pages[id]
    requires id in store.held
    requires t.Node? && h > 0 && Ready(store.pages, t, h, lo, hi, store.Capacities(), before, after)
    requires Accepts(Pair(key, value), lo, hi, store.Capacities())
    modifies store, store.manager, store.manager.pool, store.manager.disk
    ensures store.Valid() && store.nextPageId >= old(store.nextPageId)
    ensures Kept(old(store.pages), store.pages, Ids(t), before)
    ensures store.held == old(store.held) && (r.BufferError? ==> store.Short(|store.held| + h + 2))
    ensures r.Overflow? ==> !store.Full()
    ensures HasInserted(r, keys, kids, store.pages, old(store.pages), store.nextPageId, old(store.nextPageId), t, h, lo,
                        hi, store.Capacities(), Pair(key, value), before, after)
    decreases h, 0
  {
    hide Store.Valid, Store.Full, InBounds, LoAt, HiAt, AreEntries, Lt, LowerBound, Fits, KeyFits, ValidBody, PairsIn,
         Cost, Ready, Entries, Ascending, AllFit, Separates, Kept, PageIdFrom, SoundForest, StoredForest,
         DistinctForest, Ids, IdsOf, Leaves, LeavesOf, LeafSet, HasInserted;
    ghost var x, caps, pages0, next0 := Pair(key, value), store.Capacities(), store.pages, store.nextPageId;
    NodeFacts(store.pages, t, h, lo, hi, caps, before, after);
    keys, kids := [], [];
    var branch := new Branch(page);
    EntriesAscending(t.keys, t.kids);
    var i := branch.SearchChildIdx(key);
    EntriesSeparate(t.keys, t.kids, key, i);
    var childId := branch.ChildAt(i);
    EntriesChild(t.keys, t.kids, i);
    ChildReady(store.pages, t, i, h, lo, hi, caps, before, after);
    var childPage := store.FetchNode(childId);
    if childPage.None? {
      KeptSame(store.pages, Ids(t), before);
      NothingDone(pages0, next0, t, h, lo, hi, caps, x, before, after);
      return BufferError, keys, kids;
    }
    ChildBounds(t.keys, key, i, lo, hi);
    ghost var ks, ts;
    r, ks, ts := InsertInternal(store, childId, childPage.value, key, value, t.kids[i], h - 1,
                                LoAt(t.keys, i, lo), HiAt(t.keys, i, hi),
                                before + LeavesOf(t.kids[..i]), LeavesOf(t.kids[i + 1..]) + after, old(store.held));
    r, keys, kids := AfterChild(store, id, branch, i, r, ks, ts, x, t, h, lo, hi, pages0, next0, before, after);
  }
}
