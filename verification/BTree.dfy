/** src/btree.rs: a B+tree as its users see it. */
module BTrees {
  import opened Bytes
  import opened PairCodec
  import opened NodeSpec
  import opened NodeBody
  import opened Nodes
  import opened Tree
  import opened TreeEdit
  import opened PageStore
  import opened InsertSteps
  import opened Insertion
  import opened Iteration

  /** `Ok(())`, `Err(DuplicateKey)` and the errors of the buffer pool. */
  datatype InsertResult = Accepted | Duplicate | Failed

  /** The pages under the meta page stand for the tree `t` of height `h`: a valid B+tree whose leaves
      are chained in order. */
  ghost predicate Represents(pages: Pages, meta: PageId, t: Tree, h: nat, caps: Caps) {
    && meta in pages && pages[meta] == MetaPage(t.id) && meta !in Ids(t)
    && Ready(pages, t, h, None, None, caps, [], [])
  }

  ghost function Footprint(meta: PageId, t: Tree): set<PageId> { {meta} + Ids(t) }

  /** Only pages of `foot` and new ones have changed. */
  ghost predicate OnlyTouches(pages: Pages, pages': Pages, foot: set<PageId>) {
    forall p | p in pages :: p in pages' && (p !in foot ==> pages'[p] == pages[p])
  }

  lemma LeafHolds(leaf: Nodes.Leaf)
    requires leaf.Valid()
    ensures Holds(leaf.ToPage().body, leaf.Capacity(), leaf.Pairs())
  {
  }

  lemma Untouched(pages: Pages, foot: set<PageId>)
    ensures OnlyTouches(pages, pages, foot)
  {
  }

  // ----- how high a tree is -----

  function Pow2(n: nat): nat { if n == 0 then 1 else 2 * Pow2(n - 1) }

  lemma {:induction false} Pow2Grows(a: int, b: nat)
    ensures 0 <= a <= b ==> Pow2(a) <= Pow2(b)
    decreases b
  {
    if 0 <= a < b { Pow2Grows(a, b - 1); }
  }

  lemma SortedInsertLength(ps: seq<Pair>, x: Pair)
    ensures |SortedInsert(ps, x)| == |ps| + 1
  {
  }

  lemma ContentsOfNode(t: Tree)
    requires t.Node?
    ensures Contents(t) == ContentsOf(t.kids)
  {
  }

  lemma {:induction false} ManyPairs(t: Tree, h: nat, lo: Option<Bytes>, hi: Option<Bytes>, caps: Caps)
    requires Sound(t, h, lo, hi, caps) && NonEmpty(t)
    ensures Pow2(h) <= |Contents(t)|
    decreases h
  {
    hide Lt, Cost, KeyFits, Fits, Inside, Ascending, AllFit, Contents, ContentsOf;
    match t
    case Leaf(id, pairs) =>
      OneLeaf(id, pairs);
    case Node(_, keys, kids) =>
      ManyPairs(kids[0], h - 1, LoAt(keys, 0, lo), HiAt(keys, 0, hi), caps);
      ManyPairs(kids[1], h - 1, LoAt(keys, 1, lo), HiAt(keys, 1, hi), caps);
      ContentsAround(kids, 0);
      ContentsAround(kids[1..], 0);
      assert Contents(t) == ContentsOf(kids) by { NodeLeaves(t); ContentsOfNode(t); }
  }

  /** A tree of height `h` has at least `2^h` pairs, or is an empty leaf. */
  lemma HeightBound(pages: Pages, t: Tree, h: nat, caps: Caps)
    requires Ready(pages, t, h, None, None, caps, [], [])
    ensures Pow2(h) <= 1 + |Contents(t)|
  {
    hide Lt, Cost, KeyFits, Fits, Chain, Contents;
    if h > 0 { ManyPairs(t, h, None, None, caps); }
  }

  // ----- the tree as a map -----

  /** The pairs of a tree as a map. */
  function ToMap(ps: seq<Pair>): map<Bytes, Bytes> {
    if ps == [] then map[] else ToMap(ps[1..])[ps[0].key := ps[0].value]
  }

  /** A pair is only taken when its key is not there yet. */
  function Add(m: map<Bytes, Bytes>, p: Pair): map<Bytes, Bytes> {
    if p.key in m then m else m[p.key := p.value]
  }

  function AddAll(m: map<Bytes, Bytes>, ps: seq<Pair>): map<Bytes, Bytes> {
    if ps == [] then m else Add(AddAll(m, ps[..|ps| - 1]), ps[|ps| - 1])
  }

  lemma AddNone(m: map<Bytes, Bytes>, ps: seq<Pair>)
    ensures AddAll(m, ps[..0]) == m
  {
  }

  lemma AddOneMore(m: map<Bytes, Bytes>, ps: seq<Pair>, n: nat)
    requires n < |ps|
    ensures AddAll(m, ps[..n + 1]) == Add(AddAll(m, ps[..n]), ps[n])
  {
    assert ps[..n + 1][..n] == ps[..n];
  }

  lemma {:induction false} ToMapKeys(ps: seq<Pair>, k: Bytes)
    ensures k in ToMap(ps) <==> HasKey(ps, k)
  {
    if ps != [] {
      ToMapKeys(ps[1..], k);
      if HasKey(ps[1..], k) {
        var i :| 0 <= i < |ps[1..]| && ps[1..][i].key == k;
        assert ps[i + 1].key == k;
      }
      if HasKey(ps, k) && ps[0].key != k {
        var i :| 0 <= i < |ps| && ps[i].key == k;
        assert ps[1..][i - 1].key == k;
      }
    }
  }

  lemma {:induction false} ToMapValue(ps: seq<Pair>, i: nat)
    requires Ascending(ps) && i < |ps|
    ensures ps[i].key in ToMap(ps) && ToMap(ps)[ps[i].key] == ps[i].value
  {
    if i > 0 {
      ToMapValue(ps[1..], i - 1);
      LtAsymmetric(ps[0].key, ps[i].key);
    }
  }

  /** Sorted insertion of a new key is insertion into the map. */
  lemma ToMapInsert(ps: seq<Pair>, x: Pair)
    requires Ascending(ps) && !HasKey(ps, x.key)
    ensures ToMap(SortedInsert(ps, x)) == ToMap(ps)[x.key := x.value]
  {
    hide Lt, LowerBound, ToMap;
    var m, n := SortedInsert(ps, x), LowerBound(ps, x.key);
    SortedInsertAscending(ps, x);
    forall k
      ensures k in ToMap(m) <==> k in ToMap(ps) || k == x.key
      ensures k in ToMap(m) ==> ToMap(m)[k] == if k == x.key then x.value else ToMap(ps)[k]
    {
      ToMapKeys(m, k);
      ToMapKeys(ps, k);
      if HasKey(m, k) {
        var i :| 0 <= i < |m| && m[i].key == k;
        ToMapValue(m, i);
        if i != n {
          var i' := if i < n then i else i - 1;
          assert m[i] == ps[i'];
          ToMapValue(ps, i');
        }
      }
      if HasKey(ps, k) {
        var i :| 0 <= i < |ps| && ps[i].key == k;
        assert m[if i < n then i else i + 1].key == k;
      }
      assert m[n].key == x.key;
    }
  }

  /** What an insertion does, said of the map. */
  lemma AddIsInsert(ps: seq<Pair>, x: Pair)
    requires Ascending(ps)
    ensures x.key in ToMap(ps) <==> HasKey(ps, x.key)
    ensures Add(ToMap(ps), x) == ToMap(if HasKey(ps, x.key) then ps else SortedInsert(ps, x))
  {
    hide Lt, ToMap, SortedInsert, HasKey, Ascending;
    ToMapKeys(ps, x.key);
    if !HasKey(ps, x.key) {
      ToMapInsert(ps, x);
    }
  }

  /** The contents of a tree are strictly sorted. */
  lemma ContentsSorted(pages: Pages, t: Tree, h: nat, caps: Caps)
    requires Ready(pages, t, h, None, None, caps, [], [])
    ensures Ascending(Contents(t))
  {
    SoundContents(t, h, None, None, caps);
  }

  /** A tree does not notice changes to pages that are not its own. */
  lemma RepresentsFrame(pages: Pages, pages': Pages, meta: PageId, t: Tree, h: nat, caps: Caps)
    requires Represents(pages, meta, t, h, caps)
    requires forall p | p in pages && p in Footprint(meta, t) :: p in pages' && pages'[p] == pages[p]
    ensures Represents(pages', meta, t, h, caps)
  {
    hide Ready, Ids;
    ReadyFrame(pages, pages', t, h, caps);
  }

  lemma FootprintStored(pages: Pages, meta: PageId, t: Tree, h: nat, caps: Caps)
    requires Represents(pages, meta, t, h, caps)
    ensures Footprint(meta, t) <= pages.Keys
  {
    StoredIds(pages, t, caps);
  }

  lemma NarrowedAtRoot(mode: SearchMode)
    ensures Narrowed(mode, [], [])
  {
  }

  // ----- the chain of leaves -----

  /** The pages met by following `next` from a page, `n` of them at most. */
  ghost function Walk(pages: Pages, start: Option<PageId>, n: nat): seq<PageId>
    decreases n
  {
    if n == 0 || start.None? || start.value !in pages || !pages[start.value].LeafPage? then []
    else [start.value] + Walk(pages, pages[start.value].next, n - 1)
  }

  ghost function LeafIds(ls: seq<LeafRec>): seq<PageId> {
    seq(|ls|, i requires 0 <= i < |ls| => ls[i].id)
  }

  lemma {:induction false} WalkFrom(pages: Pages, ls: seq<LeafRec>, i: nat, n: nat)
    requires Chain(pages, ls) && i < |ls| && n >= |ls| - i
    ensures Walk(pages, Some(ls[i].id), n) == LeafIds(ls[i..])
    decreases |ls| - i
  {
    assert Linked(pages, ls, i);
    if i < |ls| - 1 {
      WalkFrom(pages, ls, i + 1, n - 1);
    }
    assert LeafIds(ls[i..]) == [ls[i].id] + LeafIds(ls[i + 1..]);
  }

  lemma LinksMatch(pages: Pages, ls: seq<LeafRec>)
    requires Chain(pages, ls) && UniqueLeaves(ls)
    ensures forall p, q | p in LeafIds(ls) && q in LeafIds(ls) ::
      p in pages && q in pages && pages[p].LeafPage? && pages[q].LeafPage? &&
      (pages[p].next == Some(q) <==> pages[q].prev == Some(p))
  {
    forall p, q | p in LeafIds(ls) && q in LeafIds(ls)
      ensures p in pages && q in pages && pages[p].LeafPage? && pages[q].LeafPage?
      ensures pages[p].next == Some(q) <==> pages[q].prev == Some(p)
    {
      var i :| 0 <= i < |ls| && ls[i].id == p;
      var j :| 0 <= j < |ls| && ls[j].id == q;
      assert Linked(pages, ls, i) && Linked(pages, ls, j);
      assert i < |ls| - 1 && ls[i + 1].id == q ==> j == i + 1;
      assert j > 0 && ls[j - 1].id == p ==> i == j - 1;
    }
  }

  lemma LinksEnd(pages: Pages, ls: seq<LeafRec>)
    requires Chain(pages, ls) && UniqueLeaves(ls)
    ensures forall p | p in LeafIds(ls) ::
      && p in pages && pages[p].LeafPage?
      && (pages[p].prev == None <==> p == ls[0].id)
      && (pages[p].next == None <==> p == ls[|ls| - 1].id)
  {
    forall p | p in LeafIds(ls)
      ensures p in pages && pages[p].LeafPage?
      ensures pages[p].prev == None <==> p == ls[0].id
      ensures pages[p].next == None <==> p == ls[|ls| - 1].id
    {
      var i :| 0 <= i < |ls| && ls[i].id == p;
      assert Linked(pages, ls, i);
    }
  }

  /** Following `next` from the left-most leaf visits the leaves of the tree in order and ends, however
      far one is ready to go, and `prev` leads back along every step. */
  lemma LeafChain(pages: Pages, meta: PageId, t: Tree, h: nat, caps: Caps, n: nat)
    requires Represents(pages, meta, t, h, caps) && n >= |Leaves(t)|
    ensures Leaves(t) != [] && Walk(pages, Some(Leaves(t)[0].id), n) == LeafIds(Leaves(t))
    ensures forall p | p in LeafIds(Leaves(t)) ::
      && p in pages && pages[p].LeafPage?
      && (pages[p].prev == None <==> p == Leaves(t)[0].id)
      && (pages[p].next == None <==> p == Leaves(t)[|Leaves(t)| - 1].id)
    ensures forall p, q | p in LeafIds(Leaves(t)) && q in LeafIds(Leaves(t)) ::
      p in pages && q in pages && pages[p].LeafPage? && pages[q].LeafPage? &&
      (pages[p].next == Some(q) <==> pages[q].prev == Some(p))
  {
    hide Lt, Holds, Sound, Stored, Distinct, Walk, Leaves, Chain, UniqueLeaves, LeafIds, LeafSet;
    ReadyReadable(pages, t, h, caps);
    var ls := Leaves(t);
    assert [] + ls + [] == ls;
    WalkFrom(pages, ls, 0, n);
    assert ls[0..] == ls;
    LinksMatch(pages, ls);
    LinksEnd(pages, ls);
  }

  lemma EntryFits(key: Bytes, child: PageId, cap: nat)
    requires KeyFits(key, cap)
    ensures Fits(Entry(key, child), cap)
  {
  }

  lemma EmptyTree(pages: Pages, id: PageId, caps: Caps)
    requires id in pages && pages[id].LeafPage? && pages[id].prev == None && pages[id].next == None
    requires Holds(pages[id].body, caps.leaf, [])
    ensures Ready(pages, Leaf(id, []), 0, None, None, caps, [], []) && Contents(Leaf(id, [])) == []
  {
    hide Holds, Lt, KeyFits, Fits;
    OneLeaf(id, []);
    assert [] + [LeafRec(id, [])] + [] == [LeafRec(id, [])];
  }

  lemma RebuiltStored(pages: Pages, keys: seq<Bytes>, kids: seq<Tree>, h: nat, caps: Caps, contents: seq<Pair>,
                      ids: set<PageId>, firstNew: nat)
    requires Rebuilt(pages, keys, kids, h, None, None, caps, contents, ids, firstNew, [], [])
    ensures IdsOf(kids) <= pages.Keys
  {
    hide Ids;
    StoredForestIds(pages, kids, caps);
  }

  /** A root over the two halves of the old one. */
  lemma NewRoot(pages: Pages, pages': Pages, t: Tree, h: nat, caps: Caps, contents: seq<Pair>, ids: set<PageId>,
                firstNew: nat)
    requires t.Node? && |t.keys| == 1 && |t.kids| == 2 && t.id !in pages && t.id in pages'
    requires pages' == pages[t.id := pages'[t.id]]
    requires Rebuilt(pages, t.keys, t.kids, h, None, None, caps, contents, ids, firstNew, [], [])
    requires pages'[t.id].BranchPage? && pages'[t.id].right == t.kids[1].id
    requires Holds(pages'[t.id].body, caps.branch, [Entry(t.keys[0], t.kids[0].id)])
    requires Fits(Entry(t.keys[0], t.kids[0].id), caps.branch) && t.id >= firstNew
    ensures Ready(pages', t, h + 1, None, None, caps, [], []) && Contents(t) == contents
    ensures forall p | p in Ids(t) :: p in ids || p >= firstNew
  {
    RebuiltStored(pages, t.keys, t.kids, h, caps, contents, ids, firstNew);
    hide Lt, Holds, Ready, Rebuilt, Contents, Ids, IdsOf;
    assert Entries(t.keys, t.kids) == [Entry(t.keys[0], t.kids[0].id)];
    CostOfOne(Entry(t.keys[0], t.kids[0].id));
    OneNode(pages, pages', t, h, None, None, caps, contents, ids, firstNew, [], []);
    RebuiltReady(pages', t, h + 1, caps, contents, ids + {t.id}, firstNew);
  }

  // ----- a read with two buffers -----

  lemma AtTheStart(pages: Pages, t: Tree, ls: seq<LeafRec>, j: nat, slot: nat, cap: nat)
    requires Readable(pages, ls, cap) && ls == Leaves(t) && |ls| > 1 && j < |ls|
    requires Remaining(ls, j, slot) == Contents(t) && (slot < |ls[j].pairs| || j == |ls| - 1)
    ensures j == 0 && slot == 0 && ls[0].pairs != []
  {
    hide Chain, LeafHeld, Leaves;
    assert Remaining(ls, 0, 0) == Contents(t);
    SamePlace(ls, 0, 0, j, slot);
  }

  /** The meta page is not a leaf, and the leaves are different pages. */
  lemma TwoKinds(pages: Pages, ls: seq<LeafRec>, meta: PageId, cap: nat)
    requires Readable(pages, ls, cap) && |ls| > 1 && meta in pages && pages[meta].MetaPage?
    ensures meta != ls[0].id && meta != ls[1].id && ls[0].id != ls[1].id
  {
    assert Linked(pages, ls, 0) && Linked(pages, ls, 1);
    assert LeafHeld(pages, ls[0], cap);
  }

  lemma NextPlace(ls: seq<LeafRec>, slot: nat, p: Pair, rest: seq<Pair>)
    requires |ls| > 1 && slot + 1 < |ls[0].pairs| && Remaining(ls, 0, slot) == [p] + rest
    ensures p == ls[0].pairs[slot] && rest == Remaining(ls, 0, slot + 1)
  {
    assert Remaining(ls, 0, slot) == [ls[0].pairs[slot]] + Remaining(ls, 0, slot + 1);
    assert ([p] + rest)[1..] == rest;
  }

  // ----- operations -----

  datatype BTree = BTree(metaPageId: PageId) {

    static method Create(store: Store) returns (r: Option<BTree>, ghost t: Tree)
      requires store.Valid()
      modifies store, store.manager, store.manager.pool, store.manager.disk
      ensures store.Valid() && store.nextPageId >= old(store.nextPageId) && store.held == old(store.held)
      ensures OnlyTouches(old(store.pages), store.pages, {})
      ensures r.None? ==> store.Short(|store.held| + 2)
      ensures r.Some? ==> Represents(store.pages, r.value.metaPageId, t, 0, store.Capacities()) && Contents(t) == []
      ensures r.Some? ==> forall p | p in Footprint(r.value.metaPageId, t) :: p !in old(store.pages)
      ensures r.Some? ==> r.value.metaPageId == old(store.nextPageId) && store.nextPageId == old(store.nextPageId) + 2
    {
      hide Store.Valid, ValidBody, PairsIn, Holds, Ready, Contents;
      t := Leaf(0, []);
      var ok, meta, root := HoldTwoPages(store);
      if !ok {
        return None, t;
      }
      var leaf := new Leaf(LeafPage(None, None, BlankImage(store.leafCapacity)));
      leaf.Initialize();
      LeafHolds(leaf);
      store.WritePage(root, leaf.ToPage());
      store.WritePage(meta, MetaPage(root));
      store.Release(root, old(store.held) + multiset{meta});
      store.Release(meta, old(store.held));
      t := Leaf(root, []);
      EmptyTree(store.pages, root, store.Capacities());
      return Some(BTree(meta)), t;
    }

    /** The pages of a new tree. */
    static method HoldTwoPages(store: Store) returns (ok: bool, first: PageId, second: PageId)
      requires store.Valid()
      modifies store, store.manager, store.manager.pool, store.manager.disk
      ensures store.Valid() && store.nextPageId >= old(store.nextPageId)
      ensures !ok ==>
                store.held == old(store.held) && store.Short(|store.held| + 2) &&
                OnlyTouches(old(store.pages), store.pages, {})
      ensures ok ==> store.held == old(store.held) + multiset{first} + multiset{second} && first != second
      ensures ok ==> first !in old(store.pages) && second !in old(store.pages)
      ensures ok ==> first == old(store.nextPageId) && store.nextPageId == old(store.nextPageId) + 2
      ensures ok ==> store.pages == old(store.pages)[first := BlankPage][second := BlankPage]
    {
      hide Store.Valid;
      ok, first, second := false, 0, 0;
      var p := store.CreatePage();
      if p.None? {
        return;
      }
      var q := store.CreatePage();
      if q.None? {
        store.Release(p.value, old(store.held));
        return;
      }
      ok, first, second := true, p.value, q.value;
    }

    /** Inserting a pair that a leaf page and, by its key, a branch page has room for. The only other
        error is a page operation that failed, which takes a pool with fewer buffers to spare than the
        tree is high, and four. Unless page ids have run out it fails before anything has changed: a
        node that splits leaves a buffer free for its parent. Apart from that the pair is refused exactly
        when its key is there, and then no page changes; otherwise the tree is again a valid one, and
        holds the pairs it held and the new one. Other pages than the tree's are left alone in any case,
        and no buffer is kept. */
    method Insert(store: Store, key: Bytes, value: Bytes, ghost t: Tree, ghost h: nat)
      returns (r: InsertResult, ghost t': Tree, ghost h': nat)
      requires store.Valid() && Represents(store.pages, metaPageId, t, h, store.Capacities())
      requires Fits(Pair(key, value), store.leafCapacity) && KeyFits(key, store.branchCapacity)
      modifies store, store.manager, store.manager.pool, store.manager.disk
      ensures store.Valid() && store.nextPageId >= old(store.nextPageId) && store.held == old(store.held)
      ensures OnlyTouches(old(store.pages), store.pages, Footprint(metaPageId, t))
      ensures r.Failed? ==> store.Short(|store.held| + h + 4) && t' == t && h' == h
      ensures r.Failed? && store.nextPageId < MAX_PAGE_ID ==> store.pages == old(store.pages)
      ensures r.Duplicate? ==> HasKey(Contents(t), key) && store.pages == old(store.pages) && t' == t && h' == h
      ensures r.Accepted? ==> !HasKey(Contents(t), key) && Contents(t') == SortedInsert(Contents(t), Pair(key, value))
      ensures !r.Failed? ==> Represents(store.pages, metaPageId, t', h', store.Capacities())
      ensures !r.Failed? ==>
                forall p | p in Footprint(metaPageId, t') :: p in Footprint(metaPageId, t) || p !in old(store.pages)
    {
      hide Store.Valid, Fits, KeyFits, Cost, Ready, HasKey, SortedInsert, Contents, Footprint, OnlyTouches,
           ValidBody;
      t', h' := t, h;
      Untouched(store.pages, Footprint(metaPageId, t));
      var meta := store.FetchMeta(metaPageId);
      if meta.None? {
        return Failed, t', h';
      }
      r, t', h' := InsertBelow(store, meta.value.root, key, value, t, h);
      store.Release(metaPageId, old(store.held));
    }

    /** `insert` once the meta page is held. */
    method InsertBelow(store: Store, rootId: PageId, key: Bytes, value: Bytes, ghost t: Tree, ghost h: nat)
      returns (r: InsertResult, ghost t': Tree, ghost h': nat)
      requires store.Valid() && Represents(store.pages, metaPageId, t, h, store.Capacities()) && rootId == t.id
      requires metaPageId in store.held
      requires Fits(Pair(key, value), store.leafCapacity) && KeyFits(key, store.branchCapacity)
      modifies store, store.manager, store.manager.pool, store.manager.disk
      ensures store.Valid() && store.nextPageId >= old(store.nextPageId) && store.held == old(store.held)
      ensures OnlyTouches(old(store.pages), store.pages, Footprint(metaPageId, t))
      ensures r.Failed? ==> store.Short(|store.held| + h + 3) && t' == t && h' == h
      ensures r.Failed? && store.nextPageId < MAX_PAGE_ID ==> store.pages == old(store.pages)
      ensures r.Duplicate? ==> HasKey(Contents(t), key) && store.pages == old(store.pages) && t' == t && h' == h
      ensures r.Accepted? ==> !HasKey(Contents(t), key) && Contents(t') == SortedInsert(Contents(t), Pair(key, value))
      ensures !r.Failed? ==> Represents(store.pages, metaPageId, t', h', store.Capacities())
      ensures !r.Failed? ==>
                forall p | p in Footprint(metaPageId, t') :: p in Footprint(metaPageId, t) || p !in old(store.pages)
    {
      hide Store.Valid, Store.Full, Lt, Fits, KeyFits, Cost, Ready, Rebuilt, HasKey, SortedInsert, Contents, Ids,
           ValidBody, PairsIn, LittleEndian, PageIdFrom;
      t', h' := t, h;
      ghost var caps, x, pages0, next0 := store.Capacities(), Pair(key, value), store.pages, store.nextPageId;
      KeptSame(pages0, Ids(t), []);
      ReadyKind(pages0, t, h, None, None, caps, [], []);
      var root := store.FetchNode(rootId);
      if root.None? {
        return Failed, t', h';
      }
      ghost var keys, kids;
      var o;
      o, keys, kids := InsertInternal(store, rootId, root.value, key, value, t, h, None, None, [], [], old(store.held));
      assert LeafSet([]) == {};
      match o
      case BufferError =>
        return Failed, t', h';
      case DuplicateKey =>
        return Duplicate, t', h';
      case Inserted =>
        t' := kids[0];
        assert kids == [t'];
        RebuiltReady(store.pages, t', h, caps, SortedInsert(Contents(t), x), Ids(t), next0);
        return Accepted, t', h';
      case Overflow(overflow, childId) =>
        OverflowFacts(store.pages, overflow, kids, h, None, None, caps, SortedInsert(Contents(t), x), Ids(t), next0, [],
                      []);
        ghost var newRoot;
        r, newRoot := GrowRoot(store, rootId, overflow, childId, keys, kids, h, SortedInsert(Contents(t), x), Ids(t),
                               next0);
        if r.Accepted? { t', h' := newRoot, h + 1; }
    }

    /** The root has split: a new one over the two halves, which the meta page is made to name. */
    method GrowRoot(store: Store, rootId: PageId, key: Bytes, childId: PageId, ghost keys: seq<Bytes>,
                    ghost kids: seq<Tree>, ghost h: nat, ghost contents: seq<Pair>, ghost ids: set<PageId>,
                    ghost firstNew: nat)
      returns (r: InsertResult, ghost t: Tree)
      requires store.Valid() && !store.Full()
      requires metaPageId in store.held && metaPageId in store.pages && metaPageId !in ids
      requires metaPageId < firstNew <= store.nextPageId
      requires keys == [key] && |kids| == 2 && kids[0].id == childId && kids[1].id == rootId
      requires KeyFits(key, store.branchCapacity)
      requires Rebuilt(store.pages, keys, kids, h, None, None, store.Capacities(), contents, ids, firstNew, [], [])
      modifies store, store.manager, store.manager.pool, store.manager.disk
      ensures store.Valid() && store.nextPageId >= old(store.nextPageId) && store.held == old(store.held)
      ensures r.Failed? || r.Accepted?
      ensures r.Failed? ==> store.nextPageId >= MAX_PAGE_ID
      ensures forall p | p in old(store.pages) && p != metaPageId ::
                p in store.pages && store.pages[p] == old(store.pages)[p]
      ensures metaPageId in store.pages
      ensures r.Accepted? ==>
                Represents(store.pages, metaPageId, t, h + 1, store.Capacities()) && Contents(t) == contents
      ensures r.Accepted? ==> forall p | p in Ids(t) :: p in ids || p >= firstNew
    {
      hide Store.Valid, Lt, Cost, Ready, Rebuilt, Contents, Ids, ValidBody, PairsIn, LittleEndian, PageIdFrom;
      ghost var pages0 := store.pages;
      t := Leaf(0, []);
      var newRootId := store.CreatePage();
      if newRootId.None? {
        return Failed, t;
      }
      var branch := new Branch(BranchPage(0, BlankImage(store.branchCapacity)));
      EntryFits(key, childId, store.branchCapacity);
      branch.Initialize(key, childId, rootId);
      store.WritePage(newRootId.value, branch.ToPage());
      t := Node(newRootId.value, keys, kids);
      NewRoot(pages0, store.pages, t, h, store.Capacities(), contents, ids, firstNew);
      ghost var pages1 := store.pages;
      store.WritePage(metaPageId, MetaPage(newRootId.value));
      ReadyFrame(pages1, store.pages, t, h + 1, store.Capacities());
      store.Release(newRootId.value, old(store.held));
      r := Accepted;
    }

    /** An iterator in front of the pairs the search is for, which holds one buffer. Never more than two
        are needed at a time. */
    method Search(store: Store, mode: SearchMode, ghost t: Tree, ghost h: nat) returns (r: Option<Iter>, ghost j: nat)
      requires store.Valid() && Represents(store.pages, metaPageId, t, h, store.Capacities())
      modifies store`held, store.manager, store.manager.pool, store.manager.disk`heapFile
      ensures store.Valid()
      ensures store.held == old(store.held) + if r.Some? then multiset{r.value.pageId} else multiset{}
      ensures r.None? ==> |store.held| + 2 > store.frames
      ensures r.Some? ==> fresh(r.value) && r.value.Normal(Leaves(t), j)
      ensures r.Some? ==> Remaining(Leaves(t), j, r.value.slotId) == From(Contents(t), mode)
    {
      hide Store.Valid, Lt, Ready, Readable, Remaining, From;
      j := 0;
      var meta := store.FetchMeta(metaPageId);
      if meta.None? {
        return None, j;
      }
      var rootId := meta.value.root;
      store.Release(metaPageId, old(store.held));
      ReadyKind(store.pages, t, h, None, None, store.Capacities(), [], []);
      var root := store.FetchNode(rootId);
      if root.None? {
        return None, j;
      }
      ReadyReadable(store.pages, t, h, store.Capacities());
      assert [] + Leaves(t) + [] == Leaves(t);
      NarrowedAtRoot(mode);
      r, j := SearchInternal(store, rootId, root.value, mode, t, h, None, None, [], [], Leaves(t), old(store.held));
    }

    /** Searching and reading until the first None, as the examples do: exactly the pairs from the
        key on, or all of them, in order. */
    method Scan(store: Store, mode: SearchMode, ghost t: Tree, ghost h: nat) returns (r: Option<seq<Pair>>)
      requires store.Valid() && Represents(store.pages, metaPageId, t, h, store.Capacities())
      modifies store`held, store.manager, store.manager.pool, store.manager.disk`heapFile
      ensures store.Valid() && store.held == old(store.held)
      ensures r.None? ==> |store.held| + 2 > store.frames
      ensures r.Some? ==> r.value == From(Contents(t), mode)
    {
      hide Store.Valid, Lt, Ready, Readable, Remaining, From;
      ReadyReadable(store.pages, t, h, store.Capacities());
      ghost var ls := Leaves(t);
      var iter, j := Search(store, mode, t, h);
      if iter.None? {
        return None;
      }
      var it, out := iter.value, [];
      ghost var all := Remaining(ls, j, it.slotId);
      while true
        invariant fresh(it) && it.Normal(ls, j)
        invariant store.Valid() && store.held == old(store.held) + multiset{it.pageId}
        invariant store.pages == old(store.pages)
        invariant out + Remaining(ls, j, it.slotId) == all
        decreases |Remaining(ls, j, it.slotId)|
      {
        var ok, p;
        ok, p, j := it.Next(store, ls, j, old(store.held));
        if !ok || p.None? {
          store.Release(it.pageId, old(store.held));
          return if ok then Some(out) else None;
        }
        out := out + [p.value];
      }
    }

    /** Flushing, and opening the file again with another pool: the tree is still there. */
    method Reopen(store: Store, poolSize: nat, ghost t: Tree, ghost h: nat) returns (s: Store)
      requires store.Valid() && Represents(store.pages, metaPageId, t, h, store.Capacities()) && poolSize > 0
      modifies store.manager.pool, store.manager.disk`heapFile
      ensures fresh(s) && fresh(s.manager) && fresh(s.manager.pool) && fresh(s.manager.disk)
      ensures s.Valid() && s.frames == poolSize && s.held == multiset{}
      ensures Represents(s.pages, metaPageId, t, h, s.Capacities())
    {
      hide Store.Valid, Ready;
      s := PageStore.Reopen(store, poolSize);
    }

    /** A read that goes wrong, in any tree with two leaves or more: on the flushed file, with two buffers,
        one of them held on to until a call has failed. What comes out up to the first None is the first
        leaf but for its last pair. */
    method ReadWithTwoBuffers(store: Store, ghost t: Tree, ghost h: nat) returns (out: seq<Pair>)
      requires store.Valid() && Represents(store.pages, metaPageId, t, h, store.Capacities()) && |Leaves(t)| > 1
      modifies store.manager.pool, store.manager.disk`heapFile
      ensures Leaves(t)[0].pairs != [] && out == Leaves(t)[0].pairs[..|Leaves(t)[0].pairs| - 1]
    {
      hide Store.Valid, Store.Full, Lt, Ready, Readable, Remaining, Leaves, Contents;
      ghost var ls := Leaves(t);
      var s := Reopen(store, 2, t, h);
      ReadyReadable(s.pages, t, h, s.Capacities());
      var iter, j := Search(s, Start, t, h);
      var it := iter.value;
      AtTheStart(s.pages, t, ls, j, it.slotId, s.leafCapacity);
      TwoKinds(s.pages, ls, metaPageId, s.leafCapacity);
      var meta := s.FetchMeta(metaPageId);
      out := [];
      while true
        invariant s.Valid() && fresh(s) && fresh(it) && Readable(s.pages, ls, s.leafCapacity) && s.frames == 2
        invariant s.held == multiset{metaPageId} + multiset{it.pageId} && fresh(s.manager) && fresh(s.manager.pool)
        invariant fresh(s.manager.disk)
        invariant it.At(ls, 0) && it.slotId < |ls[0].pairs| && out == ls[0].pairs[..it.slotId]
        decreases |ls[0].pairs| - it.slotId
      {
        TwoHeldFill(s, metaPageId, it.pageId);
        assert it.Stuck(s, ls, 0) <==> it.slotId + 1 == |ls[0].pairs|;
        ghost var slot := it.slotId;
        var ok, p;
        ok, p, j := it.Next(s, ls, 0, multiset{metaPageId});
        if !ok {
          s.Release(metaPageId, multiset{it.pageId});
          ok, p, j := it.Next(s, ls, 0, multiset{});
          assert ok && p.None?;
          return;
        }
        NextPlace(ls, slot, p.value, Remaining(ls, j, it.slotId));
        SamePlace(ls, 0, slot + 1, j, it.slotId);
        out := out + [p.value];
      }
    }

    /** A run of insertions, from any valid tree. A pair is refused exactly when its key was there or came
        earlier in the run, and as long as no page operation fails the tree stays valid and its contents
        are those it had and the accepted pairs. With page ids left, the run only stops early when so
        many pairs were inserted that the tree is higher than there are buffers to spare, but three;
        the tree is then what the pairs up to there have made of it. */
    method InsertAll(store: Store, pairs: seq<Pair>, ghost t: Tree, ghost h: nat)
      returns (ok: bool, accepted: seq<bool>, ghost t': Tree, ghost h': nat)
      requires store.Valid() && Represents(store.pages, metaPageId, t, h, store.Capacities())
      requires forall i | 0 <= i < |pairs| ::
                 Fits(pairs[i], store.leafCapacity) && KeyFits(pairs[i].key, store.branchCapacity)
      modifies store, store.manager, store.manager.pool, store.manager.disk
      ensures store.Valid() && store.held == old(store.held)
      ensures |accepted| <= |pairs| && (ok <==> |accepted| == |pairs|)
      ensures forall i | 0 <= i < |accepted| :: accepted[i] <==> pairs[i].key !in AddAll(ToMap(Contents(t)), pairs[..i])
      ensures ToMap(Contents(t')) == AddAll(ToMap(Contents(t)), pairs[..|accepted|])
      ensures ok || store.nextPageId < MAX_PAGE_ID ==> Represents(store.pages, metaPageId, t', h', store.Capacities())
      ensures ok ==> ToMap(Contents(t')) == AddAll(ToMap(Contents(t)), pairs)
      ensures !ok ==> store.Short(|store.held| + h' + 4)
      ensures !ok && store.nextPageId < MAX_PAGE_ID && |store.held| + 3 <= store.frames ==>
                Pow2(store.frames - |store.held| - 3) <= 1 + |Contents(t)| + |accepted|
    {
      hide Store.Valid, Lt, Fits, KeyFits, Ready, Contents, ToMap, SortedInsert, HasKey, Add, AddAll, Footprint,
           OnlyTouches, Pow2;
      ok, accepted, t', h' := true, [], t, h;
      ghost var m := ToMap(Contents(t));
      assert AddAll(m, pairs[..0]) == m by { AddNone(m, pairs); }
      for n := 0 to |pairs|
        invariant store.Valid() && Represents(store.pages, metaPageId, t', h', store.Capacities())
        invariant store.held == old(store.held) && |Contents(t')| <= |Contents(t)| + n
        invariant |accepted| == n && ToMap(Contents(t')) == AddAll(m, pairs[..n])
        invariant forall i | 0 <= i < n :: accepted[i] <==> pairs[i].key !in AddAll(m, pairs[..i])
      {
        ContentsSorted(store.pages, t', h', store.Capacities());
        AddIsInsert(Contents(t'), pairs[n]);
        AddOneMore(m, pairs, n);
        SortedInsertLength(Contents(t'), pairs[n]);
        HeightBound(store.pages, t', h', store.Capacities());
        var r;
        r, t', h' := Insert(store, pairs[n].key, pairs[n].value, t', h');
        if r.Failed? {
          Pow2Grows(store.frames - |store.held| - 3, h');
          ok := false;
          return;
        }
        accepted := accepted + [r.Accepted?];
      }
      assert pairs[..|pairs|] == pairs;
    }
  }
}
