/** src/btree.rs, searching and iterating: an iterator walks the chain of leaves. */
module Iteration {
  import opened Bytes
  import opened PairCodec
  import opened NodeSpec
  import opened NodeBody
  import opened Nodes
  import opened Tree
  import opened TreeEdit
  import opened PageStore
  import opened InsertSteps

  datatype SearchMode = Start | Key(key: Bytes)

  /** The pairs a search is for: all of them, or those from a key on. */
  ghost function From(ps: seq<Pair>, mode: SearchMode): seq<Pair> {
    match mode
    case Start => ps
    case Key(k) => ps[LowerBound(ps, k)..]
  }

  /** A sorted list from a key on: exactly the pairs whose keys are not smaller. */
  lemma FromIsExact(ps: seq<Pair>, k: Bytes, p: Pair)
    requires Ascending(ps)
    ensures p in From(ps, Key(k)) <==> p in ps && Le(k, p.key)
    ensures Ascending(From(ps, Key(k)))
  {
    var n := LowerBound(ps, k);
    if p in ps[n..] {
      var i :| n <= i < |ps| && ps[i] == p;
      AboveLowerBound(ps, k, i);
      LtTotal(k, p.key);
    }
    if p in ps && Le(k, p.key) {
      var i :| 0 <= i < |ps| && ps[i] == p;
      LtIrreflexive(k);
      if Lt(k, p.key) { LtAsymmetric(k, p.key); }
      assert ps[n..][i - n] == p;
    }
  }

  // ----- leaves that can be read in order -----

  /** The pages of the leaves hold their pairs and are chained; only a leaf that is alone may be empty. */
  ghost predicate Readable(pages: Pages, ls: seq<LeafRec>, cap: nat) {
    && Chain(pages, ls)
    && (forall i | 0 <= i < |ls| :: LeafHeld(pages, ls[i], cap))
    && (|ls| > 1 ==> forall i | 0 <= i < |ls| :: ls[i].pairs != [])
  }

  lemma {:induction false} LeavesNonEmpty(t: Tree, h: nat, lo: Option<Bytes>, hi: Option<Bytes>, caps: Caps, l: LeafRec)
    requires Sound(t, h, lo, hi, caps) && NonEmpty(t) && l in Leaves(t)
    ensures l.pairs != []
    decreases t
  {
    hide Lt, Cost, KeyFits, Inside;
    if t.Node? {
      var i := LeafInSomeKid(t.kids, l);
      assert Sound(t.kids[i], h - 1, LoAt(t.keys, i, lo), HiAt(t.keys, i, hi), caps);
      LeavesNonEmpty(t.kids[i], h - 1, LoAt(t.keys, i, lo), HiAt(t.keys, i, hi), caps, l);
    }
  }

  lemma {:induction false} LeavesCount(t: Tree, h: nat, lo: Option<Bytes>, hi: Option<Bytes>, caps: Caps)
    requires Sound(t, h, lo, hi, caps)
    ensures |Leaves(t)| >= 1 && (t.Leaf? ==> |Leaves(t)| == 1)
    decreases t
  {
    if t.Node? {
      assert Sound(t.kids[0], h - 1, LoAt(t.keys, 0, lo), HiAt(t.keys, 0, hi), caps);
      LeavesCount(t.kids[0], h - 1, LoAt(t.keys, 0, lo), HiAt(t.keys, 0, hi), caps);
    }
  }

  /** The leaves of a tree can be read. */
  lemma ReadyReadable(pages: Pages, t: Tree, h: nat, caps: Caps)
    requires Ready(pages, t, h, None, None, caps, [], [])
    ensures Readable(pages, Leaves(t), caps.leaf) && Leaves(t) != []
  {
    hide Lt, Cost, Holds, KeyFits, Chain, LeafHeld, Leaves;
    assert [] + Leaves(t) + [] == Leaves(t);
    forall i | 0 <= i < |Leaves(t)|
      ensures LeafHeld(pages, Leaves(t)[i], caps.leaf)
    {
      LeavesHeld(pages, t, caps, Leaves(t)[i]);
    }
    LeavesCount(t, h, None, None, caps);
    if |Leaves(t)| > 1 {
      forall i | 0 <= i < |Leaves(t)|
        ensures Leaves(t)[i].pairs != []
      {
        LeavesNonEmpty(t, h, None, None, caps, Leaves(t)[i]);
      }
    }
  }

  // ----- the iterator -----

  /** What is to come when an iterator is in front of slot `slot` of leaf `j`. */
  ghost function Remaining(ls: seq<LeafRec>, j: nat, slot: nat): seq<Pair>
    requires j < |ls|
  {
    (if slot <= |ls[j].pairs| then ls[j].pairs[slot..] else []) + Flat(ls[j + 1..])
  }

  lemma RemainingNext(ls: seq<LeafRec>, j: nat)
    requires j + 1 < |ls|
    ensures Flat(ls[j + 1..]) == Remaining(ls, j + 1, 0)
  {
    assert ls[j + 1..][1..] == ls[j + 2..];
  }

  lemma NextLeaf(pages: Pages, ls: seq<LeafRec>, j: nat)
    requires Chain(pages, ls) && j < |ls|
    ensures ls[j].id in pages && pages[ls[j].id].LeafPage?
    ensures pages[ls[j].id].next == if j == |ls| - 1 then None else Some(ls[j + 1].id)
  {
    assert Linked(pages, ls, j);
  }

  lemma RestEmpty(pages: Pages, ls: seq<LeafRec>, j: nat, cap: nat)
    requires Readable(pages, ls, cap) && j < |ls|
    ensures Flat(ls[j + 1..]) == [] <==> j + 1 == |ls|
  {
    assert j + 1 < |ls| ==> ls[j + 1..][0] == ls[j + 1];
  }

  /** Behind leaf `j` there are at least the pairs of a later leaf and those behind it. */
  lemma {:induction false} FlatBehind(ls: seq<LeafRec>, j: nat, k: nat)
    requires j < k < |ls|
    ensures |Flat(ls[j + 1..])| >= |ls[k].pairs| + |Flat(ls[k + 1..])|
    decreases k - j
  {
    assert ls[j + 1..][0] == ls[j + 1] && ls[j + 1..][1..] == ls[j + 2..];
    if j + 1 < k {
      FlatBehind(ls, j + 1, k);
    }
  }

  lemma FlatEnd(ls: seq<LeafRec>)
    ensures Flat(ls[|ls|..]) == []
  {
  }

  /** In front of a pair, what is to come tells the place. */
  lemma SamePlace(ls: seq<LeafRec>, j: nat, slot: nat, k: nat, slot': nat)
    requires j < |ls| && slot < |ls[j].pairs| && k < |ls| && Remaining(ls, k, slot') == Remaining(ls, j, slot)
    requires slot' < |ls[k].pairs| || k == |ls| - 1
    ensures k == j && slot' == slot
  {
    hide Flat;
    if k == |ls| - 1 && slot' >= |ls[k].pairs| { assert Flat(ls[k + 1..]) == [] by { FlatEnd(ls); } }
    if j < k { FlatBehind(ls, j, k); }
    if k < j { FlatBehind(ls, k, j); }
  }

  class Iter {
    var pageId: PageId
    var slotId: nat

    constructor (pageId: PageId, slotId: nat)
      ensures this.pageId == pageId && this.slotId == slotId
    {
      this.pageId, this.slotId := pageId, slotId;
    }

    /** The iterator holds leaf `j`. */
    ghost predicate At(ls: seq<LeafRec>, j: nat)
      reads this
    {
      j < |ls| && pageId == ls[j].id
    }

    /** It is in front of a pair, or has come to the end of the last leaf. */
    ghost predicate Normal(ls: seq<LeafRec>, j: nat)
      reads this
    {
      At(ls, j) && (slotId < |ls[j].pairs| || j == |ls| - 1)
    }

    method Get(store: Store, ghost ls: seq<LeafRec>, ghost j: nat) returns (r: Option<Pair>)
      requires store.Valid() && Readable(store.pages, ls, store.leafCapacity) && At(ls, j) && pageId in store.held
      ensures r == if slotId < |ls[j].pairs| then Some(ls[j].pairs[slotId]) else None
    {
      hide Store.Valid, ValidBody, PairsIn, Chain;
      assert LeafHeld(store.pages, ls[j], store.leafCapacity);
      var leaf := new Leaf(store.ReadNode(pageId));
      r := if slotId < |leaf.Pairs()| then Some(leaf.Pairs()[slotId]) else None;
    }

    /** When the next step fails: it is to the next leaf, which is not cached, and every frame is pinned. */
    ghost predicate Stuck(store: Store, ls: seq<LeafRec>, j: nat)
      requires j < |ls|
      reads this, store, store.manager, store.manager.pool
    {
      && slotId + 1 >= |ls[j].pairs| && j + 1 < |ls|
      && ls[j + 1].id !in store.manager.pageTable && store.Full()
    }

    /** To the front of another leaf, whose buffer is had before that of this one is let go of. */
    method Hop(store: Store, nextId: PageId, ghost rest: multiset<PageId>) returns (ok: bool)
      requires store.Valid() && nextId in store.pages && store.pages[nextId].LeafPage?
      requires store.held == rest + multiset{pageId}
      modifies this, store`held, store.manager, store.manager.pool, store.manager.disk`heapFile
      ensures store.Valid() && store.held == rest + multiset{pageId}
      ensures !ok <==> nextId !in old(store.manager.pageTable) && old(store.Full())
      ensures if ok then pageId == nextId && slotId == 0 else unchanged(this) && |store.held| >= store.frames
    {
      hide Store.Valid, Store.Full;
      var next := store.FetchNode(nextId);
      ok := next.Some?;
      if ok {
        assert store.held == rest + multiset{nextId} + multiset{pageId};
        store.Release(pageId, rest + multiset{nextId});
        pageId, slotId := nextId, 0;
      }
    }

    /** On to the next slot, and to the next leaf when this one has no more. When the next leaf cannot be
        fetched the iterator stays behind the last pair of this one, with others still to come. */
    method Advance(store: Store, ghost ls: seq<LeafRec>, ghost j: nat, ghost rest: multiset<PageId>)
      returns (ok: bool, ghost j': nat)
      requires store.Valid() && Readable(store.pages, ls, store.leafCapacity) && At(ls, j)
      requires store.held == rest + multiset{pageId}
      modifies this, store`held, store.manager, store.manager.pool, store.manager.disk`heapFile
      ensures store.Valid() && store.held == rest + multiset{pageId}
      ensures !ok <==> old(Stuck(store, ls, j))
      ensures ok ==> Normal(ls, j') && Remaining(ls, j', slotId) == Remaining(ls, j, old(slotId) + 1)
      ensures !ok ==>
                pageId == old(pageId) && At(ls, j) && j' == j && slotId == old(slotId) + 1 &&
                |store.held| >= store.frames
      ensures !ok ==> |ls[j].pairs| <= slotId && j + 1 < |ls| && Flat(ls[j + 1..]) != []
    {
      hide Store.Valid, Store.Full, ValidBody, PairsIn, Chain, Flat;
      slotId := slotId + 1;
      j' := j;
      assert LeafHeld(store.pages, ls[j], store.leafCapacity);
      var leaf := new Leaf(store.ReadNode(pageId));
      if slotId < |leaf.Pairs()| {
        return true, j';
      }
      NextLeaf(store.pages, ls, j);
      if leaf.next.Some? {
        var nextId := leaf.next.value;
        RemainingNext(ls, j);
        assert LeafHeld(store.pages, ls[j + 1], store.leafCapacity);
        ok := Hop(store, nextId, rest);
        j' := if ok then j + 1 else j;
        return;
      }
      ok := true;
    }

    /** The next pair, if there is one. In front of a pair, or at the end of the last leaf, it is the first
        of those to come, and None is the end. After a call that failed it is None, too, and there the
        end is not: the pairs of the next leaf are still to come. */
    method Next(store: Store, ghost ls: seq<LeafRec>, ghost j: nat, ghost rest: multiset<PageId>)
      returns (ok: bool, r: Option<Pair>, ghost j': nat)
      requires store.Valid() && Readable(store.pages, ls, store.leafCapacity) && At(ls, j)
      requires store.held == rest + multiset{pageId}
      modifies this, store`held, store.manager, store.manager.pool, store.manager.disk`heapFile
      ensures store.Valid() && store.held == rest + multiset{pageId}
      ensures !ok <==> old(Stuck(store, ls, j))
      ensures ok ==> Normal(ls, j')
      ensures ok ==> (r.Some? <==> old(slotId) < |ls[j].pairs|)
      ensures ok && r.Some? ==> Remaining(ls, j, old(slotId)) == [r.value] + Remaining(ls, j', slotId)
      ensures ok && r.None? ==> Remaining(ls, j, old(slotId)) == Remaining(ls, j', slotId)
      ensures ok && r.None? ==> (Remaining(ls, j', slotId) == [] <==> old(Normal(ls, j)))
      ensures !ok ==>
                pageId == old(pageId) && At(ls, j) && !Normal(ls, j) && j' == j && slotId == old(slotId) + 1 &&
                |store.held| >= store.frames
      ensures !ok ==> Remaining(ls, j, slotId) != []
      ensures !ok ==>
                Remaining(ls, j, old(slotId)) ==
                    (if old(slotId) < |ls[j].pairs| then [ls[j].pairs[old(slotId)]] else []) + Remaining(ls, j, slotId)
    {
      hide Store.Valid, ValidBody, PairsIn, Chain, Flat, Readable;
      r := Get(store, ls, j);
      RestEmpty(store.pages, ls, j, store.leafCapacity);
      ok, j' := Advance(store, ls, j, rest);
    }

    /** What a failed call does to a caller who lets go of another buffer and tries again. The second call
        does not fail; but it reports an end although there are pairs to come, and the pair the first
        call had read is lost. */
    method NextAfterFailure(store: Store, ghost ls: seq<LeafRec>, ghost j: nat, other: PageId,
                            ghost rest: multiset<PageId>)
      returns (first: bool, second: bool, r: Option<Pair>, ghost j': nat)
      requires store.Valid() && Readable(store.pages, ls, store.leafCapacity) && Normal(ls, j)
      requires store.held == rest + multiset{other} + multiset{pageId} && other !in rest && other != pageId
      modifies this, store`held, store.manager, store.manager.pool, store.manager.disk`heapFile
      ensures store.Valid()
      ensures store.held == (if first then rest + multiset{other} else rest) + multiset{pageId}
      ensures !first <==> old(Stuck(store, ls, j))
      ensures !first ==> second && r.None? && |Remaining(ls, j, old(slotId))| >= 2
      ensures !first ==> Normal(ls, j') && Remaining(ls, j', slotId) == Remaining(ls, j, old(slotId))[1..]
    {
      hide Store.Valid, Readable, Remaining, Store.Full;
      first, r, j' := Next(store, ls, j, rest + multiset{other});
      second := first;
      if !first {
        assert store.held == rest + multiset{pageId} + multiset{other};
        store.Release(other, rest + multiset{pageId});
        second, r, j' := Next(store, ls, j, rest);
      }
    }
  }

  // ----- search_internal -----

  lemma FoundIsLowerBound(ps: seq<Pair>, i: nat, k: Bytes)
    requires Ascending(ps) && i < |ps| && ps[i].key == k
    ensures LowerBound(ps, k) == i
  {
    LtIrreflexive(k);
    LowerBoundUnique(ps, k, i);
  }

  /** The leaf the search has come to is the one the key belongs to. */
  ghost predicate Narrowed(mode: SearchMode, before: seq<LeafRec>, after: seq<LeafRec>) {
    match mode
    case Start => before == []
    case Key(k) => (forall p | p in Flat(before) :: Lt(p.key, k)) && (forall p | p in Flat(after) :: Lt(k, p.key))
  }

  lemma FlatMiddle(before: seq<LeafRec>, l: LeafRec, after: seq<LeafRec>)
    ensures Flat(before + [l] + after) == Flat(before) + l.pairs + Flat(after)
  {
    FlatConcat(before + [l], after);
    FlatConcat(before, [l]);
    assert Flat([l]) == l.pairs + [];
  }

  lemma FlatMiddleEmpty()
    ensures Flat([]) == []
  {
  }

  lemma NextKey(after: seq<LeafRec>, k: Bytes)
    requires forall p | p in Flat(after) :: Lt(k, p.key)
    ensures Flat(after) != [] ==> Lt(k, Flat(after)[0].key)
  {
    hide Lt;
    if Flat(after) != [] { assert Flat(after)[0] in Flat(after); }
  }

  lemma SuffixMiddle(a: seq<Pair>, b: seq<Pair>, c: seq<Pair>, n: nat)
    requires n <= |b|
    ensures (a + b + c)[|a| + n..] == b[n..] + c
  {
  }

  /** What is to come from the place found in that leaf is what the search is for. */
  lemma FoundRemaining(mode: SearchMode, before: seq<LeafRec>, l: LeafRec, after: seq<LeafRec>, slot: nat)
    requires Narrowed(mode, before, after)
    requires slot == if mode.Start? then 0 else LowerBound(l.pairs, mode.key)
    ensures Remaining(before + [l] + after, |before|, slot) == From(Flat(before + [l] + after), mode)
  {
    hide Lt, LowerBound, Flat;
    var ls := before + [l] + after;
    assert ls[|before|] == l && ls[|before| + 1..] == after;
    FlatMiddle(before, l, after);
    match mode
    case Start =>
      assert Flat([]) == [] by { FlatMiddleEmpty(); }
    case Key(k) =>
      NextKey(after, k);
      LowerBoundMiddle(Flat(before), l.pairs, Flat(after), k);
      SuffixMiddle(Flat(before), l.pairs, Flat(after), slot);
  }

  lemma NoLeaves()
    ensures LeavesOf([]) == []
  {
  }

  /** Descending to child `i` keeps the search narrowed. */
  lemma NarrowedChild(mode: SearchMode, keys: seq<Bytes>, kids: seq<Tree>, i: nat, h: nat, lo: Option<Bytes>,
                      hi: Option<Bytes>, caps: Caps, before: seq<LeafRec>, after: seq<LeafRec>)
    requires Narrowed(mode, before, after) && SoundForest(keys, kids, h, lo, hi, caps) && i < |kids|
    requires match mode case Start => i == 0 case Key(k) => Separates(keys, k, i)
    ensures Narrowed(mode, before + LeavesOf(kids[..i]), LeavesOf(kids[i + 1..]) + after)
  {
    hide Lt, LeavesOf, Sound;
    match mode
    case Start =>
      assert kids[..0] == [];
      assert LeavesOf([]) == [] by { NoLeaves(); }
    case Key(k) =>
      ChildSeparates(keys, kids, k, i, h, lo, hi, caps);
      FlatConcat(before, LeavesOf(kids[..i]));
      FlatConcat(LeavesOf(kids[i + 1..]), after);
  }

  method SearchLeaf(store: Store, id: PageId, page: Page, mode: SearchMode, ghost t: Tree,
                    ghost lo: Option<Bytes>, ghost hi: Option<Bytes>, ghost before: seq<LeafRec>,
                    ghost after: seq<LeafRec>, ghost ls: seq<LeafRec>, ghost rest: multiset<PageId>)
    returns (r: Option<Iter>, ghost j: nat)
    requires store.Valid() && t.Leaf? && id == t.id && id in store.pages && page == store.pages[id]
    requires store.held == rest + multiset{id}
    requires Ready(store.pages, t, 0, lo, hi, store.Capacities(), before, after)
    requires ls == before + Leaves(t) + after && Readable(store.pages, ls, store.leafCapacity)
    requires Narrowed(mode, before, after)
    modifies store`held, store.manager, store.manager.pool, store.manager.disk`heapFile
    ensures store.Valid() && store.held == if r.Some? then rest + multiset{r.value.pageId} else rest
    ensures r.None? ==> |rest| + 2 > store.frames
    ensures r.Some? ==>
              fresh(r.value) && r.value.Normal(ls, j) && Remaining(ls, j, r.value.slotId) == From(Flat(ls), mode)
  {
    hide Store.Valid, Lt, LowerBound, ValidBody, PairsIn, Cost, Ready, Chain, Ascending, AllFit, Leaves, LeavesOf, From,
         Narrowed, Flat, UniqueLeaves, Contents;
    LeafFacts(store.pages, t, lo, hi, store.Capacities(), before, after);
    var leaf := new Leaf(page);
    var slotId := 0;
    if mode.Key? {
      var s := leaf.SearchSlotId(mode.key);
      if s.Found? { FoundIsLowerBound(t.pairs, s.index, mode.key); }
      slotId := s.Position();
    }
    var isRightMost := |leaf.Pairs()| == slotId;
    var iter := new Iter(id, slotId);
    FoundRemaining(mode, before, LeafRec(id, t.pairs), after, slotId);
    j := |before|;
    assert ls[j] == LeafRec(id, t.pairs);
    if isRightMost {
      var ok;
      ok, j := iter.Advance(store, ls, j, rest);
      if !ok {
        store.Release(id, rest);
        return None, j;
      }
    }
    return Some(iter), j;
  }

  method SearchInternal(store: Store, id: PageId, page: Page, mode: SearchMode,
                        ghost t: Tree, ghost h: nat, ghost lo: Option<Bytes>, ghost hi: Option<Bytes>,
                        ghost before: seq<LeafRec>, ghost after: seq<LeafRec>, ghost ls: seq<LeafRec>,
                        ghost rest: multiset<PageId>)
    returns (r: Option<Iter>, ghost j: nat)
    requires store.Valid() && id == t.id && id in store.pages && page == store.pages[id]
    requires store.held == rest + multiset{id}
    requires Ready(store.pages, t, h, lo, hi, store.Capacities(), before, after)
    requires ls == before + Leaves(t) + after && Readable(store.pages, ls, store.leafCapacity)
    requires Narrowed(mode, before, after)
    modifies store`held, store.manager, store.manager.pool, store.manager.disk`heapFile
    ensures store.Valid() && store.held == if r.Some? then rest + multiset{r.value.pageId} else rest
    ensures r.None? ==> |rest| + 2 > store.frames
    ensures r.Some? ==>
              fresh(r.value) && r.value.Normal(ls, j) && Remaining(ls, j, r.value.slotId) == From(Flat(ls), mode)
    decreases h
  {
    hide Store.Valid, Lt, LowerBound, KeyFits, Fits, ValidBody, PairsIn, Cost, Ready, Chain, Ascending, AllFit, Entries,
         SoundForest, StoredForest, DistinctForest, Leaves, LeavesOf, Remaining, From, Narrowed, Separates, Flat, Ids,
         IdsOf, LeafSet, UniqueLeaves, Contents, ContentsOf, PageIdFrom;
    ghost var caps := store.Capacities();
    j := 0;
    ReadyKind(store.pages, t, h, lo, hi, caps, before, after);
    if page.LeafPage? {
      r, j := SearchLeaf(store, id, page, mode, t, lo, hi, before, after, ls, rest);
    } else {
      NodeFacts(store.pages, t, h, lo, hi, caps, before, after);
      var branch := new Branch(page);
      EntriesAscending(t.keys, t.kids);
      var i := 0;
      if mode.Key? {
        i := branch.SearchChildIdx(mode.key);
        EntriesSeparate(t.keys, t.kids, mode.key, i);
      }
      var childId := branch.ChildAt(i);
      EntriesChild(t.keys, t.kids, i);
      ChildReady(store.pages, t, i, h, lo, hi, caps, before, after);
      store.Release(id, rest);
      var child := store.FetchNode(childId);
      if child.None? {
        return None, j;
      }
      NarrowedChild(mode, t.keys, t.kids, i, h - 1, lo, hi, caps, before, after);
      LeavesAround(t.kids, i);
      NodeLeaves(t);
      Regroup(before, LeavesOf(t.kids[..i]), Leaves(t.kids[i]), LeavesOf(t.kids[i + 1..]), after);
      r, j := SearchInternal(store, childId, child.value, mode, t.kids[i], h - 1, LoAt(t.keys, i, lo),
                             HiAt(t.keys, i, hi), before + LeavesOf(t.kids[..i]), LeavesOf(t.kids[i + 1..]) + after, ls,
                             rest);
    }
  }
}
