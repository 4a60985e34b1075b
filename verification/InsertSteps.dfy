/** The steps of an insertion (src/btree.rs): what has to hold before one, what holds after it, and the
    lemmas that put the steps together. */
module InsertSteps {
  import opened Bytes
  import opened PairCodec
  import opened NodeSpec
  import opened Nodes
  import opened Tree
  import opened TreeEdit

  /** What `insert_internal` reports upwards: done, or done with a new node to the left of this one
      and the separator between the two, or one of the errors. */
  datatype Outcome = Inserted | Overflow(key: Bytes, page: PageId) | DuplicateKey | BufferError

  ghost function LeafSet(ls: seq<LeafRec>): set<PageId> {
    set i | 0 <= i < |ls| :: ls[i].id
  }

  /** Where an insertion into the subtree `t` starts: `before` and `after` are the leaves of the whole
      tree to the left and right of `t`. */
  ghost predicate Ready(pages: Pages, t: Tree, h: nat, lo: Option<Bytes>, hi: Option<Bytes>, caps: Caps,
                        before: seq<LeafRec>, after: seq<LeafRec>)
  {
    && Sound(t, h, lo, hi, caps) && Stored(pages, t, caps) && Distinct(t)
    && Chain(pages, before + Leaves(t) + after) && UniqueLeaves(before + Leaves(t) + after)
    && LeafSet(before) !! Ids(t) && LeafSet(after) !! Ids(t)
  }

  /** The nodes an insertion leaves in the place of one node. */
  ghost predicate Rebuilt(pages: Pages, keys: seq<Bytes>, kids: seq<Tree>, h: nat, lo: Option<Bytes>, hi: Option<Bytes>,
                          caps: Caps, contents: seq<Pair>, ids: set<PageId>, firstNew: nat, before: seq<LeafRec>,
                          after: seq<LeafRec>)
  {
    && SoundForest(keys, kids, h, lo, hi, caps) && StoredForest(pages, kids, caps) && DistinctForest(kids)
    && ContentsOf(kids) == contents
    && (forall p | p in IdsOf(kids) :: p in ids || p >= firstNew)
    && Chain(pages, before + LeavesOf(kids) + after)
  }

  /** Pages outside the subtree stay as they are, but for the link of a leaf to the left of it. */
  ghost predicate Kept(pages: Pages, pages': Pages, ids: set<PageId>, before: seq<LeafRec>) {
    forall p | p in pages ::
      && p in pages'
      && (p !in ids ==> SameButLinks(pages[p], pages'[p]))
      && (p !in ids && p !in LeafSet(before) ==> pages'[p] == pages[p])
  }

  // ----- going down -----

  /** The page of a subtree's root exists and is of its kind. */
  lemma ReadyKind(pages: Pages, t: Tree, h: nat, lo: Option<Bytes>, hi: Option<Bytes>, caps: Caps,
                  before: seq<LeafRec>, after: seq<LeafRec>)
    requires Ready(pages, t, h, lo, hi, caps, before, after)
    ensures t.id in pages && (pages[t.id].LeafPage? <==> t.Leaf?) && (pages[t.id].BranchPage? <==> t.Node?)
    ensures (t.Leaf? ==> h == 0)
  {
  }

  lemma KidReady(pages: Pages, t: Tree, i: nat, h: nat, lo: Option<Bytes>, hi: Option<Bytes>, caps: Caps)
    requires Sound(t, h, lo, hi, caps) && Stored(pages, t, caps) && Distinct(t) && t.Node? && i <= |t.keys|
    ensures Sound(t.kids[i], h - 1, LoAt(t.keys, i, lo), HiAt(t.keys, i, hi), caps)
    ensures Stored(pages, t.kids[i], caps) && Distinct(t.kids[i])
  {
    assert SoundForest(t.keys, t.kids, h - 1, lo, hi, caps);
    assert StoredForest(pages, t.kids, caps);
  }

  lemma Regroup<T>(a: seq<T>, b: seq<T>, c: seq<T>, d: seq<T>, e: seq<T>)
    ensures a + (b + c + d) + e == (a + b) + c + (d + e)
  {
  }

  lemma LeafSetInForest(kids: seq<Tree>)
    ensures LeafSet(LeavesOf(kids)) <= IdsOf(kids)
  {
    forall i | 0 <= i < |LeavesOf(kids)|
      ensures LeavesOf(kids)[i].id in IdsOf(kids)
    {
      LeafIdsInForest(kids, LeavesOf(kids)[i]);
    }
  }

  lemma SiblingsApart(kids: seq<Tree>, i: nat, some: seq<Tree>, from: nat)
    requires DistinctForest(kids) && i < |kids| && from + |some| <= |kids| && some == kids[from..from + |some|]
    requires !(from <= i < from + |some|)
    ensures LeafSet(LeavesOf(some)) !! Ids(kids[i])
  {
    LeafSetInForest(some);
    forall p | p in IdsOf(some)
      ensures p !in Ids(kids[i])
    {
      var j :| 0 <= j < |some| && p in Ids(some[j]);
      assert some[j] == kids[from + j] && Ids(kids[from + j]) !! Ids(kids[i]);
    }
  }

  lemma LeafSetConcat(a: seq<LeafRec>, b: seq<LeafRec>)
    ensures LeafSet(a + b) == LeafSet(a) + LeafSet(b)
  {
    forall p | p in LeafSet(a) + LeafSet(b)
      ensures p in LeafSet(a + b)
    {
      if p in LeafSet(a) {
        var i :| 0 <= i < |a| && a[i].id == p;
        assert (a + b)[i].id == p;
      } else {
        var i :| 0 <= i < |b| && b[i].id == p;
        assert (a + b)[|a| + i].id == p;
      }
    }
  }

  lemma ChildApart(kids: seq<Tree>, i: nat, before: seq<LeafRec>, after: seq<LeafRec>)
    requires DistinctForest(kids) && i < |kids|
    requires LeafSet(before) !! Ids(kids[i]) && LeafSet(after) !! Ids(kids[i])
    ensures LeafSet(before + LeavesOf(kids[..i])) !! Ids(kids[i])
    ensures LeafSet(LeavesOf(kids[i + 1..]) + after) !! Ids(kids[i])
  {
    hide Distinct, DistinctForest, Ids, LeavesOf, LeafSet;
    SiblingsApart(kids, i, kids[..i], 0);
    SiblingsApart(kids, i, kids[i + 1..], i + 1);
    LeafSetConcat(before, LeavesOf(kids[..i]));
    LeafSetConcat(LeavesOf(kids[i + 1..]), after);
  }

  /** A child can be inserted into with the leaves of its siblings added on both sides. */
  lemma ChildReady(pages: Pages, t: Tree, i: nat, h: nat, lo: Option<Bytes>, hi: Option<Bytes>, caps: Caps,
                   before: seq<LeafRec>, after: seq<LeafRec>)
    requires Ready(pages, t, h, lo, hi, caps, before, after) && t.Node? && i <= |t.keys|
    ensures Ready(pages, t.kids[i], h - 1, LoAt(t.keys, i, lo), HiAt(t.keys, i, hi), caps,
                  before + LeavesOf(t.kids[..i]), LeavesOf(t.kids[i + 1..]) + after)
    ensures t.kids[i].id in pages && (pages[t.kids[i].id].LeafPage? || pages[t.kids[i].id].BranchPage?)
  {
    var kids := t.kids;
    KidReady(pages, t, i, h, lo, hi, caps);
    assert |kids| == |t.keys| + 1 && Ids(kids[i]) <= Ids(t) && DistinctForest(kids) && Leaves(t) == LeavesOf(kids);
    hide Chain, UniqueLeaves, Sound, Stored, Distinct, DistinctForest, Ids, Leaves, LeavesOf, LeafSet, LoAt, HiAt;
    LeavesAround(kids, i);
    Regroup(before, LeavesOf(kids[..i]), Leaves(kids[i]), LeavesOf(kids[i + 1..]), after);
    ChildApart(kids, i, before, after);
  }

  // ----- coming back up -----

  lemma SpliceLeaves(kids: seq<Tree>, i: nat, ts: seq<Tree>)
    requires i < |kids|
    ensures LeavesOf(SpliceKids(kids, i, ts)) == LeavesOf(kids[..i]) + LeavesOf(ts) + LeavesOf(kids[i + 1..])
    ensures ContentsOf(SpliceKids(kids, i, ts)) == ContentsOf(kids[..i]) + ContentsOf(ts) + ContentsOf(kids[i + 1..])
  {
    LeavesConcat(kids[..i] + ts, kids[i + 1..]);
    LeavesConcat(kids[..i], ts);
    FlatConcat(LeavesOf(kids[..i]) + LeavesOf(ts), LeavesOf(kids[i + 1..]));
    FlatConcat(LeavesOf(kids[..i]), LeavesOf(ts));
  }

  lemma SpliceContents(keys: seq<Bytes>, kids: seq<Tree>, i: nat, ts: seq<Tree>, x: Pair,
                       h: nat, lo: Option<Bytes>, hi: Option<Bytes>, caps: Caps)
    requires SoundForest(keys, kids, h, lo, hi, caps) && Separates(keys, x.key, i)
    requires ContentsOf(ts) == SortedInsert(Contents(kids[i]), x)
    ensures ContentsOf(SpliceKids(kids, i, ts)) == SortedInsert(ContentsOf(kids), x)
    ensures HasKey(ContentsOf(kids), x.key) <==> HasKey(Contents(kids[i]), x.key)
  {
    hide Lt, Sound, LeavesOf, SortedInsert, HasKey;
    SpliceLeaves(kids, i, ts);
    ContentsAround(kids, i);
    ChildSeparates(keys, kids, x.key, i, h, lo, hi, caps);
    SortedInsertMiddle(ContentsOf(kids[..i]), Contents(kids[i]), ContentsOf(kids[i + 1..]), x);
  }

  /** Child `j` after a splice. */
  lemma SpliceAt(kids: seq<Tree>, i: nat, ts: seq<Tree>, j: nat)
    requires i < |kids| && j < |SpliceKids(kids, i, ts)|
    ensures j < i ==> SpliceKids(kids, i, ts)[j] == kids[j] && Ids(kids[j]) <= IdsOf(kids)
    ensures i <= j < i + |ts| ==>
              SpliceKids(kids, i, ts)[j] == ts[j - i] && Ids(ts[j - i]) <= IdsOf(ts) && Ids(kids[i]) <= IdsOf(kids)
    ensures i + |ts| <= j ==> SpliceKids(kids, i, ts)[j] == kids[j - |ts| + 1] && Ids(kids[j - |ts| + 1]) <= IdsOf(kids)
  {
    hide Ids;
  }

  lemma SpliceDistinct(kids: seq<Tree>, i: nat, ts: seq<Tree>, firstNew: nat)
    requires DistinctForest(kids) && i < |kids| && DistinctForest(ts)
    requires forall p | p in IdsOf(kids) :: p < firstNew
    requires forall p | p in IdsOf(ts) :: p in Ids(kids[i]) || p >= firstNew
    ensures DistinctForest(SpliceKids(kids, i, ts))
    ensures forall p | p in IdsOf(SpliceKids(kids, i, ts)) :: p in IdsOf(kids) || p >= firstNew
  {
    hide Ids, Distinct;
    var all := SpliceKids(kids, i, ts);
    forall j | 0 <= j < |all|
      ensures Distinct(all[j]) && forall p | p in Ids(all[j]) :: p in IdsOf(kids) || p >= firstNew
    {
      SpliceAt(kids, i, ts, j);
    }
    forall j, k | 0 <= j < |all| && 0 <= k < |all| && j != k
      ensures Ids(all[j]) !! Ids(all[k])
    {
      SpliceAt(kids, i, ts, j);
      SpliceAt(kids, i, ts, k);
      if i <= j < i + |ts| {
        assert forall p | p in Ids(ts[j - i]) :: p in IdsOf(ts);
      }
      if i <= k < i + |ts| {
        assert forall p | p in Ids(ts[k - i]) :: p in IdsOf(ts);
      }
    }
  }

  lemma SpliceStored(pages: Pages, pages': Pages, kids: seq<Tree>, i: nat, ts: seq<Tree>, before: seq<LeafRec>,
                     caps: Caps)
    requires StoredForest(pages, kids, caps) && DistinctForest(kids) && i < |kids|
    requires StoredForest(pages', ts, caps) && Kept(pages, pages', Ids(kids[i]), before)
    ensures StoredForest(pages', SpliceKids(kids, i, ts), caps)
  {
    hide Ids, Stored, Distinct;
    var all := SpliceKids(kids, i, ts);
    forall j | 0 <= j < |all|
      ensures Stored(pages', all[j], caps)
    {
      SpliceAt(kids, i, ts, j);
      if !(i <= j < i + |ts|) {
        var k := if j < i then j else j - |ts| + 1;
        assert Ids(kids[k]) !! Ids(kids[i]);
        StoredFrame(pages, pages', kids[k], caps);
      }
    }
  }

  lemma StoredForestIds(pages: Pages, kids: seq<Tree>, caps: Caps)
    requires StoredForest(pages, kids, caps)
    ensures IdsOf(kids) <= pages.Keys
  {
    forall i | 0 <= i < |kids| ensures Ids(kids[i]) <= pages.Keys {
      StoredIds(pages, kids[i], caps);
    }
  }

  /** The children of a node after one of them was rebuilt. */
  lemma SpliceRebuilt(pages: Pages, pages': Pages, keys: seq<Bytes>, kids: seq<Tree>, i: nat, ks: seq<Bytes>,
                      ts: seq<Tree>, x: Pair, h: nat, lo: Option<Bytes>, hi: Option<Bytes>, caps: Caps, firstNew: nat,
                      before: seq<LeafRec>, after: seq<LeafRec>)
    requires SoundForest(keys, kids, h, lo, hi, caps) && Separates(keys, x.key, i)
    requires StoredForest(pages, kids, caps) && DistinctForest(kids)
    requires forall p | p in pages :: p < firstNew
    requires Kept(pages, pages', Ids(kids[i]), before + LeavesOf(kids[..i]))
    requires Rebuilt(pages', ks, ts, h, LoAt(keys, i, lo), HiAt(keys, i, hi), caps,
                     SortedInsert(Contents(kids[i]), x), Ids(kids[i]), firstNew,
                     before + LeavesOf(kids[..i]), LeavesOf(kids[i + 1..]) + after)
    ensures Rebuilt(pages', SpliceKeys(keys, i, ks), SpliceKids(kids, i, ts), h, lo, hi, caps,
                    SortedInsert(ContentsOf(kids), x), IdsOf(kids), firstNew, before, after)
    ensures HasKey(ContentsOf(kids), x.key) <==> HasKey(Contents(kids[i]), x.key)
  {
    assert i < |kids|;
    hide Kept, StoredForest, DistinctForest, SoundForest, LeavesOf, Leaves, IdsOf, Ids, SortedInsert, HasKey, Separates,
         Chain, ContentsOf, Contents, SpliceKids, SpliceKeys, LoAt, HiAt;
    SpliceSound(keys, kids, i, ks, ts, h, lo, hi, caps);
    SpliceStored(pages, pages', kids, i, ts, before + LeavesOf(kids[..i]), caps);
    StoredForestIds(pages, kids, caps);
    SpliceDistinct(kids, i, ts, firstNew);
    SpliceContents(keys, kids, i, ts, x, h, lo, hi, caps);
    SpliceLeaves(kids, i, ts);
    Regroup(before, LeavesOf(kids[..i]), LeavesOf(ts), LeavesOf(kids[i + 1..]), after);
  }

  // ----- leaves -----

  lemma InsertSoundLeaf(pairs: seq<Pair>, x: Pair, lo: Option<Bytes>, hi: Option<Bytes>, caps: Caps)
    requires Ascending(pairs) && AllFit(pairs, caps.leaf) && !HasKey(pairs, x.key)
    requires forall i | 0 <= i < |pairs| :: InBounds(pairs[i].key, lo, hi) && KeyFits(pairs[i].key, caps.branch)
    requires InBounds(x.key, lo, hi) && KeyFits(x.key, caps.branch) && Fits(x, caps.leaf)
    ensures var m := SortedInsert(pairs, x);
      && Ascending(m) && AllFit(m, caps.leaf)
      && forall i | 0 <= i < |m| :: InBounds(m[i].key, lo, hi) && KeyFits(m[i].key, caps.branch)
  {
    hide Lt, LowerBound, KeyFits, Fits, InBounds;
    SortedInsertAscending(pairs, x);
  }

  lemma IdsOfOne(t: Tree)
    ensures IdsOf([t]) == Ids(t)
  {
    forall p | p in Ids(t) ensures p in IdsOf([t]) { assert p in Ids([t][0]); }
  }

  lemma OneLeaf(id: PageId, pairs: seq<Pair>)
    ensures LeavesOf([Leaf(id, pairs)]) == [LeafRec(id, pairs)] && ContentsOf([Leaf(id, pairs)]) == pairs
    ensures Contents(Leaf(id, pairs)) == pairs
    ensures IdsOf([Leaf(id, pairs)]) == {id}
  {
    LeavesOfOne(Leaf(id, pairs));
    IdsOfOne(Leaf(id, pairs));
    assert Flat([LeafRec(id, pairs)]) == pairs + [];
  }

  lemma TwoLeaves(a: PageId, ps: seq<Pair>, b: PageId, qs: seq<Pair>)
    ensures LeavesOf([Leaf(a, ps), Leaf(b, qs)]) == [LeafRec(a, ps), LeafRec(b, qs)]
    ensures ContentsOf([Leaf(a, ps), Leaf(b, qs)]) == ps + qs
  {
    OneLeaf(a, ps);
    OneLeaf(b, qs);
    assert [Leaf(a, ps), Leaf(b, qs)] == [Leaf(a, ps)] + [Leaf(b, qs)];
    ContentsConcat([Leaf(a, ps)], [Leaf(b, qs)]);
    LeavesConcat([Leaf(a, ps)], [Leaf(b, qs)]);
  }

  lemma LeafChainSame(pages: Pages, pages': Pages, before: seq<LeafRec>, l: LeafRec, l': LeafRec, after: seq<LeafRec>)
    requires Chain(pages, before + [l] + after) && l.id == l'.id && l.id in pages && l.id in pages'
    requires SameLinks(pages[l.id], pages'[l.id]) && pages' == pages[l.id := pages'[l.id]]
    ensures Chain(pages', before + [l'] + after)
  {
    var ls := before + [l] + after;
    forall i | 0 <= i < |ls|
      ensures ls[i].id in pages && ls[i].id in pages' && SameLinks(pages[ls[i].id], pages'[ls[i].id])
    {
      assert Linked(pages, ls, i);
    }
    ChainFrame(pages, pages', ls);
    ChainSameIds(pages', ls, before + [l'] + after);
  }

  /** The pair fits on the leaf. */
  lemma LeafGrown(pages: Pages, pages': Pages, t: Tree, x: Pair, lo: Option<Bytes>, hi: Option<Bytes>, caps: Caps,
                  firstNew: nat, before: seq<LeafRec>, after: seq<LeafRec>)
    requires t.Leaf? && Ready(pages, t, 0, lo, hi, caps, before, after)
    requires InBounds(x.key, lo, hi) && KeyFits(x.key, caps.branch) && Fits(x, caps.leaf) && !HasKey(t.pairs, x.key)
    requires Cost(SortedInsert(t.pairs, x)) <= caps.leaf
    requires t.id in pages' && pages'[t.id].LeafPage? && SameLinks(pages[t.id], pages'[t.id])
    requires pages' == pages[t.id := pages'[t.id]] && Holds(pages'[t.id].body, caps.leaf, SortedInsert(t.pairs, x))
    ensures Rebuilt(pages', [], [Leaf(t.id, SortedInsert(t.pairs, x))], 0, lo, hi, caps,
                    SortedInsert(Contents(t), x), Ids(t), firstNew, before, after)
    ensures Kept(pages, pages', Ids(t), before)
  {
    hide Lt, LowerBound, KeyFits, Fits, InBounds, Holds, Cost, Ascending, AllFit, Chain, UniqueLeaves;
    var m := SortedInsert(t.pairs, x);
    InsertSoundLeaf(t.pairs, x, lo, hi, caps);
    OneLeaf(t.id, t.pairs);
    OneLeaf(t.id, m);
    LeafChainSame(pages, pages', before, LeafRec(t.id, t.pairs), LeafRec(t.id, m), after);
    assert m[LowerBound(t.pairs, x.key)] == x;
    assert t == Leaf(t.id, t.pairs) && Contents(t) == t.pairs;
    assert SoundForest([], [Leaf(t.id, m)], 0, lo, hi, caps);
    assert StoredForest(pages', [Leaf(t.id, m)], caps);
    assert DistinctForest([Leaf(t.id, m)]);
  }

  /** What a step on a leaf needs to know. */
  lemma LeafFacts(pages: Pages, t: Tree, lo: Option<Bytes>, hi: Option<Bytes>, caps: Caps, before: seq<LeafRec>,
                  after: seq<LeafRec>)
    requires t.Leaf? && Ready(pages, t, 0, lo, hi, caps, before, after)
    ensures Ascending(t.pairs) && AllFit(t.pairs, caps.leaf) && Cost(t.pairs) <= caps.leaf
    ensures t.id in pages && pages[t.id].LeafPage? && Holds(pages[t.id].body, caps.leaf, t.pairs)
    ensures Leaves(t) == [LeafRec(t.id, t.pairs)] && Contents(t) == t.pairs && Ids(t) == {t.id}
    ensures Chain(pages, before + [LeafRec(t.id, t.pairs)] + after)
    ensures UniqueLeaves(before + [LeafRec(t.id, t.pairs)] + after)
  {
    hide Lt, Cost, Holds, KeyFits, Fits, Chain, UniqueLeaves, Ascending, AllFit;
    assert t == Leaf(t.id, t.pairs);
    OneLeaf(t.id, t.pairs);
  }

  lemma SplitSoundLeaf(pairs: seq<Pair>, x: Pair, lo: Option<Bytes>, hi: Option<Bytes>, caps: Caps,
                       a: PageId, ps: seq<Pair>, b: PageId, qs: seq<Pair>)
    requires Ascending(pairs) && AllFit(pairs, caps.leaf) && !HasKey(pairs, x.key)
    requires forall i | 0 <= i < |pairs| :: InBounds(pairs[i].key, lo, hi) && KeyFits(pairs[i].key, caps.branch)
    requires InBounds(x.key, lo, hi) && KeyFits(x.key, caps.branch) && Fits(x, caps.leaf)
    requires ps + qs == SortedInsert(pairs, x) && ps != [] && qs != []
    requires Cost(ps) <= caps.leaf && Cost(qs) <= caps.leaf
    ensures SoundForest([qs[0].key], [Leaf(a, ps), Leaf(b, qs)], 0, lo, hi, caps)
  {
    LtIsStrictTotalOrder();
    hide Lt, LowerBound, KeyFits, Fits, Cost;
    InsertSoundLeaf(pairs, x, lo, hi, caps);
    var m := SortedInsert(pairs, x);
    var k := qs[0].key;
    assert forall i | 0 <= i < |ps| :: ps[i] == m[i];
    assert forall i | 0 <= i < |qs| :: qs[i] == m[|ps| + i];
    assert SoundLeaf(ps, lo, Some(k), caps);
    assert SoundLeaf(qs, Some(k), hi, caps);
    assert Sound(Leaf(a, ps), 0, LoAt([k], 0, lo), HiAt([k], 0, hi), caps);
    assert Sound(Leaf(b, qs), 0, LoAt([k], 1, lo), HiAt([k], 1, hi), caps);
    assert Inside(k, lo, hi) by {
      assert Lt(ps[0].key, k);
    }
  }

  /** The pages of a split leaf: the old leaf with the upper half, the new one in front of it with the
      lower half, and the link of the leaf before, if there is one. */
  ghost predicate SplitOnPages(pages: Pages, pages': Pages, id: PageId, n: PageId, ps: seq<Pair>, qs: seq<Pair>,
                               cap: nat) {
    && id in pages && pages[id].LeafPage?
    && (forall p | p in pages :: p in pages')
    && (forall p | p in pages && p != id && pages[id].prev != Some(p) :: pages'[p] == pages[p])
    && pages'[id].LeafPage? && pages'[id].prev == Some(n) && pages'[id].next == pages[id].next
    && Holds(pages'[id].body, cap, qs)
    && n in pages' && pages'[n].LeafPage? && pages'[n].prev == pages[id].prev && pages'[n].next == Some(id)
    && Holds(pages'[n].body, cap, ps)
    && (pages[id].prev.Some? ==>
          var p := pages[id].prev.value;
          p != id && p in pages && pages[p].LeafPage? && pages'[p] == pages[p].(next := Some(n)))
  }

  /** The previous page of a leaf is that of the leaf before it. */
  lemma LeafBefore(pages: Pages, before: seq<LeafRec>, l: LeafRec, after: seq<LeafRec>)
    requires Chain(pages, before + [l] + after) && UniqueLeaves(before + [l] + after)
    ensures l.id in pages && pages[l.id].LeafPage?
    ensures pages[l.id].prev == if before == [] then None else Some(before[|before| - 1].id)
    ensures before != [] ==>
      var p := before[|before| - 1].id; p in pages && pages[p].LeafPage? && p != l.id && p in LeafSet(before)
  {
    var ls := before + [l] + after;
    assert ls[|before|] == l && Linked(pages, ls, |before|);
    if before != [] {
      assert ls[|before| - 1] == before[|before| - 1] && Linked(pages, ls, |before| - 1);
    }
  }

  /** The leaf was split: `n` is the new page, `ps` what it holds, `qs` what the old one keeps. */
  lemma LeafSplit(pages: Pages, pages': Pages, t: Tree, x: Pair, lo: Option<Bytes>, hi: Option<Bytes>, caps: Caps,
                  n: PageId, ps: seq<Pair>, qs: seq<Pair>, before: seq<LeafRec>, after: seq<LeafRec>)
    requires t.Leaf? && Ready(pages, t, 0, lo, hi, caps, before, after)
    requires InBounds(x.key, lo, hi) && KeyFits(x.key, caps.branch) && Fits(x, caps.leaf) && !HasKey(t.pairs, x.key)
    requires ps + qs == SortedInsert(t.pairs, x) && ps != [] && qs != []
    requires Cost(ps) <= caps.leaf && Cost(qs) <= caps.leaf
    requires n !in pages && n != t.id
    requires SplitOnPages(pages, pages', t.id, n, ps, qs, caps.leaf)
    ensures Rebuilt(pages', [qs[0].key], [Leaf(n, ps), Leaf(t.id, qs)], 0, lo, hi, caps,
                    SortedInsert(Contents(t), x), Ids(t), n, before, after)
    ensures Kept(pages, pages', Ids(t), before)
  {
    hide Lt, LowerBound, KeyFits, Fits, InBounds, Holds, Cost, Ascending, AllFit, HasKey;
    var l, l', r := LeafRec(t.id, t.pairs), LeafRec(t.id, qs), LeafRec(n, ps);
    SplitSoundLeaf(t.pairs, x, lo, hi, caps, n, ps, t.id, qs);
    OneLeaf(t.id, t.pairs);
    TwoLeaves(n, ps, t.id, qs);
    LeafBefore(pages, before, l, after);
    ChainInsert(pages, pages', before, l, after, r, l');
    assert StoredForest(pages', [Leaf(n, ps), Leaf(t.id, qs)], caps);
    assert DistinctForest([Leaf(n, ps), Leaf(t.id, qs)]);
  }

  // ----- branches -----

  lemma EntriesAscending(keys: seq<Bytes>, kids: seq<Tree>)
    requires Increasing(keys) && |kids| == |keys| + 1
    ensures Ascending(Entries(keys, kids)) && AreEntries(Entries(keys, kids))
  {
    hide Lt, LittleEndian, PageIdFrom;
    forall i | 0 <= i < |keys| { PageIdRoundTrip(kids[i].id); }
  }

  lemma EntriesChild(keys: seq<Bytes>, kids: seq<Tree>, i: nat)
    requires |kids| == |keys| + 1 && i <= |keys| && AreEntries(Entries(keys, kids))
    ensures ChildOf(Entries(keys, kids), kids[|keys|].id, i) == kids[i].id
  {
    hide LittleEndian, PageIdFrom;
    PageIdRoundTrip(kids[i].id);
  }

  /** How much an entry takes does not depend on the child. */
  lemma EntriesFit(keys: seq<Bytes>, kids: seq<Tree>, cap: nat)
    requires |kids| == |keys| + 1 && forall i | 0 <= i < |keys| :: KeyFits(keys[i], cap)
    ensures AllFit(Entries(keys, kids), cap)
  {
  }

  /** A child that was replaced by one with the same page leaves the entries alone. */
  lemma EntriesKept(keys: seq<Bytes>, kids: seq<Tree>, i: nat, b: Tree)
    requires |kids| == |keys| + 1 && i < |kids| && b.id == kids[i].id
    ensures SpliceKeys(keys, i, []) == keys
    ensures Entries(keys, SpliceKids(kids, i, [b])) == Entries(keys, kids)
    ensures SpliceKids(kids, i, [b])[|keys|].id == kids[|keys|].id
  {
  }

  /** A child that was split puts one entry in front of its own. */
  lemma EntriesSpliced(keys: seq<Bytes>, kids: seq<Tree>, i: nat, k: Bytes, a: Tree, b: Tree)
    requires |kids| == |keys| + 1 && i < |kids| && b.id == kids[i].id
    ensures |SpliceKids(kids, i, [a, b])| == |SpliceKeys(keys, i, [k])| + 1 == |keys| + 2
    ensures Entries(SpliceKeys(keys, i, [k]), SpliceKids(kids, i, [a, b])) ==
              InsertAt(Entries(keys, kids), i, Entry(k, a.id))
    ensures SpliceKids(kids, i, [a, b])[|keys| + 1].id == kids[|keys|].id
  {
  }

  /** The new separator is not there yet and belongs where the child was found. */
  lemma EntryPlace(keys: seq<Bytes>, kids: seq<Tree>, i: nat, k: Bytes, lo: Option<Bytes>, hi: Option<Bytes>)
    requires |kids| == |keys| + 1 && i < |kids| && Increasing(keys)
    requires Inside(k, LoAt(keys, i, lo), HiAt(keys, i, hi))
    ensures LowerBound(Entries(keys, kids), k) == i && !HasKey(Entries(keys, kids), k)
  {
    LtIsStrictTotalOrder();
    hide Lt, LowerBound;
    var es := Entries(keys, kids);
    assert forall j | 0 <= j < i :: Lt(es[j].key, k) by {
      assert forall j | 0 <= j < i - 1 :: Lt(keys[j], keys[i - 1]);
    }
    assert forall j | i <= j < |es| :: Lt(k, es[j].key) by {
      assert forall j | i < j < |keys| :: Lt(keys[i], keys[j]);
    }
    LowerBoundUnique(es, k, i);
  }

  /** The page holds the separators and children of the node. */
  ghost predicate NodePage(page: Page, t: Tree, cap: nat) {
    && t.Node? && |t.kids| == |t.keys| + 1 && page.BranchPage?
    && Holds(page.body, cap, Entries(t.keys, t.kids)) && page.right == t.kids[|t.keys|].id
  }

  /** The node is no fuller than a page, and not without separators. */
  ghost predicate NodeFits(t: Tree, cap: nat) {
    t.Node? && |t.kids| == |t.keys| + 1 && |t.keys| > 0 && Cost(Entries(t.keys, t.kids)) <= cap
  }

  lemma NodeIds(t: Tree)
    requires t.Node?
    ensures Ids(t) == {t.id} + IdsOf(t.kids)
  {
  }

  lemma NodeLeaves(t: Tree)
    requires t.Node?
    ensures Leaves(t) == LeavesOf(t.kids)
  {
  }

  /** Writing a page that is not a leaf does not touch the chain. */
  lemma NonLeafNotInChain(pages: Pages, pages': Pages, ls: seq<LeafRec>, id: PageId)
    requires Chain(pages, ls) && (id in pages ==> !pages[id].LeafPage?)
    requires forall p | p in pages && p != id :: p in pages' && pages'[p] == pages[p]
    ensures Chain(pages', ls)
  {
    forall i | 0 <= i < |ls|
      ensures ls[i].id in pages && ls[i].id in pages' && SameLinks(pages[ls[i].id], pages'[ls[i].id])
    {
      assert Linked(pages, ls, i);
    }
    ChainFrame(pages, pages', ls);
  }

  /** The children fit the node they are in. */
  lemma OneNode(pages: Pages, pages': Pages, t: Tree, h: nat, lo: Option<Bytes>, hi: Option<Bytes>,
                caps: Caps, contents: seq<Pair>, ids: set<PageId>, firstNew: nat, before: seq<LeafRec>,
                after: seq<LeafRec>)
    requires NodeFits(t, caps.branch)
    requires Rebuilt(pages, t.keys, t.kids, h, lo, hi, caps, contents, ids, firstNew, before, after)
    requires (t.id in pages ==> !pages[t.id].LeafPage?) && t.id !in IdsOf(t.kids)
    requires t.id in pages' && pages' == pages[t.id := pages'[t.id]] && NodePage(pages'[t.id], t, caps.branch)
    ensures Rebuilt(pages', [], [t], h + 1, lo, hi, caps, contents, ids + {t.id}, firstNew, before, after)
  {
    hide Lt, Cost, Holds, KeyFits, Ids, LeavesOf, Chain;
    assert Sound(t, h + 1, LoAt([], 0, lo), HiAt([], 0, hi), caps);
    StoredForestFrame(pages, pages', t.kids, caps);
    assert StoredForest(pages', [t], caps);
    assert DistinctForest([t]);
    IdsOfOne(t);
    NodeIds(t);
    LeavesOfOne(t);
    NodeLeaves(t);
    NonLeafNotInChain(pages, pages', before + LeavesOf(t.kids) + after, t.id);
  }

  lemma RebuiltShape(pages: Pages, keys: seq<Bytes>, kids: seq<Tree>, h: nat, lo: Option<Bytes>, hi: Option<Bytes>,
                     caps: Caps, contents: seq<Pair>, ids: set<PageId>, firstNew: nat, before: seq<LeafRec>,
                     after: seq<LeafRec>)
    requires Rebuilt(pages, keys, kids, h, lo, hi, caps, contents, ids, firstNew, before, after)
    ensures |kids| == |keys| + 1
    ensures forall p | p in IdsOf(kids) :: p in ids || p >= firstNew
  {
  }

  /** A node cut in two: `a` has the first `c` children, `b` the others, and the separator between
      them belongs to neither. */
  ghost predicate IsCut(a: Tree, b: Tree, keys: seq<Bytes>, kids: seq<Tree>, c: nat) {
    && 0 < c <= |keys| && |kids| == |keys| + 1
    && a == Node(a.id, keys[..c - 1], kids[..c]) && b == Node(b.id, keys[c..], kids[c..])
  }

  lemma TwoNodesStored(pages: Pages, pages': Pages, a: Tree, b: Tree, c: nat, keys: seq<Bytes>, kids: seq<Tree>,
                       caps: Caps)
    requires StoredForest(pages, kids, caps) && IsCut(a, b, keys, kids, c)
    requires b.id !in IdsOf(kids) && a.id !in pages
    requires a.id in pages' && b.id in pages' && pages' == pages[b.id := pages'[b.id]][a.id := pages'[a.id]]
    requires NodePage(pages'[a.id], a, caps.branch) && NodePage(pages'[b.id], b, caps.branch)
    ensures StoredForest(pages', [a, b], caps)
  {
    hide Holds, Entries;
    StoredForestIds(pages, kids, caps);
    StoredForestFrame(pages, pages', kids, caps);
    assert forall i | 0 <= i < |kids| :: Stored(pages', kids[i], caps);
    assert StoredForest(pages', kids[..c], caps) && StoredForest(pages', kids[c..], caps);
    assert Stored(pages', a, caps) && Stored(pages', b, caps);
  }

  lemma TwoNodesSound(a: Tree, b: Tree, c: nat, keys: seq<Bytes>, kids: seq<Tree>, h: nat, lo: Option<Bytes>,
                      hi: Option<Bytes>, caps: Caps)
    requires SoundForest(keys, kids, h, lo, hi, caps)
    requires IsCut(a, b, keys, kids, c) && NodeFits(a, caps.branch) && NodeFits(b, caps.branch)
    ensures SoundForest([keys[c - 1]], [a, b], h + 1, lo, hi, caps)
  {
    hide Lt, KeyFits, Cost, Entries;
    CutSound(keys, kids, c, h, lo, hi, caps);
    var k := keys[c - 1];
    assert Sound(a, h + 1, lo, Some(k), caps) && Sound(b, h + 1, Some(k), hi, caps);
    assert Inside(k, lo, hi) && KeyFits(k, caps.branch);
    hide Sound, Inside;
    assert Sound(a, h + 1, LoAt([k], 0, lo), HiAt([k], 0, hi), caps);
    assert Sound(b, h + 1, LoAt([k], 1, lo), HiAt([k], 1, hi), caps);
  }

  lemma SubForest(kids: seq<Tree>, m: nat, n: nat)
    requires DistinctForest(kids) && m <= n <= |kids|
    ensures DistinctForest(kids[m..n]) && IdsOf(kids[m..n]) <= IdsOf(kids)
  {
    hide Ids, Distinct;
    forall i, p | 0 <= i < n - m && p in Ids(kids[m..n][i])
      ensures p in IdsOf(kids)
    {
      assert p in Ids(kids[m + i]);
    }
    forall i, j | 0 <= i < n - m && 0 <= j < n - m && i != j
      ensures Ids(kids[m..n][i]) !! Ids(kids[m..n][j])
    {
      assert Ids(kids[m + i]) !! Ids(kids[m + j]);
    }
  }

  lemma NodeDistinct(t: Tree)
    requires t.Node?
    ensures Distinct(t) <==> t.id !in IdsOf(t.kids) && DistinctForest(t.kids)
  {
  }

  lemma IdsConcat(a: seq<Tree>, b: seq<Tree>)
    ensures IdsOf(a + b) == IdsOf(a) + IdsOf(b)
  {
    hide Ids;
    forall p | p in IdsOf(a) + IdsOf(b)
      ensures p in IdsOf(a + b)
    {
      if i :| 0 <= i < |a| && p in Ids(a[i]) {
        assert p in Ids((a + b)[i]);
      } else {
        var i :| 0 <= i < |b| && p in Ids(b[i]);
        assert p in Ids((a + b)[|a| + i]);
      }
    }
  }

  lemma IdsOfTwo(a: Tree, b: Tree)
    ensures IdsOf([a, b]) == Ids(a) + Ids(b)
  {
    assert [a, b] == [a] + [b];
    IdsConcat([a], [b]);
    IdsOfOne(a);
    IdsOfOne(b);
  }

  lemma TwoNodesDistinct(a: Tree, b: Tree, c: nat, keys: seq<Bytes>, kids: seq<Tree>)
    requires DistinctForest(kids) && IsCut(a, b, keys, kids, c)
    requires a.id !in IdsOf(kids) && b.id !in IdsOf(kids) && a.id != b.id
    ensures DistinctForest([a, b]) && IdsOf([a, b]) == IdsOf(kids) + {a.id, b.id}
  {
    hide Ids, Distinct;
    SubForest(kids, 0, c);
    SubForest(kids, c, |kids|);
    NodeIds(a);
    NodeIds(b);
    NodeDistinct(a);
    NodeDistinct(b);
    forall p, j | p in IdsOf(kids[..c]) && 0 <= j < |kids| - c
      ensures p !in Ids(kids[c..][j])
    {
      var i :| 0 <= i < c && p in Ids(kids[i]);
      assert Ids(kids[i]) !! Ids(kids[c + j]);
    }
    IdsOfTwo(a, b);
    IdsConcat(kids[..c], kids[c..]);
    assert kids == kids[..c] + kids[c..];
  }

  lemma TwoNodesLeaves(a: Tree, b: Tree, c: nat, keys: seq<Bytes>, kids: seq<Tree>)
    requires IsCut(a, b, keys, kids, c)
    ensures LeavesOf([a, b]) == LeavesOf(kids) && ContentsOf([a, b]) == ContentsOf(kids)
  {
    assert [a, b] == [a] + [b] && kids == kids[..c] + kids[c..];
    LeavesConcat([a], [b]);
    LeavesOfOne(a);
    LeavesOfOne(b);
    LeavesConcat(kids[..c], kids[c..]);
  }

  lemma TwoNodesChain(pages: Pages, pages': Pages, n: PageId, id: PageId, ls: seq<LeafRec>)
    requires Chain(pages, ls) && id in pages && pages[id].BranchPage? && n !in pages
    requires n in pages' && id in pages' && pages' == pages[id := pages'[id]][n := pages'[n]]
    ensures Chain(pages', ls)
  {
    hide Chain;
    NonLeafNotInChain(pages, pages', ls, id);
  }

  /** The children do not fit: `a` gets a new page, and a separator goes up. */
  lemma TwoNodes(pages: Pages, pages': Pages, a: Tree, b: Tree, c: nat, keys: seq<Bytes>, kids: seq<Tree>,
                 h: nat, lo: Option<Bytes>, hi: Option<Bytes>, caps: Caps,
                 contents: seq<Pair>, ids: set<PageId>, firstNew: nat, before: seq<LeafRec>, after: seq<LeafRec>)
    requires Rebuilt(pages, keys, kids, h, lo, hi, caps, contents, ids, firstNew, before, after)
    requires IsCut(a, b, keys, kids, c) && NodeFits(a, caps.branch) && NodeFits(b, caps.branch)
    requires b.id in pages && pages[b.id].BranchPage? && b.id !in ids && b.id < firstNew <= a.id && a.id !in pages
    requires a.id in pages' && b.id in pages' && pages' == pages[b.id := pages'[b.id]][a.id := pages'[a.id]]
    requires NodePage(pages'[a.id], a, caps.branch) && NodePage(pages'[b.id], b, caps.branch)
    ensures Rebuilt(pages', [keys[c - 1]], [a, b], h + 1, lo, hi, caps, contents, ids + {b.id}, firstNew, before, after)
  {
    StoredForestIds(pages, kids, caps);
    TwoNodesStored(pages, pages', a, b, c, keys, kids, caps);
    hide Lt, Cost, NodePage, NodeFits, Ids, IdsOf, LeavesOf, ContentsOf, Chain, StoredForest, DistinctForest,
         SoundForest;
    TwoNodesSound(a, b, c, keys, kids, h, lo, hi, caps);
    TwoNodesDistinct(a, b, c, keys, kids);
    TwoNodesLeaves(a, b, c, keys, kids);
    TwoNodesChain(pages, pages', a.id, b.id, before + LeavesOf(kids) + after);
  }

  // ----- what a step on a branch needs to know -----

  lemma NodeFacts(pages: Pages, t: Tree, h: nat, lo: Option<Bytes>, hi: Option<Bytes>, caps: Caps,
                  before: seq<LeafRec>, after: seq<LeafRec>)
    requires Ready(pages, t, h, lo, hi, caps, before, after) && t.Node?
    ensures h > 0 && SoundForest(t.keys, t.kids, h - 1, lo, hi, caps) && |t.kids| == |t.keys| + 1 && |t.keys| > 0
    ensures Increasing(t.keys) && (forall i | 0 <= i < |t.keys| :: KeyFits(t.keys[i], caps.branch))
    ensures t.id in pages && NodePage(pages[t.id], t, caps.branch) && Cost(Entries(t.keys, t.kids)) <= caps.branch
    ensures StoredForest(pages, t.kids, caps) && DistinctForest(t.kids) && t.id !in IdsOf(t.kids)
    ensures Contents(t) == ContentsOf(t.kids) && Ids(t) == {t.id} + IdsOf(t.kids)
    ensures t.id !in LeafSet(before + LeavesOf(t.kids))
  {
    hide Lt, Cost, Holds, KeyFits;
    var ls := before + Leaves(t) + after;
    forall i | 0 <= i < |before + LeavesOf(t.kids)|
      ensures (before + LeavesOf(t.kids))[i].id != t.id
    {
      assert (before + LeavesOf(t.kids))[i] == ls[i] && Linked(pages, ls, i);
    }
  }

  lemma ChildHasKey(keys: seq<Bytes>, kids: seq<Tree>, i: nat, k: Bytes,
                    h: nat, lo: Option<Bytes>, hi: Option<Bytes>, caps: Caps)
    requires SoundForest(keys, kids, h, lo, hi, caps) && Separates(keys, k, i)
    ensures HasKey(ContentsOf(kids), k) <==> HasKey(Contents(kids[i]), k)
  {
    hide Lt, Sound, LeavesOf, HasKey;
    ContentsAround(kids, i);
    ChildSeparates(keys, kids, k, i, h, lo, hi, caps);
    HasKeyMiddle(ContentsOf(kids[..i]), Contents(kids[i]), ContentsOf(kids[i + 1..]), k);
  }

  lemma KeptUp(pages: Pages, pages': Pages, t: Tree, i: nat, before: seq<LeafRec>)
    requires t.Node? && i < |t.kids| && Kept(pages, pages', Ids(t.kids[i]), before + LeavesOf(t.kids[..i]))
    requires t.id in pages && t.id !in IdsOf(t.kids) && t.id !in LeafSet(before + LeavesOf(t.kids))
    ensures Kept(pages, pages', Ids(t), before) && t.id in pages' && pages'[t.id] == pages[t.id]
  {
    NodeIds(t);
    assert Ids(t.kids[i]) <= IdsOf(t.kids);
    hide Ids, Leaves, LeavesOf, LeafSet;
    LeafSetConcat(before, LeavesOf(t.kids[..i]));
    LeafSetConcat(before, LeavesOf(t.kids));
    LeafSetInForest(t.kids[..i]);
    assert t.kids == t.kids[..i] + t.kids[i..];
    IdsConcat(t.kids[..i], t.kids[i..]);
    LeavesConcat(t.kids[..i], t.kids[i..]);
    LeafSetConcat(LeavesOf(t.kids[..i]), LeavesOf(t.kids[i..]));
  }

  lemma KeptThen(pages: Pages, pages': Pages, pages'': Pages, id: PageId, ids: set<PageId>, before: seq<LeafRec>)
    requires Kept(pages, pages', ids, before) && id in ids
    requires forall p | p in pages' && p != id :: p in pages'' && pages''[p] == pages'[p]
    requires id in pages''
    ensures Kept(pages, pages'', ids, before)
  {
  }

  lemma KeptSame(pages: Pages, ids: set<PageId>, before: seq<LeafRec>)
    ensures Kept(pages, pages, ids, before)
  {
  }

  /** The separator that comes up from a split child. */
  lemma OverflowFacts(pages: Pages, k: Bytes, kids: seq<Tree>, h: nat, lo: Option<Bytes>, hi: Option<Bytes>, caps: Caps,
                      contents: seq<Pair>, ids: set<PageId>, firstNew: nat, before: seq<LeafRec>, after: seq<LeafRec>)
    requires Rebuilt(pages, [k], kids, h, lo, hi, caps, contents, ids, firstNew, before, after)
    ensures Inside(k, lo, hi) && KeyFits(k, caps.branch)
  {
    assert [k][0] == k;
  }

  lemma EntriesSeparate(keys: seq<Bytes>, kids: seq<Tree>, k: Bytes, i: nat)
    requires |kids| == |keys| + 1 && i <= |keys|
    requires forall j | 0 <= j < i :: Le(Entries(keys, kids)[j].key, k)
    requires forall j | i <= j < |keys| :: Lt(k, Entries(keys, kids)[j].key)
    ensures Separates(keys, k, i)
  {
    hide Le, Lt;
    forall j | 0 <= j < i ensures Le(keys[j], k) { assert Entries(keys, kids)[j].key == keys[j]; }
    forall j | i <= j < |keys| ensures Lt(k, keys[j]) { assert Entries(keys, kids)[j].key == keys[j]; }
  }

  lemma SpliceLength(kids: seq<Tree>, i: nat, ts: seq<Tree>)
    requires i < |kids|
    ensures |SpliceKids(kids, i, ts)| == |kids| - 1 + |ts|
  {
  }

  /** Child `i` took the pair and is now `b`: the node only has to know the new subtree. */
  lemma ChildInserted(pages0: Pages, pages: Pages, t: Tree, i: nat, b: Tree, x: Pair,
                      h: nat, lo: Option<Bytes>, hi: Option<Bytes>, caps: Caps, next0: nat,
                      before: seq<LeafRec>, after: seq<LeafRec>)
    requires Ready(pages0, t, h, lo, hi, caps, before, after) && t.Node? && h > 0 && Separates(t.keys, x.key, i)
    requires i < |t.kids| == |t.keys| + 1 && b.id == t.kids[i].id && forall p | p in pages0 :: p < next0
    requires Kept(pages0, pages, Ids(t.kids[i]), before + LeavesOf(t.kids[..i]))
    requires Rebuilt(pages, [], [b], h - 1, LoAt(t.keys, i, lo), HiAt(t.keys, i, hi), caps,
                     SortedInsert(Contents(t.kids[i]), x), Ids(t.kids[i]), next0,
                     before + LeavesOf(t.kids[..i]), LeavesOf(t.kids[i + 1..]) + after)
    ensures Rebuilt(pages, [], [Node(t.id, t.keys, SpliceKids(t.kids, i, [b]))], h, lo, hi, caps,
                    SortedInsert(Contents(t), x), Ids(t), next0, before, after)
  {
    hide Rebuilt, Lt, Cost, Entries, Ready, Kept, Separates, SoundForest, StoredForest, DistinctForest, Ids, IdsOf,
         Leaves, LeavesOf, LeafSet, Contents, ContentsOf, SortedInsert, Holds, KeyFits, SpliceKids, Increasing, LoAt,
         HiAt, HasKey;
    NodeFacts(pages0, t, h, lo, hi, caps, before, after);
    KeptUp(pages0, pages, t, i, before);
    SpliceRebuilt(pages0, pages, t.keys, t.kids, i, [], [b], x, h - 1, lo, hi, caps, next0, before, after);
    EntriesKept(t.keys, t.kids, i, b);
    assert |SpliceKids(t.kids, i, [b])| == |t.kids| by { SpliceLength(t.kids, i, [b]); }
    RebuiltShape(pages, t.keys, SpliceKids(t.kids, i, [b]), h - 1, lo, hi, caps,
                 SortedInsert(Contents(t), x), IdsOf(t.kids), next0, before, after);
    OneNode(pages, pages, Node(t.id, t.keys, SpliceKids(t.kids, i, [b])), h - 1, lo, hi, caps,
            SortedInsert(Contents(t), x), IdsOf(t.kids), next0, before, after);
    assert IdsOf(t.kids) + {t.id} == Ids(t);
  }

  /** Child `i` was split into `a` and `b` with `k` between them: what the node has to hold now is what
      it holds and one more entry, in its place, that fits a page by itself. */
  lemma ChildOverflowed(pages0: Pages, pages: Pages, t: Tree, i: nat, k: Bytes, a: Tree, b: Tree, x: Pair,
                        h: nat, lo: Option<Bytes>, hi: Option<Bytes>, caps: Caps, next0: nat,
                        before: seq<LeafRec>, after: seq<LeafRec>)
    requires Ready(pages0, t, h, lo, hi, caps, before, after) && t.Node? && h > 0 && Separates(t.keys, x.key, i)
    requires i < |t.kids| == |t.keys| + 1 && b.id == t.kids[i].id && forall p | p in pages0 :: p < next0
    requires Kept(pages0, pages, Ids(t.kids[i]), before + LeavesOf(t.kids[..i]))
    requires Rebuilt(pages, [k], [a, b], h - 1, LoAt(t.keys, i, lo), HiAt(t.keys, i, hi), caps,
                     SortedInsert(Contents(t.kids[i]), x), Ids(t.kids[i]), next0,
                     before + LeavesOf(t.kids[..i]), LeavesOf(t.kids[i + 1..]) + after)
    ensures Rebuilt(pages, SpliceKeys(t.keys, i, [k]), SpliceKids(t.kids, i, [a, b]), h - 1, lo, hi, caps,
                    SortedInsert(Contents(t), x), IdsOf(t.kids), next0, before, after)
    ensures |SpliceKids(t.kids, i, [a, b])| == |SpliceKeys(t.keys, i, [k])| + 1 == |t.keys| + 2
    ensures Entries(SpliceKeys(t.keys, i, [k]), SpliceKids(t.kids, i, [a, b])) ==
              InsertAt(Entries(t.keys, t.kids), i, Entry(k, a.id))
    ensures SpliceKids(t.kids, i, [a, b])[|t.keys| + 1].id == t.kids[|t.keys|].id
    ensures LowerBound(Entries(t.keys, t.kids), k) == i && !HasKey(Entries(t.keys, t.kids), k)
    ensures AllFit(Entries(t.keys, t.kids), caps.branch) && Fits(Entry(k, a.id), caps.branch)
  {
    hide Rebuilt, Lt, LowerBound, Cost, Ready, Kept, Separates, SoundForest, StoredForest, DistinctForest, Ids, IdsOf,
         Leaves, LeavesOf, LeafSet, Contents, ContentsOf, SortedInsert, Holds, Entries, InsertAt, SpliceKids,
         SpliceKeys, LoAt, HiAt, HasKey;
    NodeFacts(pages0, t, h, lo, hi, caps, before, after);
    SpliceRebuilt(pages0, pages, t.keys, t.kids, i, [k], [a, b], x, h - 1, lo, hi, caps, next0, before, after);
    OverflowFacts(pages, k, [a, b], h - 1, LoAt(t.keys, i, lo), HiAt(t.keys, i, hi), caps,
                  SortedInsert(Contents(t.kids[i]), x), Ids(t.kids[i]), next0,
                  before + LeavesOf(t.kids[..i]), LeavesOf(t.kids[i + 1..]) + after);
    EntriesSpliced(t.keys, t.kids, i, k, a, b);
    EntryPlace(t.keys, t.kids, i, k, lo, hi);
    EntriesFit(t.keys, t.kids, caps.branch);
  }

  // ----- the root -----

  /** A single rebuilt node is again a tree to insert into. */
  lemma RebuiltReady(pages: Pages, t: Tree, h: nat, caps: Caps, contents: seq<Pair>, ids: set<PageId>, firstNew: nat)
    requires Rebuilt(pages, [], [t], h, None, None, caps, contents, ids, firstNew, [], [])
    ensures Ready(pages, t, h, None, None, caps, [], [])
    ensures Contents(t) == contents && forall p | p in Ids(t) :: p in ids || p >= firstNew
  {
    hide Lt, Cost, Stored, Distinct, Ids, Chain, UniqueLeaves, LeavesOf, Leaves;
    assert Sound([t][0], h, LoAt([], 0, None), HiAt([], 0, None), caps);
    assert Stored(pages, [t][0], caps) && Distinct([t][0]);
    LeavesOfOne(t);
    IdsOfOne(t);
    DistinctLeaves(t);
    assert [] + Leaves(t) + [] == Leaves(t) && [] + LeavesOf([t]) + [] == Leaves(t);
  }

  /** Pages that are not the tree's can be written. */
  lemma ReadyFrame(pages: Pages, pages': Pages, t: Tree, h: nat, caps: Caps)
    requires Ready(pages, t, h, None, None, caps, [], [])
    requires forall p | p in pages && p in Ids(t) :: p in pages' && pages'[p] == pages[p]
    ensures Ready(pages', t, h, None, None, caps, [], [])
  {
    hide Lt, Cost, Sound, Stored, Distinct, Ids, UniqueLeaves, Leaves;
    StoredFrame(pages, pages', t, caps);
    var ls := [] + Leaves(t) + [];
    assert ls == Leaves(t);
    forall i | 0 <= i < |ls|
      ensures ls[i].id in pages && ls[i].id in pages' && SameLinks(pages[ls[i].id], pages'[ls[i].id])
    {
      assert Linked(pages, ls, i);
      LeafIdsInTree(t, ls[i]);
    }
    ChainFrame(pages, pages', ls);
  }
}
