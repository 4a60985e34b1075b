/** What an insertion does to a tree: a child is replaced by one or two nodes, a node with too many
    children is cut in two, a leaf is added to the chain. */
module TreeEdit {
  import opened Bytes
  import opened PairCodec
  import opened NodeSpec
  import opened Nodes
  import opened Tree

  // ----- replacing a child -----

  /** The separators when child `i` becomes `|ks| + 1` children with `ks` between them. */
  function SpliceKeys(keys: seq<Bytes>, i: nat, ks: seq<Bytes>): seq<Bytes>
    requires i <= |keys|
  {
    keys[..i] + ks + keys[i..]
  }

  function SpliceKids(kids: seq<Tree>, i: nat, ts: seq<Tree>): seq<Tree>
    requires i < |kids|
  {
    kids[..i] + ts + kids[i + 1..]
  }

  lemma SpliceIncreasing(keys: seq<Bytes>, i: nat, ks: seq<Bytes>, lo: Option<Bytes>, hi: Option<Bytes>)
    requires i <= |keys| && Increasing(keys) && Increasing(ks)
    requires forall j | 0 <= j < |keys| :: Inside(keys[j], lo, hi)
    requires forall j | 0 <= j < |ks| :: Inside(ks[j], LoAt(keys, i, lo), HiAt(keys, i, hi))
    ensures Increasing(SpliceKeys(keys, i, ks))
    ensures forall j | 0 <= j < |ks| :: Inside(ks[j], lo, hi)
  {
    LtIsStrictTotalOrder();
    hide Lt;
    var all := SpliceKeys(keys, i, ks);
    forall a, b | 0 <= a < b < |all|
      ensures Lt(all[a], all[b])
    {
      if a < i <= b < i + |ks| {
        assert a < i - 1 ==> Lt(keys[a], keys[i - 1]);
      } else if i <= a < i + |ks| <= b {
        assert b - |ks| > i ==> Lt(keys[i], keys[b - |ks|]);
      }
    }
  }

  /** Every child keeps its bounds, the new ones have theirs within those of the old one. */
  lemma SpliceBounds(keys: seq<Bytes>, i: nat, ks: seq<Bytes>, lo: Option<Bytes>, hi: Option<Bytes>, j: nat)
    requires i <= |keys| && j <= |keys| + |ks|
    ensures var keys', lo', hi' := SpliceKeys(keys, i, ks), LoAt(keys, i, lo), HiAt(keys, i, hi);
      && (j < i ==> LoAt(keys', j, lo) == LoAt(keys, j, lo) && HiAt(keys', j, hi) == HiAt(keys, j, hi))
      && (i <= j <= i + |ks| ==>
            LoAt(keys', j, lo) == LoAt(ks, j - i, lo') && HiAt(keys', j, hi) == HiAt(ks, j - i, hi'))
      && (j > i + |ks| ==>
            LoAt(keys', j, lo) == LoAt(keys, j - |ks|, lo) && HiAt(keys', j, hi) == HiAt(keys, j - |ks|, hi))
  {
  }

  lemma SpliceSoundAt(keys: seq<Bytes>, kids: seq<Tree>, i: nat, ks: seq<Bytes>, ts: seq<Tree>,
                      h: nat, lo: Option<Bytes>, hi: Option<Bytes>, caps: Caps, j: nat)
    requires SoundForest(keys, kids, h, lo, hi, caps) && i < |kids|
    requires SoundForest(ks, ts, h, LoAt(keys, i, lo), HiAt(keys, i, hi), caps)
    requires j < |kids| + |ks|
    ensures var keys', kids' := SpliceKeys(keys, i, ks), SpliceKids(kids, i, ts);
      Sound(kids'[j], h, LoAt(keys', j, lo), HiAt(keys', j, hi), caps) && NonEmpty(kids'[j])
  {
    hide Lt, Sound, KeyFits, Inside, Increasing, NonEmpty;
    SpliceBounds(keys, i, ks, lo, hi, j);
    if j < i {
      assert Sound(kids[j], h, LoAt(keys, j, lo), HiAt(keys, j, hi), caps);
    } else if j < i + |ts| {
      assert Sound(ts[j - i], h, LoAt(ks, j - i, LoAt(keys, i, lo)), HiAt(ks, j - i, HiAt(keys, i, hi)), caps);
    } else {
      assert Sound(kids[j - |ks|], h, LoAt(keys, j - |ks|, lo), HiAt(keys, j - |ks|, hi), caps);
    }
  }

  lemma SpliceSound(keys: seq<Bytes>, kids: seq<Tree>, i: nat, ks: seq<Bytes>, ts: seq<Tree>,
                    h: nat, lo: Option<Bytes>, hi: Option<Bytes>, caps: Caps)
    requires SoundForest(keys, kids, h, lo, hi, caps) && i < |kids|
    requires SoundForest(ks, ts, h, LoAt(keys, i, lo), HiAt(keys, i, hi), caps)
    ensures SoundForest(SpliceKeys(keys, i, ks), SpliceKids(kids, i, ts), h, lo, hi, caps)
  {
    hide Lt, Sound, KeyFits;
    SpliceIncreasing(keys, i, ks, lo, hi);
    var keys', kids' := SpliceKeys(keys, i, ks), SpliceKids(kids, i, ts);
    forall j | 0 <= j < |keys'|
      ensures Inside(keys'[j], lo, hi) && KeyFits(keys'[j], caps.branch)
    {
      assert keys'[j] == if j < i then keys[j] else if j < i + |ks| then ks[j - i] else keys[j - |ks|];
    }
    forall j | 0 <= j < |kids'|
      ensures Sound(kids'[j], h, LoAt(keys', j, lo), HiAt(keys', j, hi), caps) && NonEmpty(kids'[j])
    {
      SpliceSoundAt(keys, kids, i, ks, ts, h, lo, hi, caps, j);
    }
  }

  /** Cutting a forest at separator `c - 1`, which belongs to neither part any more. */
  lemma CutSound(keys: seq<Bytes>, kids: seq<Tree>, c: nat, h: nat, lo: Option<Bytes>, hi: Option<Bytes>, caps: Caps)
    requires SoundForest(keys, kids, h, lo, hi, caps) && 0 < c <= |keys|
    ensures SoundForest(keys[..c - 1], kids[..c], h, lo, Some(keys[c - 1]), caps)
    ensures SoundForest(keys[c..], kids[c..], h, Some(keys[c - 1]), hi, caps)
  {
    hide Lt, Sound, KeyFits;
    var mid := Some(keys[c - 1]);
    forall j | 0 <= j < |kids[..c]|
      ensures Sound(kids[..c][j], h, LoAt(keys[..c - 1], j, lo), HiAt(keys[..c - 1], j, mid), caps)
    {
      assert Sound(kids[j], h, LoAt(keys, j, lo), HiAt(keys, j, hi), caps);
    }
    forall j | 0 <= j < |kids[c..]|
      ensures Sound(kids[c..][j], h, LoAt(keys[c..], j, mid), HiAt(keys[c..], j, hi), caps)
    {
      assert Sound(kids[j + c], h, LoAt(keys, j + c, lo), HiAt(keys, j + c, hi), caps);
    }
  }

  // ----- where a key belongs -----

  /** `i` is the child a key belongs to. */
  ghost predicate Separates(keys: seq<Bytes>, k: Bytes, i: nat) {
    && i <= |keys|
    && (forall j | 0 <= j < i :: Le(keys[j], k))
    && (forall j | i <= j < |keys| :: Lt(k, keys[j]))
  }

  lemma ChildBounds(keys: seq<Bytes>, k: Bytes, i: nat, lo: Option<Bytes>, hi: Option<Bytes>)
    requires Separates(keys, k, i) && InBounds(k, lo, hi)
    ensures InBounds(k, LoAt(keys, i, lo), HiAt(keys, i, hi))
  {
  }

  /** All keys before the child are smaller, all keys behind it larger. */
  lemma ChildSeparates(keys: seq<Bytes>, kids: seq<Tree>, k: Bytes, i: nat,
                       h: nat, lo: Option<Bytes>, hi: Option<Bytes>, caps: Caps)
    requires SoundForest(keys, kids, h, lo, hi, caps) && Separates(keys, k, i)
    ensures forall p | p in ContentsOf(kids[..i]) :: Lt(p.key, k)
    ensures forall p | p in ContentsOf(kids[i + 1..]) :: Lt(k, p.key)
  {
    hide Lt, Sound, KeyFits, Cost;
    if i > 0 {
      CutSound(keys, kids, i, h, lo, hi, caps);
      SoundForestContents(keys[..i - 1], kids[..i], h, lo, Some(keys[i - 1]), caps);
      forall p | p in ContentsOf(kids[..i])
        ensures Lt(p.key, k)
      {
        if keys[i - 1] != k { LtTransitive(p.key, keys[i - 1], k); }
      }
    }
    if i < |keys| {
      CutSound(keys, kids, i + 1, h, lo, hi, caps);
      SoundForestContents(keys[i + 1..], kids[i + 1..], h, Some(keys[i]), hi, caps);
      forall p | p in ContentsOf(kids[i + 1..])
        ensures Lt(k, p.key)
      {
        if keys[i] != p.key { LtTransitive(k, keys[i], p.key); }
      }
    } else {
      assert kids[i + 1..] == [];
    }
  }

  lemma LowerBoundMiddle(a: seq<Pair>, b: seq<Pair>, c: seq<Pair>, k: Bytes)
    requires forall p | p in a :: Lt(p.key, k)
    requires c != [] ==> Lt(k, c[0].key)
    ensures LowerBound(a + b + c, k) == |a| + LowerBound(b, k)
  {
    hide Lt;
    var n := LowerBound(b, k);
    var all := a + b + c;
    if c != [] { LtAsymmetric(k, c[0].key); }
    assert |a| + n == |all| || all[|a| + n] == (if n < |b| then b[n] else c[0]);
    forall i | 0 <= i < |a| + n
      ensures Lt(all[i].key, k)
    {
      assert i < |a| ==> all[i] in a;
      assert i >= |a| ==> all[i] == b[i - |a|];
    }
    LowerBoundUnique(all, k, |a| + n);
  }

  lemma InsertMiddle(a: seq<Pair>, b: seq<Pair>, c: seq<Pair>, n: nat, x: Pair)
    requires n <= |b|
    ensures InsertAt(a + b + c, |a| + n, x) == a + InsertAt(b, n, x) + c
  {
    assert (a + b + c)[..|a| + n] == a + b[..n];
    assert (a + b + c)[|a| + n..] == b[n..] + c;
  }

  lemma HasKeyMiddle(a: seq<Pair>, b: seq<Pair>, c: seq<Pair>, k: Bytes)
    requires forall p | p in a :: Lt(p.key, k)
    requires forall p | p in c :: Lt(k, p.key)
    ensures HasKey(a + b + c, k) <==> HasKey(b, k)
  {
    hide Lt;
    LtIrreflexive(k);
    var all := a + b + c;
    forall i | 0 <= i < |a| ensures a[i].key != k { assert a[i] in a; }
    forall i | 0 <= i < |c| ensures c[i].key != k { assert c[i] in c; }
    if !HasKey(b, k) {
      forall i | 0 <= i < |all|
        ensures all[i].key != k
      {
        assert i < |a| ==> all[i] == a[i];
        assert |a| <= i < |a| + |b| ==> all[i] == b[i - |a|];
      }
    } else {
      var i :| 0 <= i < |b| && b[i].key == k;
      assert all[|a| + i].key == k;
    }
  }

  /** Sorted insertion only concerns the part whose neighbours are smaller and larger. */
  lemma SortedInsertMiddle(a: seq<Pair>, b: seq<Pair>, c: seq<Pair>, x: Pair)
    requires forall p | p in a :: Lt(p.key, x.key)
    requires forall p | p in c :: Lt(x.key, p.key)
    ensures SortedInsert(a + b + c, x) == a + SortedInsert(b, x) + c
    ensures HasKey(a + b + c, x.key) <==> HasKey(b, x.key)
  {
    hide Lt, LowerBound, HasKey, InsertAt;
    var n := LowerBound(b, x.key);
    LowerBoundMiddle(a, b, c, x.key);
    InsertMiddle(a, b, c, n, x);
    HasKeyMiddle(a, b, c, x.key);
  }

  // ----- pages that change -----

  /** At most the links of the page have changed. */
  ghost predicate SameButLinks(p: Page, q: Page) {
    p == q || (p.LeafPage? && q.LeafPage? && p.body == q.body)
  }

  lemma {:induction false} StoredForestFrame(pages: Pages, pages': Pages, kids: seq<Tree>, caps: Caps)
    requires StoredForest(pages, kids, caps)
    requires forall p | p in IdsOf(kids) && p in pages :: p in pages' && SameButLinks(pages[p], pages'[p])
    ensures StoredForest(pages', kids, caps)
    decreases kids
  {
    forall i | 0 <= i < |kids|
      ensures Stored(pages', kids[i], caps)
    {
      assert forall p | p in Ids(kids[i]) :: p in IdsOf(kids);
      StoredFrame(pages, pages', kids[i], caps);
    }
  }

  lemma {:induction false} StoredFrame(pages: Pages, pages': Pages, t: Tree, caps: Caps)
    requires Stored(pages, t, caps)
    requires forall p | p in Ids(t) && p in pages :: p in pages' && SameButLinks(pages[p], pages'[p])
    ensures Stored(pages', t, caps)
    decreases t
  {
    hide Holds;
    match t
    case Leaf(id, _) => assert id in Ids(t);
    case Node(id, _, kids) =>
      assert id in Ids(t);
      StoredForestFrame(pages, pages', kids, caps);
  }

  lemma {:induction false} StoredIds(pages: Pages, t: Tree, caps: Caps)
    requires Stored(pages, t, caps)
    ensures Ids(t) <= pages.Keys
    decreases t
  {
    if t.Node? {
      forall i | 0 <= i < |t.kids| ensures Ids(t.kids[i]) <= pages.Keys {
        StoredIds(pages, t.kids[i], caps);
      }
    }
  }

  ghost predicate SameLinks(p: Page, q: Page) {
    p.LeafPage? && q.LeafPage? && p.prev == q.prev && p.next == q.next
  }

  lemma ChainFrame(pages: Pages, pages': Pages, ls: seq<LeafRec>)
    requires Chain(pages, ls)
    requires forall i | 0 <= i < |ls| ::
               ls[i].id in pages && ls[i].id in pages' && SameLinks(pages[ls[i].id], pages'[ls[i].id])
    ensures Chain(pages', ls)
  {
    forall i | 0 <= i < |ls|
      ensures Linked(pages', ls, i)
    {
      assert Linked(pages, ls, i);
    }
  }

  /** Only the page numbers matter to the chain. */
  lemma ChainSameIds(pages: Pages, ls: seq<LeafRec>, ls': seq<LeafRec>)
    requires Chain(pages, ls) && |ls| == |ls'|
    requires forall i | 0 <= i < |ls| :: ls[i].id == ls'[i].id
    ensures Chain(pages, ls')
  {
    forall i | 0 <= i < |ls'|
      ensures Linked(pages, ls', i)
    {
      assert Linked(pages, ls, i);
    }
  }

  /** A new leaf `n` goes in front of leaf `l`: the leaf before it, if any, and `l` point to `n`. */
  lemma ChainInsert(pages: Pages, pages': Pages, before: seq<LeafRec>, l: LeafRec, after: seq<LeafRec>, n: LeafRec,
                    l': LeafRec)
    requires Chain(pages, before + [l] + after) && UniqueLeaves(before + [l] + after)
    requires n.id !in pages && l'.id == l.id
    requires forall p | p in pages :: p in pages'
    requires forall p | p in pages && p != l.id && (before == [] || p != before[|before| - 1].id) ::
               pages'[p] == pages[p]
    requires l.id in pages && pages[l.id].LeafPage? && pages'[l.id].LeafPage?
    requires pages'[l.id].prev == Some(n.id) && pages'[l.id].next == pages[l.id].next
    requires n.id in pages' && pages'[n.id].LeafPage?
    requires pages'[n.id].prev == pages[l.id].prev && pages'[n.id].next == Some(l.id)
    requires before != [] ==> var p := before[|before| - 1].id;
      p in pages && pages[p].LeafPage? && pages'[p] == pages[p].(next := Some(n.id))
    ensures Chain(pages', before + [n, l'] + after)
  {
    var ls, ls' := before + [l] + after, before + [n, l'] + after;
    var m := |before|;
    assert ls[m] == l && Linked(pages, ls, m);
    forall i | 0 <= i < |ls'|
      ensures Linked(pages', ls', i)
    {
      if i < m {
        assert ls'[i] == ls[i] && Linked(pages, ls, i);
        assert i < m - 1 ==> ls[i].id != ls[m - 1].id;
        assert ls[i].id != ls[m].id;
      } else if i > m + 1 {
        assert ls'[i] == ls[i - 1] && ls'[i - 1].id == ls[i - 2].id && Linked(pages, ls, i - 1);
        assert ls[i - 1].id != ls[m].id;
        assert m > 0 ==> ls[i - 1].id != ls[m - 1].id;
      }
    }
  }
}
