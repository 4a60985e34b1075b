/** The trees the pages of a B+tree stand for, and what makes one a valid B+tree. */
module Tree {
  import opened Bytes
  import opened SlottedLayout
  import opened PairCodec
  import opened NodeSpec
  import opened NodeBody
  import opened Nodes

  /** A node with `n` separators has `n + 1` children. */
  datatype Tree =
    | Leaf(id: PageId, pairs: seq<Pair>)
    | Node(id: PageId, keys: seq<Bytes>, kids: seq<Tree>)

  /** The body sizes of leaf and branch pages. */
  datatype Caps = Caps(leaf: nat, branch: nat)

  type Pages = map<PageId, Page>

  // ----- contents -----

  datatype LeafRec = LeafRec(id: PageId, pairs: seq<Pair>)

  ghost function LeavesOf(kids: seq<Tree>): seq<LeafRec>
    decreases kids
  {
    if kids == [] then [] else Leaves(kids[0]) + LeavesOf(kids[1..])
  }

  /** The leaves of a tree from left to right. */
  ghost function Leaves(t: Tree): seq<LeafRec>
    decreases t
  {
    match t
    case Leaf(id, pairs) => [LeafRec(id, pairs)]
    case Node(_, _, kids) => LeavesOf(kids)
  }

  ghost function Flat(ls: seq<LeafRec>): seq<Pair> {
    if ls == [] then [] else ls[0].pairs + Flat(ls[1..])
  }

  /** The pairs of a tree in order. */
  ghost function Contents(t: Tree): seq<Pair> { Flat(Leaves(t)) }

  ghost function ContentsOf(kids: seq<Tree>): seq<Pair> { Flat(LeavesOf(kids)) }

  ghost function IdsOf(kids: seq<Tree>): set<PageId>
    decreases kids
  {
    set i, p | 0 <= i < |kids| && p in Ids(kids[i]) :: p
  }

  /** The pages of a tree. */
  ghost function Ids(t: Tree): set<PageId>
    decreases t
  {
    match t
    case Leaf(id, _) => {id}
    case Node(id, _, kids) => {id} + IdsOf(kids)
  }

  // ----- shape -----

  ghost predicate InBounds(k: Bytes, lo: Option<Bytes>, hi: Option<Bytes>) {
    (lo.Some? ==> Le(lo.value, k)) && (hi.Some? ==> Lt(k, hi.value))
  }

  ghost predicate Inside(k: Bytes, lo: Option<Bytes>, hi: Option<Bytes>) {
    (lo.Some? ==> Lt(lo.value, k)) && (hi.Some? ==> Lt(k, hi.value))
  }

  /** The bounds of child `i`. */
  ghost function LoAt(keys: seq<Bytes>, i: nat, lo: Option<Bytes>): Option<Bytes>
    requires i <= |keys|
  {
    if i == 0 then lo else Some(keys[i - 1])
  }

  ghost function HiAt(keys: seq<Bytes>, i: nat, hi: Option<Bytes>): Option<Bytes>
    requires i <= |keys|
  {
    if i == |keys| then hi else Some(keys[i])
  }

  /** The key fits a branch page, together with the eight bytes of a page id. */
  predicate KeyFits(k: Bytes, cap: nat) {
    Fits(Entry(k, 0), cap)
  }

  ghost predicate Increasing(keys: seq<Bytes>) {
    forall i, j | 0 <= i < j < |keys| :: Lt(keys[i], keys[j])
  }

  function Entries(keys: seq<Bytes>, kids: seq<Tree>): (es: seq<Pair>)
    requires |kids| == |keys| + 1
    ensures |es| == |keys| && forall i {:trigger es[i]} | 0 <= i < |es| :: es[i] == Entry(keys[i], kids[i].id)
  {
    seq(|keys|, i requires 0 <= i < |keys| => Entry(keys[i], kids[i].id))
  }

  ghost predicate SoundLeaf(pairs: seq<Pair>, lo: Option<Bytes>, hi: Option<Bytes>, caps: Caps) {
    && Ascending(pairs) && AllFit(pairs, caps.leaf) && Cost(pairs) <= caps.leaf
    && forall i | 0 <= i < |pairs| :: InBounds(pairs[i].key, lo, hi) && KeyFits(pairs[i].key, caps.branch)
  }

  ghost predicate NonEmpty(t: Tree) { t.Leaf? ==> t.pairs != [] }

  ghost predicate SoundForest(keys: seq<Bytes>, kids: seq<Tree>, h: nat, lo: Option<Bytes>, hi: Option<Bytes>,
                              caps: Caps)
    decreases h, 1
  {
    && |kids| == |keys| + 1
    && Increasing(keys)
    && (forall i | 0 <= i < |keys| :: Inside(keys[i], lo, hi) && KeyFits(keys[i], caps.branch))
    && (forall i | 0 <= i < |kids| ::
          Sound(kids[i], h, LoAt(keys, i, lo), HiAt(keys, i, hi), caps) && NonEmpty(kids[i]))
  }

  /** A node of height `h` whose keys are all in the bounds: pairs and separators strictly sorted,
      every separator between the keys of the subtrees beside it, all leaves at height 0, no empty
      leaf below a node, no node without separators, nothing overfull. */
  ghost predicate Sound(t: Tree, h: nat, lo: Option<Bytes>, hi: Option<Bytes>, caps: Caps)
    decreases h, 0
  {
    match t
    case Leaf(_, pairs) =>
      h == 0 && SoundLeaf(pairs, lo, hi, caps)
    case Node(_, keys, kids) =>
      h > 0 && |keys| > 0 && SoundForest(keys, kids, h - 1, lo, hi, caps)
      && Cost(Entries(keys, kids)) <= caps.branch
  }

  // ----- pages -----

  ghost predicate Holds(body: Image, cap: nat, pairs: seq<Pair>) {
    ValidBody(body) && |body.body| == cap && PairsIn(body) == pairs
  }

  ghost predicate StoredForest(pages: Pages, kids: seq<Tree>, caps: Caps)
    decreases kids
  {
    forall i | 0 <= i < |kids| :: Stored(pages, kids[i], caps)
  }

  /** The pages hold the nodes of the tree. */
  ghost predicate Stored(pages: Pages, t: Tree, caps: Caps)
    decreases t
  {
    t.id in pages &&
    match t
    case Leaf(id, pairs) =>
      pages[id].LeafPage? && Holds(pages[id].body, caps.leaf, pairs)
    case Node(id, keys, kids) =>
      && |kids| == |keys| + 1 && pages[id].BranchPage?
      && Holds(pages[id].body, caps.branch, Entries(keys, kids)) && pages[id].right == kids[|keys|].id
      && StoredForest(pages, kids, caps)
  }

  ghost predicate DistinctForest(kids: seq<Tree>)
    decreases kids
  {
    && (forall i | 0 <= i < |kids| :: Distinct(kids[i]))
    && (forall i, j | 0 <= i < |kids| && 0 <= j < |kids| && i != j :: Ids(kids[i]) !! Ids(kids[j]))
  }

  /** No page is used twice. */
  ghost predicate Distinct(t: Tree)
    decreases t
  {
    t.Node? ==> t.id !in IdsOf(t.kids) && DistinctForest(t.kids)
  }

  ghost predicate Linked(pages: Pages, ls: seq<LeafRec>, i: nat)
    requires i < |ls|
  {
    && ls[i].id in pages && pages[ls[i].id].LeafPage?
    && pages[ls[i].id].prev == (if i == 0 then None else Some(ls[i - 1].id))
    && pages[ls[i].id].next == (if i == |ls| - 1 then None else Some(ls[i + 1].id))
  }

  /** The leaves are chained both ways in order. */
  ghost predicate Chain(pages: Pages, ls: seq<LeafRec>) {
    forall i | 0 <= i < |ls| :: Linked(pages, ls, i)
  }

  ghost predicate UniqueLeaves(ls: seq<LeafRec>) {
    forall i, j | 0 <= i < |ls| && 0 <= j < |ls| && i != j :: ls[i].id != ls[j].id
  }

  // ----- concatenation -----

  lemma {:induction false} LeavesConcat(a: seq<Tree>, b: seq<Tree>)
    ensures LeavesOf(a + b) == LeavesOf(a) + LeavesOf(b)
  {
    if a == [] {
      assert a + b == b;
    } else {
      LeavesConcat(a[1..], b);
      assert (a + b)[1..] == a[1..] + b && (a + b)[0] == a[0];
      assert LeavesOf(a + b) == Leaves(a[0]) + (LeavesOf(a[1..]) + LeavesOf(b));
    }
  }

  lemma {:induction false} FlatConcat(a: seq<LeafRec>, b: seq<LeafRec>)
    ensures Flat(a + b) == Flat(a) + Flat(b)
  {
    if a == [] {
      assert a + b == b;
    } else {
      FlatConcat(a[1..], b);
      assert (a + b)[1..] == a[1..] + b && (a + b)[0] == a[0];
      assert Flat(a + b) == a[0].pairs + (Flat(a[1..]) + Flat(b));
    }
  }

  lemma LeavesOfOne(t: Tree)
    ensures LeavesOf([t]) == Leaves(t)
  {
    assert [t][1..] == [];
  }

  /** Leaves in front of, in, and behind one child. */
  lemma LeavesAround(kids: seq<Tree>, i: nat)
    requires i < |kids|
    ensures LeavesOf(kids) == LeavesOf(kids[..i]) + Leaves(kids[i]) + LeavesOf(kids[i + 1..])
  {
    assert kids == kids[..i] + kids[i..];
    LeavesConcat(kids[..i], kids[i..]);
  }

  lemma ContentsAround(kids: seq<Tree>, i: nat)
    requires i < |kids|
    ensures ContentsOf(kids) == ContentsOf(kids[..i]) + Contents(kids[i]) + ContentsOf(kids[i + 1..])
  {
    LeavesAround(kids, i);
    FlatConcat(LeavesOf(kids[..i]) + Leaves(kids[i]), LeavesOf(kids[i + 1..]));
    FlatConcat(LeavesOf(kids[..i]), Leaves(kids[i]));
  }

  lemma ContentsConcat(a: seq<Tree>, b: seq<Tree>)
    ensures ContentsOf(a + b) == ContentsOf(a) + ContentsOf(b)
  {
    LeavesConcat(a, b);
    FlatConcat(LeavesOf(a), LeavesOf(b));
  }

  lemma {:induction false} LeafIdsInForest(kids: seq<Tree>, l: LeafRec)
    requires l in LeavesOf(kids)
    ensures l.id in IdsOf(kids)
    decreases kids
  {
    if l in Leaves(kids[0]) {
      LeafIdsInTree(kids[0], l);
    } else {
      LeafIdsInForest(kids[1..], l);
      var i, p :| 0 <= i < |kids[1..]| && p in Ids(kids[1..][i]) && p == l.id;
      assert p in Ids(kids[i + 1]);
    }
  }

  lemma {:induction false} LeafIdsInTree(t: Tree, l: LeafRec)
    requires l in Leaves(t)
    ensures l.id in Ids(t)
    decreases t
  {
    if t.Node? {
      LeafIdsInForest(t.kids, l);
    }
  }

  lemma UniqueConcat(a: seq<LeafRec>, b: seq<LeafRec>)
    requires UniqueLeaves(a) && UniqueLeaves(b)
    requires forall i, j | 0 <= i < |a| && 0 <= j < |b| :: a[i].id != b[j].id
    ensures UniqueLeaves(a + b)
  {
  }

  lemma {:induction false} DistinctForestLeaves(kids: seq<Tree>)
    requires DistinctForest(kids)
    ensures UniqueLeaves(LeavesOf(kids))
    decreases kids
  {
    if kids != [] {
      var first, rest := Leaves(kids[0]), LeavesOf(kids[1..]);
      DistinctLeaves(kids[0]);
      DistinctForestLeaves(kids[1..]);
      forall i, j | 0 <= i < |first| && 0 <= j < |rest|
        ensures first[i].id != rest[j].id
      {
        LeafIdsInTree(kids[0], first[i]);
        LeafIdsInForest(kids[1..], rest[j]);
        var k, p :| 0 <= k < |kids[1..]| && p in Ids(kids[1..][k]) && p == rest[j].id;
        assert Ids(kids[0]) !! Ids(kids[k + 1]);
      }
      UniqueConcat(first, rest);
    }
  }

  /** No two leaves of a tree share a page. */
  lemma {:induction false} DistinctLeaves(t: Tree)
    requires Distinct(t)
    ensures UniqueLeaves(Leaves(t))
    decreases t
  {
    if t.Node? {
      DistinctForestLeaves(t.kids);
    }
  }

  // ----- keys of a sound tree -----

  ghost predicate KeysInBounds(ps: seq<Pair>, lo: Option<Bytes>, hi: Option<Bytes>) {
    forall i | 0 <= i < |ps| :: InBounds(ps[i].key, lo, hi)
  }

  lemma AscendingConcat(a: seq<Pair>, b: seq<Pair>, mid: Bytes)
    requires Ascending(a) && Ascending(b)
    requires forall i | 0 <= i < |a| :: Lt(a[i].key, mid)
    requires forall i | 0 <= i < |b| :: Le(mid, b[i].key)
    ensures Ascending(a + b)
  {
    forall i, j | 0 <= i < j < |a + b|
      ensures Lt((a + b)[i].key, (a + b)[j].key)
    {
      if i < |a| <= j && b[j - |a|].key != mid {
        LtTransitive(a[i].key, mid, b[j - |a|].key);
      }
    }
  }

  lemma SoundForestTail(keys: seq<Bytes>, kids: seq<Tree>, h: nat, lo: Option<Bytes>, hi: Option<Bytes>, caps: Caps)
    requires SoundForest(keys, kids, h, lo, hi, caps) && keys != []
    ensures SoundForest(keys[1..], kids[1..], h, Some(keys[0]), hi, caps)
  {
    hide Lt, Sound, KeyFits;
    forall i | 0 <= i < |kids[1..]|
      ensures Sound(kids[1..][i], h, LoAt(keys[1..], i, Some(keys[0])), HiAt(keys[1..], i, hi), caps)
    {
      assert kids[1..][i] == kids[i + 1];
      assert Sound(kids[i + 1], h, LoAt(keys, i + 1, lo), HiAt(keys, i + 1, hi), caps);
    }
  }

  lemma BoundsConcat(a: seq<Pair>, b: seq<Pair>, mid: Bytes, lo: Option<Bytes>, hi: Option<Bytes>)
    requires KeysInBounds(a, lo, Some(mid)) && KeysInBounds(b, Some(mid), hi) && Inside(mid, lo, hi)
    ensures KeysInBounds(a + b, lo, hi)
  {
    LtIsStrictTotalOrder();
    hide Lt;
  }

  lemma {:induction false} SoundForestContents(keys: seq<Bytes>, kids: seq<Tree>, h: nat, lo: Option<Bytes>,
                                               hi: Option<Bytes>, caps: Caps)
    requires SoundForest(keys, kids, h, lo, hi, caps)
    ensures Ascending(ContentsOf(kids)) && KeysInBounds(ContentsOf(kids), lo, hi)
    decreases h, 1, |kids|
  {
    hide Lt, Cost;
    SoundContents(kids[0], h, LoAt(keys, 0, lo), HiAt(keys, 0, hi), caps);
    if keys == [] {
      assert kids == [kids[0]];
      LeavesOfOne(kids[0]);
    } else {
      SoundForestTail(keys, kids, h, lo, hi, caps);
      SoundForestContents(keys[1..], kids[1..], h, Some(keys[0]), hi, caps);
      ContentsConcat([kids[0]], kids[1..]);
      LeavesOfOne(kids[0]);
      assert kids == [kids[0]] + kids[1..];
      AscendingConcat(Contents(kids[0]), ContentsOf(kids[1..]), keys[0]);
      BoundsConcat(Contents(kids[0]), ContentsOf(kids[1..]), keys[0], lo, hi);
    }
  }

  /** The pairs of a sound tree are strictly sorted and within its bounds. */
  lemma {:induction false} SoundContents(t: Tree, h: nat, lo: Option<Bytes>, hi: Option<Bytes>, caps: Caps)
    requires Sound(t, h, lo, hi, caps)
    ensures Ascending(Contents(t)) && KeysInBounds(Contents(t), lo, hi)
    decreases h, 0, 0
  {
    hide Lt, Cost, KeyFits, Fits, Ascending, InBounds, SoundForest;
    match t
    case Leaf(id, pairs) =>
      assert Flat([LeafRec(id, pairs)]) == pairs;
    case Node(_, keys, kids) =>
      SoundForestContents(keys, kids, h - 1, lo, hi, caps);
  }

  // ----- leaves on their pages -----

  ghost predicate LeafHeld(pages: Pages, l: LeafRec, cap: nat) {
    l.id in pages && pages[l.id].LeafPage? && Holds(pages[l.id].body, cap, l.pairs)
  }

  lemma {:induction false} LeafInSomeKid(kids: seq<Tree>, l: LeafRec) returns (i: nat)
    requires l in LeavesOf(kids)
    ensures i < |kids| && l in Leaves(kids[i])
    decreases |kids|
  {
    if l in Leaves(kids[0]) {
      i := 0;
    } else {
      i := LeafInSomeKid(kids[1..], l);
      i := i + 1;
    }
  }

  lemma {:induction false} LeavesHeld(pages: Pages, t: Tree, caps: Caps, l: LeafRec)
    requires Stored(pages, t, caps) && l in Leaves(t)
    ensures LeafHeld(pages, l, caps.leaf)
    decreases t
  {
    hide Holds;
    if t.Node? {
      var i := LeafInSomeKid(t.kids, l);
      LeavesHeld(pages, t.kids[i], caps, l);
    }
  }
}
