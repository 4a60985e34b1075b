/** src/btree/leaf.rs and src/btree/branch.rs: the two kinds of tree node, as views of a page. */
module Nodes {
  import opened Bytes
  import opened BinarySearch
  import opened SlottedLayout
  import opened SlottedPage
  import opened PairCodec
  import opened NodeSpec
  import opened NodeBody

  /** What a page holds. A page that was just created holds nothing yet. */
  datatype Page =
    | BlankPage
    | MetaPage(root: PageId)
    | LeafPage(prev: Option<PageId>, next: Option<PageId>, body: Image)
    | BranchPage(right: PageId, body: Image)

  function BlankImage(cap: nat): Image {
    Image(0, 0, Zeros(cap))
  }

  // ----- leaves -----

  /** The halves of a split: both non-empty, the lower one with two pairs or more, neither too full. */
  lemma SplitSizes(ps: seq<Pair>, p: Pair, cap: nat)
    requires AllFit(ps, cap) && Fits(p, cap)
    requires Cost(ps) <= cap < Cost(ps) + POINTER_SIZE + PairSize(p)
    ensures var m := SortedInsert(ps, p); var c := SplitPoint(m, cap);
      && 2 <= c < |m| && Cost(m[..c]) <= cap && Cost(m[c..]) <= cap
      && HalfFull(Cost(m[..c]), cap)
  {
    hide LowerBound, SplitPoint, Cost, ToBytes;
    CostInsertAt(ps, LowerBound(ps, p.key), p);
    SplitFits(SortedInsert(ps, p), cap);
  }

  class Leaf {
    var prev: Option<PageId>
    var next: Option<PageId>
    const body: Slotted

    /** `Leaf::new` on the page's bytes. */
    constructor (page: Page)
      requires page.LeafPage?
      ensures ToPage() == page && Capacity() == |page.body.body|
      ensures fresh(body) && fresh(body.body)
    {
      prev, next := page.prev, page.next;
      body := new Slotted(page.body);
      new;
      assert body.body[..] == page.body.body;
    }

    function ToPage(): Page
      reads this, body, body.body
    {
      LeafPage(prev, next, body.ToImage())
    }

    ghost predicate Valid()
      reads this, body, body.body
    {
      ValidNode(body)
    }

    function Pairs(): seq<Pair>
      reads this, body, body.body
      requires Valid()
    {
      NodeBody.Pairs(body)
    }

    function Capacity(): nat
      reads this
    {
      body.Capacity()
    }

    method Initialize()
      requires Capacity() < 0x1_0000
      modifies this, body
      ensures Valid() && Pairs() == [] && prev == None && next == None
    {
      prev, next := None, None;
      NodeBody.Initialize(body);
    }

    method SearchSlotId(key: Bytes) returns (r: SearchResult)
      requires Valid() && Ascending(Pairs())
      ensures r.Found? ==> r.index < |Pairs()| && Pairs()[r.index].key == key
      ensures r.Missing? ==> r.index == LowerBound(Pairs(), key) && !HasKey(Pairs(), key)
    {
      r := NodeBody.SearchSlotId(body, key);
    }

    method Insert(slotId: nat, key: Bytes, value: Bytes) returns (ok: bool)
      requires Valid() && slotId <= |Pairs()| && Fits(Pair(key, value), Capacity())
      modifies body, body.body
      ensures Valid()
      ensures ok <==> Cost(old(Pairs())) + POINTER_SIZE + PairSize(Pair(key, value)) <= Capacity()
      ensures Pairs() == if ok then InsertAt(old(Pairs()), slotId, Pair(key, value)) else old(Pairs())
    {
      ok := NodeBody.Insert(body, slotId, Pair(key, value));
    }

    /** Called when `Insert` has just failed: `newLeaf` gets the lower half of all pairs, this leaf
        keeps the upper half, and the key returned is the first one here. Neither half is empty. */
    method SplitInsert(newLeaf: Leaf, key: Bytes, value: Bytes) returns (overflow: Bytes)
      requires Valid() && this != newLeaf && body != newLeaf.body && body.body != newLeaf.body.body
      requires Capacity() == newLeaf.Capacity() < 0x1_0000
      requires Ascending(Pairs()) && !HasKey(Pairs(), key)
      requires AllFit(Pairs(), Capacity()) && Fits(Pair(key, value), Capacity())
      requires Cost(Pairs()) <= Capacity() < Cost(Pairs()) + POINTER_SIZE + PairSize(Pair(key, value))
      modifies body, body.body, newLeaf, newLeaf.body, newLeaf.body.body
      ensures Valid() && newLeaf.Valid() && newLeaf.prev == None && newLeaf.next == None
      ensures newLeaf.Pairs() + Pairs() == SortedInsert(old(Pairs()), Pair(key, value))
      ensures |newLeaf.Pairs()| == SplitPoint(SortedInsert(old(Pairs()), Pair(key, value)), Capacity())
      ensures |newLeaf.Pairs()| > 1 && Cost(newLeaf.Pairs()) <= Capacity()
      ensures Pairs() != [] && Cost(Pairs()) <= Capacity() && overflow == Pairs()[0].key
      ensures Promoted(old(Pairs()), Pair(key, value), Capacity()) == Some(overflow)
    {
      hide ValidBody, PairsIn, Cost, LowerBound, SplitPoint;
      newLeaf.Initialize();
      ghost var m := SortedInsert(Pairs(), Pair(key, value));
      CostInsertAt(Pairs(), LowerBound(Pairs(), key), Pair(key, value));
      SplitSizes(Pairs(), Pair(key, value), Capacity());
      NodeBody.SplitInsert(body, newLeaf.body, Pair(key, value));
      assert m == m[..SplitPoint(m, Capacity())] + m[SplitPoint(m, Capacity())..];
      overflow := Pairs()[0].key;
    }
  }

  // ----- branches -----

  /** The pair a branch keeps for a child: a separator and the child to its left. */
  function Entry(key: Bytes, child: PageId): Pair {
    Pair(key, PageIdBytes(child))
  }

  /** The value of an entry is the eight bytes of the page id, least significant one first. */
  lemma EntryBytes(key: Bytes, child: PageId, k: nat)
    requires k < 8
    ensures Entry(key, child).key == key && |Entry(key, child).value| == 8
    ensures Entry(key, child).value[k] as int == child / Pow256(k) % 256
  {
    hide Pow256, LittleEndian;
    LittleEndianDigits(child, 8, k);
  }

  ghost predicate AreEntries(ps: seq<Pair>) {
    forall i | 0 <= i < |ps| :: PageIdFrom(ps[i].value).Some?
  }

  /** Child `i`, the one to the left of separator `i`, or the right-most one. */
  function ChildOf(ps: seq<Pair>, right: PageId, i: nat): PageId
    requires AreEntries(ps) && i <= |ps|
  {
    if i == |ps| then right else PageIdFrom(ps[i].value).value
  }

  lemma SearchSeparates(ps: seq<Pair>, key: Bytes, r: SearchResult)
    requires Ascending(ps)
    requires r.Found? ==> r.index < |ps| && ps[r.index].key == key
    requires r.Missing? ==> r.index == LowerBound(ps, key) && !HasKey(ps, key)
    ensures var i := if r.Found? then r.index + 1 else r.index;
      && i <= |ps|
      && (forall j | 0 <= j < i :: Le(ps[j].key, key))
      && (forall j | i <= j < |ps| :: Lt(key, ps[j].key))
  {
    if r.Missing? {
      forall j | r.index <= j < |ps|
        ensures Lt(key, ps[j].key)
      {
        AboveLowerBound(ps, key, j);
        LtTotal(ps[j].key, key);
      }
    }
  }

  class Branch {
    var right: PageId
    const body: Slotted

    constructor (page: Page)
      requires page.BranchPage?
      ensures ToPage() == page && Capacity() == |page.body.body|
      ensures fresh(body) && fresh(body.body)
    {
      right := page.right;
      body := new Slotted(page.body);
      new;
      assert body.body[..] == page.body.body;
    }

    function ToPage(): Page
      reads this, body, body.body
    {
      BranchPage(right, body.ToImage())
    }

    ghost predicate Valid()
      reads this, body, body.body
    {
      ValidNode(body) && AreEntries(NodeBody.Pairs(body))
    }

    function Pairs(): seq<Pair>
      reads this, body, body.body
      requires Valid()
    {
      NodeBody.Pairs(body)
    }

    function Capacity(): nat
      reads this
    {
      body.Capacity()
    }

    /** The child whose subtree a key belongs to; a key equal to a separator belongs to its right. */
    method SearchChildIdx(key: Bytes) returns (i: nat)
      requires Valid() && Ascending(Pairs())
      ensures i <= |Pairs()|
      ensures forall j | 0 <= j < i :: Le(Pairs()[j].key, key)
      ensures forall j | i <= j < |Pairs()| :: Lt(key, Pairs()[j].key)
    {
      var r := NodeBody.SearchSlotId(body, key);
      SearchSeparates(Pairs(), key, r);
      i := if r.Found? then r.index + 1 else r.index;
    }

    method ChildAt(i: nat) returns (id: PageId)
      requires Valid() && i <= |Pairs()|
      ensures id == ChildOf(Pairs(), right, i)
    {
      id := if i == |Pairs()| then right else PageIdFrom(Pairs()[i].value).value;
    }

    method Insert(slotId: nat, key: Bytes, pageId: PageId) returns (ok: bool)
      requires Valid() && slotId <= |Pairs()| && Fits(Entry(key, pageId), Capacity())
      modifies body, body.body
      ensures Valid()
      ensures ok <==> Cost(old(Pairs())) + POINTER_SIZE + PairSize(Entry(key, pageId)) <= Capacity()
      ensures Pairs() == if ok then InsertAt(old(Pairs()), slotId, Entry(key, pageId)) else old(Pairs())
    {
      hide ValidBody, PairsIn, ToBytes, PageIdFrom, LittleEndian, Cost;
      PageIdRoundTrip(pageId);
      ok := NodeBody.Insert(body, slotId, Entry(key, pageId));
    }

    /** A new root over two nodes. */
    method Initialize(key: Bytes, leftChild: PageId, rightChild: PageId)
      requires Capacity() < 0x1_0000 && Fits(Entry(key, leftChild), Capacity())
      modifies this, body, body.body
      ensures Valid() && Pairs() == [Entry(key, leftChild)] && right == rightChild
    {
      NodeBody.Initialize(body);
      var _ := Insert(0, key, leftChild);
      right := rightChild;
    }

    /** The last separator leaves the node; the child to its left becomes the right-most one. */
    method FillRightChild() returns (key: Bytes)
      requires Valid() && Pairs() != []
      modifies this, body, body.body
      ensures Valid() && Pairs() == old(Pairs())[..|old(Pairs())| - 1]
      ensures key == old(Pairs())[|old(Pairs())| - 1].key
      ensures Some(right) == PageIdFrom(old(Pairs())[|old(Pairs())| - 1].value)
    {
      hide ValidBody, PairsIn, PageIdFrom;
      var lastId := |Pairs()| - 1;
      var last := Pairs()[lastId];
      NodeBody.Remove(body, lastId);
      right := PageIdFrom(last.value).value;
      key := last.key;
    }

    /** Called when `Insert` has just failed: `newBranch` gets the separators below the one that is
        promoted, this branch keeps those above it and its right-most child; the child in between
        becomes the right-most one of `newBranch`. Both keep separators. */
    method SplitInsert(newBranch: Branch, key: Bytes, pageId: PageId) returns (overflow: Bytes)
      requires Valid() && this != newBranch && body != newBranch.body && body.body != newBranch.body.body
      requires Capacity() == newBranch.Capacity() < 0x1_0000
      requires Ascending(Pairs()) && !HasKey(Pairs(), key)
      requires AllFit(Pairs(), Capacity()) && Fits(Entry(key, pageId), Capacity())
      requires Cost(Pairs()) <= Capacity() < Cost(Pairs()) + POINTER_SIZE + PairSize(Entry(key, pageId))
      modifies body, body.body, newBranch, newBranch.body, newBranch.body.body
      ensures Valid() && newBranch.Valid() && right == old(right)
      ensures var m := SortedInsert(old(Pairs()), Entry(key, pageId)); var c := SplitPoint(m, Capacity());
        && |newBranch.Pairs()| == c - 1 && c < |m|
        && newBranch.Pairs() == m[..c - 1] && Pairs() == m[c..]
        && overflow == m[c - 1].key && Some(newBranch.right) == PageIdFrom(m[c - 1].value)
      ensures newBranch.Pairs() != [] && Cost(newBranch.Pairs()) <= Capacity()
      ensures Pairs() != [] && Cost(Pairs()) <= Capacity()
    {
      hide ValidBody, PairsIn, Cost, LowerBound, SplitPoint, Fits, PageIdFrom, LittleEndian;
      PageIdRoundTrip(pageId);
      ghost var m := SortedInsert(Pairs(), Entry(key, pageId));
      ghost var c := SplitPoint(m, Capacity());
      SplitSizes(Pairs(), Entry(key, pageId), Capacity());
      assert AreEntries(m);
      NodeBody.SplitInsert(body, newBranch.body, Entry(key, pageId));
      overflow := newBranch.FillRightChild();
      CostSnoc(m, c - 1);
      assert m[..c][..c - 1] == m[..c - 1];
    }
  }
}
