/** The part leaf.rs and branch.rs have in common: pairs kept in the slots of a page body, searched,
    inserted, moved between two pages and split over them. */
module NodeBody {
  import opened Bytes
  import opened BinarySearch
  import opened SlottedLayout
  import opened SlottedPage
  import opened PairCodec
  import opened NodeSpec

  ghost predicate ArePairs(slots: seq<Bytes>) {
    forall i | 0 <= i < |slots| :: IsPair(slots[i])
  }

  function Decoded(slots: seq<Bytes>): (ps: seq<Pair>)
    requires ArePairs(slots)
    ensures |ps| == |slots| && forall i {:trigger ps[i]} | 0 <= i < |ps| :: FromBytes(slots[i]) == Some(ps[i])
  {
    seq(|slots|, i requires 0 <= i < |slots| => FromBytes(slots[i]).value)
  }

  ghost predicate ValidBody(img: Image) {
    ValidImage(img) && ArePairs(Slots(img))
  }

  /** The pairs on a page. */
  function PairsIn(img: Image): seq<Pair>
    requires ValidBody(img)
  {
    Decoded(Slots(img))
  }

  ghost predicate ValidNode(s: Slotted)
    reads s, s.body
  {
    ValidBody(s.ToImage())
  }

  function Pairs(s: Slotted): seq<Pair>
    reads s, s.body
    requires ValidNode(s)
  {
    PairsIn(s.ToImage())
  }

  lemma {:induction false} CostIsUsed(slots: seq<Bytes>)
    requires ArePairs(slots)
    ensures Cost(Decoded(slots)) == Used(slots)
  {
    if slots != [] {
      CostIsUsed(slots[1..]);
      assert Decoded(slots)[1..] == Decoded(slots[1..]);
    }
  }

  lemma CapacityBound(img: Image)
    requires ValidImage(img)
    ensures |img.body| < 0x1_0000
  {
  }

  /** Pairs on one page are short enough to tell them by their bytes. */
  lemma PairFitsIsPair(p: Pair, cap: nat)
    requires cap < 0x1_0000 && Fits(p, cap)
    ensures IsPair(ToBytes(p)) && FromBytes(ToBytes(p)) == Some(p)
  {
    ToBytesIsPair(p);
  }

  lemma CompareSorted(ps: seq<Pair>, key: Bytes, f: nat --> Ordering)
    requires Ascending(ps)
    requires forall i: nat | i < |ps| :: f.requires(i) && f(i) == Compare(ps[i].key, key)
    ensures Sorted(|ps|, f)
  {
    forall i: nat, j: nat | i < j < |ps|
      ensures (f(j).Less? ==> f(i).Less?) && (f(i).Greater? ==> f(j).Greater?)
    {
      LtTotal(ps[i].key, key);
      LtTotal(ps[j].key, key);
      LtAsymmetric(ps[i].key, ps[j].key);
      if Lt(ps[j].key, key) {
        LtTransitive(ps[i].key, ps[j].key, key);
        LtAsymmetric(ps[i].key, key);
      }
      if Lt(key, ps[i].key) {
        LtTransitive(key, ps[i].key, ps[j].key);
        LtAsymmetric(key, ps[j].key);
        LtAsymmetric(key, ps[i].key);
      }
    }
  }

  method SearchSlotId(s: Slotted, key: Bytes) returns (r: SearchResult)
    requires ValidNode(s) && Ascending(Pairs(s))
    ensures r.Found? ==> r.index < |Pairs(s)| && Pairs(s)[r.index].key == key
    ensures r.Missing? ==> r.index == LowerBound(Pairs(s), key) && !HasKey(Pairs(s), key)
  {
    hide ValidBody, PairsIn, Lt, LowerBound;
    var ps := Pairs(s);
    var f := i requires 0 <= i < |ps| => Compare(ps[i].key, key);
    r := BinarySearchBy(|ps|, f);
    if r.Missing? {
      CompareSorted(ps, key, f);
      if r.index < |ps| {
        assert f(r.index) == Greater;
        LtTotal(ps[r.index].key, key);
        LtAsymmetric(key, ps[r.index].key);
      }
      assert forall i | 0 <= i < r.index :: f(i) == Less;
      assert forall i | r.index <= i < |ps| :: f(i) == Greater;
      LowerBoundUnique(ps, key, r.index);
    }
  }

  method Initialize(s: Slotted)
    requires s.Capacity() < 0x1_0000
    modifies s
    ensures ValidNode(s) && Pairs(s) == []
  {
    s.Initialize();
  }

  lemma DecodedInsert(slots: seq<Bytes>, i: nat, b: Bytes)
    requires ArePairs(slots) && IsPair(b) && i <= |slots|
    ensures ArePairs(slots[..i] + [b] + slots[i..])
    ensures Decoded(slots[..i] + [b] + slots[i..]) == InsertAt(Decoded(slots), i, FromBytes(b).value)
  {
    hide IsPair, FromBytes;
  }

  /** `insert` on a leaf or branch; the assertion in it is the `Fits` here. */
  method Insert(s: Slotted, slotId: nat, p: Pair) returns (ok: bool)
    requires ValidNode(s) && slotId <= |Pairs(s)|
    requires Fits(p, s.Capacity())
    modifies s, s.body
    ensures ValidNode(s)
    ensures ok <==> Cost(old(Pairs(s))) + POINTER_SIZE + PairSize(p) <= s.Capacity()
    ensures Pairs(s) == if ok then InsertAt(old(Pairs(s)), slotId, p) else old(Pairs(s))
  {
    hide ValidImage, Slots, IsPair, FromBytes, ToBytes, Cost, Used;
    var bytes := ToBytes(p);
    ghost var before := s.Contents();
    CostIsUsed(before);
    CapacityBound(s.ToImage());
    PairFitsIsPair(p, s.Capacity());
    ok := s.Insert(slotId, |bytes|);
    if ok {
      s.Write(slotId, bytes);
      assert s.Contents() == before[..slotId] + [bytes] + before[slotId..];
      DecodedInsert(before, slotId, bytes);
    }
  }

  predicate IsHalfFull(s: Slotted): (b: bool)
    reads s, s.body
    requires ValidNode(s)
    ensures b <==> HalfFull(Cost(Pairs(s)), s.Capacity())
  {
    CostIsUsed(s.Contents());
    2 * s.FreeSpace() < s.Capacity()
  }

  method Remove(s: Slotted, slotId: nat)
    requires ValidNode(s) && slotId < |Pairs(s)|
    modifies s, s.body
    ensures ValidNode(s)
    ensures Pairs(s) == old(Pairs(s))[..slotId] + old(Pairs(s))[slotId + 1..]
  {
    hide ValidImage, Slots, FromBytes, ToBytes;
    s.Remove(slotId);
  }

  lemma DecodedTransfer(from: seq<Bytes>, to: seq<Bytes>)
    requires ArePairs(from) && ArePairs(to) && from != []
    ensures ArePairs(to + [from[0]]) && Decoded(to + [from[0]]) == Decoded(to) + [Decoded(from)[0]]
    ensures ArePairs(from[1..]) && Decoded(from[1..]) == Decoded(from)[1..]
  {
    hide IsPair, FromBytes;
  }

  /** Moving the first pair of `src` behind the last one of `dest`; `dest` must have room. */
  method Transfer(src: Slotted, dest: Slotted)
    requires ValidNode(src) && ValidNode(dest) && src != dest && src.body != dest.body
    requires Pairs(src) != []
    requires Cost(Pairs(dest)) + POINTER_SIZE + PairSize(Pairs(src)[0]) <= dest.Capacity()
    modifies src, src.body, dest, dest.body
    ensures ValidNode(src) && ValidNode(dest)
    ensures Pairs(dest) == old(Pairs(dest)) + [old(Pairs(src)[0])]
    ensures Pairs(src) == old(Pairs(src))[1..]
  {
    hide ValidImage, Slots, FromBytes, ToBytes, Cost, Used;
    ghost var from, to := src.Contents(), dest.Contents();
    CostIsUsed(to);
    var nextIndex := |dest.Contents()|;
    var first := src.Contents()[0];
    var ok := dest.Insert(nextIndex, |first|);
    dest.Write(nextIndex, first);
    src.Remove(0);
    assert dest.Contents() == to + [first];
    assert src.Contents() == from[1..];
    DecodedTransfer(from, to);
  }

  /** The new pair onto a page that has room for it and does not have its key: neither of the two
      `expect`s fails. */
  method InsertByKey(s: Slotted, p: Pair)
    requires ValidNode(s) && Ascending(Pairs(s)) && !HasKey(Pairs(s), p.key)
    requires Fits(p, s.Capacity()) && Cost(Pairs(s)) + POINTER_SIZE + PairSize(p) <= s.Capacity()
    modifies s, s.body
    ensures ValidNode(s) && Pairs(s) == SortedInsert(old(Pairs(s)), p)
  {
    hide ValidBody, PairsIn, LowerBound, Cost;
    var r := SearchSlotId(s, p.key);
    var _ := Insert(s, r.index, p);
  }

  /** One turn of the loops of a split: the next of the pairs `m` moves to the new page, which has
      room because it is not half full. */
  method MoveNext(s: Slotted, newNode: Slotted, ghost m: seq<Pair>, ghost n: nat)
    requires ValidNode(s) && ValidNode(newNode) && s != newNode && s.body != newNode.body
    requires n < |m| && AllFit(m, newNode.Capacity()) && !HalfFull(Cost(m[..n]), newNode.Capacity())
    requires Pairs(newNode) == m[..n] && Pairs(s) == m[n..]
    modifies s, s.body, newNode, newNode.body
    ensures ValidNode(s) && ValidNode(newNode)
    ensures Pairs(newNode) == m[..n + 1] && Pairs(s) == m[n + 1..]
  {
    hide ValidBody, PairsIn, Cost;
    NotHalfFullHasRoom(Cost(m[..n]), newNode.Capacity(), m[n]);
    Transfer(s, newNode);
    assert m[..n + 1] == m[..n] + [m[n]];
  }

  /** The loop that goes on moving pairs when the new one is already on the new page. */
  method FillFrom(s: Slotted, newNode: Slotted, ghost m: seq<Pair>, ghost n0: nat)
    requires ValidNode(s) && ValidNode(newNode) && s != newNode && s.body != newNode.body
    requires s.Capacity() == newNode.Capacity() && n0 <= |m|
    requires Pairs(newNode) == m[..n0] && Pairs(s) == m[n0..]
    requires AllFit(m, s.Capacity()) && Cost(m) > s.Capacity()
    requires forall i | 0 <= i < n0 :: !HalfFull(Cost(m[..i]), s.Capacity())
    modifies s, s.body, newNode, newNode.body
    ensures ValidNode(s) && ValidNode(newNode)
    ensures Pairs(newNode) == m[..SplitPoint(m, s.Capacity())] && Pairs(s) == m[SplitPoint(m, s.Capacity())..]
  {
    hide ValidImage, Slots, IsPair, ToBytes, FromBytes, Cost, SplitPoint, ValidBody, PairsIn;
    ghost var cap := s.Capacity();
    ghost var n := n0;
    while !IsHalfFull(newNode)
      invariant n <= |m| && ValidNode(s) && ValidNode(newNode)
      invariant Pairs(newNode) == m[..n] && Pairs(s) == m[n..]
      invariant forall i | 0 <= i < n :: !HalfFull(Cost(m[..i]), cap)
      decreases |m| - n
    {
      assert m[..|m|] == m;
      MoveNext(s, newNode, m, n);
      n := n + 1;
    }
    SplitFits(m, cap);
    SplitPointUnique(m, cap, n);
  }

  /** The split both kinds of node share. Called when the pair has just failed to fit, it never asks
      for the first pair of an empty page and never finds a page too full: the new page ends up
      with the shortest front part of all the pairs, the new one among them, that is more than
      half a page, the old page with the rest. */
  method SplitInsert(s: Slotted, newNode: Slotted, p: Pair)
    requires ValidNode(s) && s != newNode && s.body != newNode.body
    requires s.Capacity() == newNode.Capacity() < 0x1_0000
    requires Ascending(Pairs(s)) && !HasKey(Pairs(s), p.key)
    requires AllFit(Pairs(s), s.Capacity()) && Fits(p, s.Capacity())
    requires Cost(Pairs(s)) <= s.Capacity() < Cost(Pairs(s)) + POINTER_SIZE + PairSize(p)
    modifies s, s.body, newNode, newNode.body
    ensures ValidNode(s) && ValidNode(newNode)
    ensures var m := SortedInsert(old(Pairs(s)), p); var c := SplitPoint(m, s.Capacity());
      Pairs(newNode) == m[..c] && Pairs(s) == m[c..]
  {
    hide ValidImage, Slots, IsPair, ToBytes, FromBytes, Cost, Lt, LowerBound, SplitPoint, ValidBody, PairsIn,
         SortedInsert, Ascending, HasKey, AllFit;
    Initialize(newNode);
    ghost var ps, cap := Pairs(s), s.Capacity();
    ghost var m := SortedInsert(ps, p);
    ghost var n := 0;
    while true
      invariant 0 <= n <= |ps| && ValidNode(s) && ValidNode(newNode)
      invariant Pairs(newNode) == ps[..n] && Pairs(s) == ps[n..]
      invariant forall i | 0 <= i < n :: Lt(ps[i].key, p.key) && !HalfFull(Cost(ps[..i]), cap)
      decreases |ps| - n
    {
      if IsHalfFull(newNode) {
        SplitLeavesPairBehind(ps, n, p, cap);
        SuffixAscending(ps, n, p.key);
        InsertByKey(s, p);
        return;
      }
      NotHalfFullLeavesPairs(ps, n, p, cap);
      assert Pairs(s)[0] == ps[n];
      if Lt(Pairs(s)[0].key, p.key) {
        MoveNext(s, newNode, ps, n);
        n := n + 1;
      } else {
        SplitTakesPairAlong(ps, n, p, cap);
        var _ := Insert(newNode, |Pairs(newNode)|, p);
        FillFrom(s, newNode, m, n + 1);
        return;
      }
    }
  }
}
