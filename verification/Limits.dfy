/** The two bounds on a pair for 4096-byte pages: the one the code asserts when a leaf takes the pair,
    and the one it runs into when a split makes the key a separator. */
module Limits {
  import opened Bytes
  import opened SlottedLayout
  import opened PairCodec
  import opened NodeSpec
  import opened Nodes
  import opened Tree

  /** PAGE_SIZE less the headers of node, leaf and slotted page. */
  const LEAF_BODY := PAGE_SIZE - 8 - 16 - 8

  /** PAGE_SIZE less the headers of node, branch and slotted page. */
  const BRANCH_BODY := PAGE_SIZE - 8 - 8 - 8

  /** A pair the leaf assertion lets through can become a separator exactly when its key has no more
      than 2020 bytes; a value of four bytes or more makes sure of it. */
  lemma SeparatorBound(k: Bytes, v: Bytes)
    requires Fits(Pair(k, v), LEAF_BODY)
    ensures KeyFits(k, BRANCH_BODY) <==> |k| <= 2020
    ensures |v| >= 4 ==> KeyFits(k, BRANCH_BODY)
  {
    hide LittleEndian;
    assert |ToBytes(Pair(k, v))| == |Varint(|k|)| + |k| + |Varint(|v|)| + |v|;
    assert |ToBytes(Entry(k, 0))| == |Varint(|k|)| + |k| + 1 + PAGE_ID_SIZE;
  }

  /** Two pairs that take between half a leaf and a whole one. */
  function Filler(): seq<Pair> {
    [Pair([], seq(1500, _ => 0 as byte)), Pair([0], seq(1500, _ => 0 as byte))]
  }

  lemma PairSizeIs(p: Pair)
    ensures PairSize(p) == |Varint(|p.key|)| + |p.key| + |Varint(|p.value|)| + |p.value|
  {
    hide LittleEndian, Varint;
  }

  lemma CostOfTwo(p: Pair, q: Pair)
    ensures Cost([p, q]) == 2 * POINTER_SIZE + PairSize(p) + PairSize(q)
  {
    assert [p, q] == [p] + [q];
    CostConcat([p], [q]);
    CostOfOne(p);
    CostOfOne(q);
  }

  lemma FillerFacts(k: Bytes)
    requires |k| > 1
    ensures var ps := Filler();
      && |ps| == 2 && Ascending(ps) && AllFit(ps, LEAF_BODY) && Cost(ps) == 3017 && Cost([ps[0]]) == 1508
      && (forall i | 0 <= i < 2 :: KeyFits(ps[i].key, BRANCH_BODY) && Lt(ps[i].key, k))
      && !HasKey(ps, k)
  {
    hide LittleEndian, Cost, ToBytes;
    var ps := Filler();
    PairSizeIs(ps[0]);
    PairSizeIs(ps[1]);
    CostOfTwo(ps[0], ps[1]);
    CostOfOne(ps[0]);
    PairSizeIs(Entry([], 0));
    PairSizeIs(Entry([0], 0));
  }

  lemma LongKeySplit(ps: seq<Pair>, x: Pair)
    requires |ps| == 2 && !HalfFull(Cost([ps[0]]), LEAF_BODY) && HalfFull(Cost(ps), LEAF_BODY)
    ensures SplitPoint(ps + [x], LEAF_BODY) == 2
  {
    var m := ps + [x];
    assert m[..0] == [] && m[..1] == [ps[0]] && m[..2] == ps;
    SplitPointUnique(m, LEAF_BODY, 2);
  }

  /** The bound on the key is needed: a longer key that a leaf takes can be the one a split hands up to
      the branch, whose own assertion then fails. The leaf here has two pairs and no room for the
      third. */
  lemma LongKeyIsPromoted(k: Bytes)
    requires Fits(Pair(k, []), LEAF_BODY) && !KeyFits(k, BRANCH_BODY)
    ensures exists ps: seq<Pair> ::
      && Ascending(ps) && AllFit(ps, LEAF_BODY) && Cost(ps) <= LEAF_BODY && !HasKey(ps, k)
      && (forall i | 0 <= i < |ps| :: KeyFits(ps[i].key, BRANCH_BODY))
      && Promoted(ps, Pair(k, []), LEAF_BODY) == Some(k)
  {
    SeparatorBound(k, []);
    hide LittleEndian, Lt, Cost, ToBytes, SplitPoint, LowerBound;
    var ps, x := Filler(), Pair(k, []);
    FillerFacts(k);
    LowerBoundUnique(ps, k, 2);
    assert SortedInsert(ps, x) == ps + [x];
    CostConcat(ps, [x]);
    CostOfOne(x);
    PairSizeIs(x);
    LongKeySplit(ps, x);
    assert Promoted(ps, x, LEAF_BODY) == Some(k);
  }
}
