/** What the node operations of src/btree/leaf.rs and src/btree/branch.rs do to the pairs of a node,
    and the byte arithmetic that keeps their `assert!`s and `expect`s from failing. */
module NodeSpec {
  import opened Bytes
  import opened PairCodec
  import opened SlottedLayout

  // ----- sizes -----

  function PairSize(p: Pair): nat { |ToBytes(p)| }

  /** What the pairs take of a page's body, pointers included. */
  function Cost(ps: seq<Pair>): nat {
    if ps == [] then 0 else POINTER_SIZE + PairSize(ps[0]) + Cost(ps[1..])
  }

  /** `max_pair_size`, which the code asserts no pair exceeds. */
  function MaxPairSize(cap: nat): nat
    requires cap >= 8
  {
    cap / 2 - POINTER_SIZE
  }

  /** With its pointer, the pair takes at most half a page. */
  predicate Fits(p: Pair, cap: nat) {
    2 * (PairSize(p) + POINTER_SIZE) <= cap
  }

  lemma FitsIsMaxPairSize(p: Pair, cap: nat)
    requires cap >= 8
    ensures Fits(p, cap) <==> PairSize(p) <= MaxPairSize(cap)
  {
    assert cap == 2 * (cap / 2) + cap % 2;
  }

  ghost predicate AllFit(ps: seq<Pair>, cap: nat) {
    forall i | 0 <= i < |ps| :: Fits(ps[i], cap)
  }

  /** `is_half_full`, with `cost` used of `cap`: more than half, in fact. */
  predicate HalfFull(cost: nat, cap: nat) {
    2 * (cap - cost) < cap
  }

  lemma {:induction false} CostConcat(ps: seq<Pair>, qs: seq<Pair>)
    ensures Cost(ps + qs) == Cost(ps) + Cost(qs)
  {
    hide PairSize;
    if ps == [] {
      assert ps + qs == qs;
    } else {
      CostConcat(ps[1..], qs);
      assert (ps + qs)[1..] == ps[1..] + qs;
    }
  }

  lemma CostSplit(ps: seq<Pair>, n: nat)
    requires n <= |ps|
    ensures Cost(ps) == Cost(ps[..n]) + Cost(ps[n..])
  {
    assert ps == ps[..n] + ps[n..];
    CostConcat(ps[..n], ps[n..]);
  }

  lemma CostSnoc(ps: seq<Pair>, n: nat)
    requires n < |ps|
    ensures Cost(ps[..n + 1]) == Cost(ps[..n]) + POINTER_SIZE + PairSize(ps[n])
  {
    assert ps[..n + 1] == ps[..n] + [ps[n]];
    CostConcat(ps[..n], [ps[n]]);
    assert Cost([ps[n]]) == POINTER_SIZE + PairSize(ps[n]);
  }

  lemma CostOfNone(ps: seq<Pair>)
    ensures Cost(ps[..0]) == 0
  {
  }

  lemma CostOfOne(p: Pair)
    ensures Cost([p]) == POINTER_SIZE + PairSize(p)
  {
    assert [p][1..] == [];
  }

  function InsertAt(ps: seq<Pair>, i: nat, x: Pair): seq<Pair>
    requires i <= |ps|
  {
    ps[..i] + [x] + ps[i..]
  }

  lemma CostInsertAt(ps: seq<Pair>, i: nat, x: Pair)
    requires i <= |ps|
    ensures Cost(InsertAt(ps, i, x)) == Cost(ps) + POINTER_SIZE + PairSize(x)
  {
    hide Cost, PairSize;
    var m := InsertAt(ps, i, x);
    CostSplit(ps, i);
    CostSplit(m, i);
    assert m[..i] == ps[..i] && m[i..] == [x] + ps[i..];
    CostConcat([x], ps[i..]);
    CostOfOne(x);
  }

  // ----- order -----

  /** Keys strictly increase. */
  ghost predicate Ascending(ps: seq<Pair>) {
    forall i, j | 0 <= i < j < |ps| :: Lt(ps[i].key, ps[j].key)
  }

  /** How many pairs at the front have smaller keys. */
  function LowerBound(ps: seq<Pair>, key: Bytes): (n: nat)
    ensures n <= |ps|
    ensures forall i | 0 <= i < n :: Lt(ps[i].key, key)
    ensures n < |ps| ==> !Lt(ps[n].key, key)
  {
    if ps == [] || !Lt(ps[0].key, key) then 0 else 1 + LowerBound(ps[1..], key)
  }

  /** The pairs with one more put in its place. */
  function SortedInsert(ps: seq<Pair>, x: Pair): seq<Pair> {
    InsertAt(ps, LowerBound(ps, x.key), x)
  }

  ghost predicate HasKey(ps: seq<Pair>, key: Bytes) {
    exists i | 0 <= i < |ps| :: ps[i].key == key
  }

  /** The place a search finds is the only one that separates smaller from larger keys. */
  lemma LowerBoundUnique(ps: seq<Pair>, key: Bytes, n: nat)
    requires n <= |ps|
    requires forall i | 0 <= i < n :: Lt(ps[i].key, key)
    requires n < |ps| ==> !Lt(ps[n].key, key)
    ensures LowerBound(ps, key) == n
  {
  }

  /** Behind the lower bound there is nothing smaller. */
  lemma AboveLowerBound(ps: seq<Pair>, key: Bytes, i: nat)
    requires Ascending(ps) && LowerBound(ps, key) <= i < |ps|
    ensures !Lt(ps[i].key, key)
    ensures i > LowerBound(ps, key) ==> Lt(key, ps[i].key)
  {
    hide Lt, LowerBound;
    var n := LowerBound(ps, key);
    LtTotal(ps[n].key, key);
    if i > n {
      assert Lt(ps[n].key, ps[i].key);
      if ps[n].key != key {
        LtTransitive(key, ps[n].key, ps[i].key);
      }
      LtAsymmetric(key, ps[i].key);
    }
  }

  lemma SortedInsertAscending(ps: seq<Pair>, x: Pair)
    requires Ascending(ps) && !HasKey(ps, x.key)
    ensures Ascending(SortedInsert(ps, x))
  {
    var n, m := LowerBound(ps, x.key), SortedInsert(ps, x);
    forall i, j | 0 <= i < j < |m|
      ensures Lt(m[i].key, m[j].key)
    {
      if i == n {
        AboveLowerBound(ps, x.key, j - 1);
        LtTotal(x.key, ps[j - 1].key);
      }
    }
  }

  lemma SameKeySamePair(ps: seq<Pair>, p: Pair, q: Pair)
    requires Ascending(ps) && p in ps && q in ps && p.key == q.key
    ensures p == q
  {
    hide Lt;
    LtIrreflexive(p.key);
    var i :| 0 <= i < |ps| && ps[i] == p;
    var j :| 0 <= j < |ps| && ps[j] == q;
  }

  // ----- the split point -----

  function SplitFrom(ps: seq<Pair>, cap: nat, n: nat): (c: nat)
    requires n <= |ps|
    ensures n <= c <= |ps|
    ensures forall i | n <= i < c :: !HalfFull(Cost(ps[..i]), cap)
    ensures c < |ps| ==> HalfFull(Cost(ps[..c]), cap)
    decreases |ps| - n
  {
    if n == |ps| || HalfFull(Cost(ps[..n]), cap) then n else SplitFrom(ps, cap, n + 1)
  }

  /** The smallest number of pairs that is more than half a page: how many a split moves. */
  function SplitPoint(ps: seq<Pair>, cap: nat): (c: nat)
    ensures c <= |ps|
  {
    SplitFrom(ps, cap, 0)
  }

  /** The key a leaf split returns, if there is a split. */
  function Promoted(ps: seq<Pair>, x: Pair, cap: nat): Option<Bytes> {
    var m := SortedInsert(ps, x);
    if Cost(m) <= cap || SplitPoint(m, cap) == |m| then None else Some(m[SplitPoint(m, cap)].key)
  }

  lemma SplitPointUnique(ps: seq<Pair>, cap: nat, c: nat)
    requires c < |ps| && HalfFull(Cost(ps[..c]), cap)
    requires forall i | 0 <= i < c :: !HalfFull(Cost(ps[..i]), cap)
    ensures SplitPoint(ps, cap) == c
  {
  }

  /** A page that is not half full takes any pair that fits, and is then not overfull. */
  lemma NotHalfFullHasRoom(cost: nat, cap: nat, p: Pair)
    requires !HalfFull(cost, cap) && Fits(p, cap)
    ensures cost + POINTER_SIZE + PairSize(p) <= cap
  {
  }

  /** Up to the split point it is not more than half a page, and there it is if there are pairs left. */
  lemma SplitPointStops(ps: seq<Pair>, cap: nat, i: nat)
    requires i <= SplitPoint(ps, cap)
    ensures i < SplitPoint(ps, cap) ==> !HalfFull(Cost(ps[..i]), cap)
    ensures i == SplitPoint(ps, cap) < |ps| ==> HalfFull(Cost(ps[..i]), cap)
  {
  }

  /** One pair that fits is never more than half a page. */
  lemma SplitTakesTwo(ps: seq<Pair>, cap: nat)
    requires ps != [] && Fits(ps[0], cap)
    ensures SplitPoint(ps, cap) != 0
    ensures SplitPoint(ps, cap) == 1 ==> |ps| == 1
  {
    hide Cost, SplitPoint, PairSize;
    CostOfNone(ps);
    CostSnoc(ps, 0);
    var c := SplitPoint(ps, cap);
    if c <= 1 { SplitPointStops(ps, cap, c); }
  }

  /** What is moved fits on the new page. */
  lemma SplitNotTooFull(ps: seq<Pair>, cap: nat)
    requires SplitPoint(ps, cap) > 0 && Fits(ps[SplitPoint(ps, cap) - 1], cap)
    ensures Cost(ps[..SplitPoint(ps, cap)]) <= cap
  {
    hide Cost, SplitPoint, PairSize;
    var c := SplitPoint(ps, cap);
    SplitPointStops(ps, cap, c - 1);
    CostSnoc(ps, c - 1);
  }

  lemma NonEmptyCost(ps: seq<Pair>)
    ensures Cost(ps) > 0 ==> ps != []
  {
  }

  /** Pairs that do not fit on one page split into two parts that do, both with pairs in them and
      the first with two or more. */
  lemma SplitFits(ps: seq<Pair>, cap: nat)
    requires AllFit(ps, cap) && Cost(ps) > cap
    ensures var c := SplitPoint(ps, cap);
      && 2 <= c < |ps|
      && HalfFull(Cost(ps[..c]), cap) && Cost(ps[..c]) <= cap
      && Cost(ps[c..]) == Cost(ps) - Cost(ps[..c])
      && (2 * Cost(ps) <= 3 * cap ==> Cost(ps[c..]) <= cap)
  {
    hide Cost, SplitPoint, Fits;
    var c := SplitPoint(ps, cap);
    NonEmptyCost(ps);
    SplitTakesTwo(ps, cap);
    SplitNotTooFull(ps, cap);
    assert c < |ps| by { assert ps[..|ps|] == ps; }
    SplitPointStops(ps, cap, c);
    CostSplit(ps, c);
  }

  /** A page that is not half full after `n` pairs were moved off a page on which `p` did not fit has
      left pairs on that page. */
  lemma NotHalfFullLeavesPairs(ps: seq<Pair>, n: nat, p: Pair, cap: nat)
    requires Fits(p, cap) && n <= |ps|
    requires Cost(ps) + POINTER_SIZE + PairSize(p) > cap
    requires !HalfFull(Cost(ps[..n]), cap)
    ensures n < |ps|
  {
    assert ps[..|ps|] == ps;
  }

  /** The lower bound behind `n` smaller keys. */
  lemma LowerBoundFrom(ps: seq<Pair>, key: Bytes, n: nat)
    requires n <= |ps| && forall i | 0 <= i < n :: Lt(ps[i].key, key)
    ensures LowerBound(ps, key) == n + LowerBound(ps[n..], key)
  {
    LowerBoundUnique(ps, key, n + LowerBound(ps[n..], key));
  }

  lemma InsertBehind(ps: seq<Pair>, n: nat, k: nat, x: Pair)
    requires n <= k <= |ps|
    ensures InsertAt(ps, k, x)[..n] == ps[..n]
    ensures InsertAt(ps, k, x)[n..] == InsertAt(ps[n..], k - n, x)
  {
  }

  /** The split that has moved `n` smaller pairs when the new page is half full: the new pair belongs
      on the old page, has room there, and the new page is the front part of all pairs. */
  lemma SplitLeavesPairBehind(ps: seq<Pair>, n: nat, p: Pair, cap: nat)
    requires n <= |ps| && Fits(p, cap) && Cost(ps) <= cap
    requires forall i | 0 <= i < n :: Lt(ps[i].key, p.key) && !HalfFull(Cost(ps[..i]), cap)
    requires HalfFull(Cost(ps[..n]), cap)
    ensures Cost(ps[n..]) + POINTER_SIZE + PairSize(p) <= cap
    ensures var m := SortedInsert(ps, p);
      SplitPoint(m, cap) == n && m[..n] == ps[..n] && m[n..] == SortedInsert(ps[n..], p)
  {
    hide Cost, Lt, LowerBound, SplitPoint, ToBytes;
    CostSplit(ps, n);
    var k := LowerBound(ps, p.key);
    LowerBoundFrom(ps, p.key, n);
    InsertBehind(ps, n, k, p);
    var m := InsertAt(ps, k, p);
    forall i | 0 <= i < n
      ensures !HalfFull(Cost(m[..i]), cap)
    {
      InsertBehind(ps, i, k, p);
    }
    SplitPointUnique(m, cap, n);
  }

  /** The split that meets a larger key before the new page is half full: the new pair goes onto the
      new page, where it has room, and is the next of all pairs. */
  lemma SplitTakesPairAlong(ps: seq<Pair>, n: nat, p: Pair, cap: nat)
    requires n < |ps| && AllFit(ps, cap) && Fits(p, cap) && !Lt(ps[n].key, p.key)
    requires forall i | 0 <= i < n :: Lt(ps[i].key, p.key) && !HalfFull(Cost(ps[..i]), cap)
    requires !HalfFull(Cost(ps[..n]), cap)
    ensures Cost(ps[..n]) + POINTER_SIZE + PairSize(p) <= cap
    ensures var m := SortedInsert(ps, p);
      && |m| == |ps| + 1 && AllFit(m, cap) && Cost(m) == Cost(ps) + POINTER_SIZE + PairSize(p)
      && m[..n + 1] == ps[..n] + [p] && m[n + 1..] == ps[n..]
      && forall i | 0 <= i < n + 1 :: !HalfFull(Cost(m[..i]), cap)
  {
    hide Cost, Lt, LowerBound, ToBytes;
    LowerBoundUnique(ps, p.key, n);
    NotHalfFullHasRoom(Cost(ps[..n]), cap, p);
    CostInsertAt(ps, n, p);
    var m := InsertAt(ps, n, p);
    forall i | 0 <= i < n + 1
      ensures !HalfFull(Cost(m[..i]), cap)
    {
      InsertBehind(ps, i, n, p);
    }
  }

  lemma SuffixAscending(ps: seq<Pair>, n: nat, key: Bytes)
    requires Ascending(ps) && !HasKey(ps, key) && n <= |ps|
    ensures Ascending(ps[n..]) && !HasKey(ps[n..], key)
  {
  }
}
