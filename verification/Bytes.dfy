/** Byte strings and the order Rust's `Ord for [u8]` gives them: the order in which
    the B+tree keeps its keys. */
module Bytes {

  newtype byte = x: int | 0 <= x < 256

  type Bytes = seq<byte>

  function Zeros(n: nat): (z: Bytes)
    ensures |z| == n && forall i | 0 <= i < n :: z[i] == 0
  {
    seq(n, _ => 0)
  }

  datatype Option<+T> = None | Some(value: T)

  datatype Ordering = Less | Equal | Greater

  /** Strict lexicographic order. */
  predicate Lt(a: Bytes, b: Bytes) {
    b != [] && (a == [] || a[0] < b[0] || (a[0] == b[0] && Lt(a[1..], b[1..])))
  }

  predicate Le(a: Bytes, b: Bytes) {
    a == b || Lt(a, b)
  }

  /** `a.cmp(b)` on byte slices. */
  function Compare(a: Bytes, b: Bytes): Ordering {
    if a == b then Equal else if Lt(a, b) then Less else Greater
  }

  lemma {:induction false} LtIrreflexive(a: Bytes)
    ensures !Lt(a, a)
  {
    if a != [] {
      LtIrreflexive(a[1..]);
    }
  }

  lemma {:induction false} LtTransitive(a: Bytes, b: Bytes, c: Bytes)
    requires Lt(a, b) && Lt(b, c)
    ensures Lt(a, c)
  {
    if a != [] && a[0] == b[0] == c[0] {
      LtTransitive(a[1..], b[1..], c[1..]);
    }
  }

  lemma {:induction false} LtTotal(a: Bytes, b: Bytes)
    ensures a == b || Lt(a, b) || Lt(b, a)
  {
    if a != [] && b != [] && a[0] == b[0] {
      LtTotal(a[1..], b[1..]);
      assert a == [a[0]] + a[1..] && b == [b[0]] + b[1..];
    }
  }

  lemma LtAsymmetric(a: Bytes, b: Bytes)
    requires Lt(a, b)
    ensures !Lt(b, a) && a != b
  {
    LtIrreflexive(a);
    if Lt(b, a) {
      LtTransitive(a, b, a);
    }
  }

  /** `Lt` is a strict total order. */
  ghost predicate StrictTotalOrder() {
    && (forall a :: !Lt(a, a))
    && (forall a, b, c :: Lt(a, b) && Lt(b, c) ==> Lt(a, c))
    && (forall a, b :: a == b || Lt(a, b) || Lt(b, a))
  }

  lemma LtIsStrictTotalOrder()
    ensures StrictTotalOrder()
  {
    forall a ensures !Lt(a, a) { LtIrreflexive(a); }
    forall a, b, c | Lt(a, b) && Lt(b, c) ensures Lt(a, c) { LtTransitive(a, b, c); }
    forall a, b ensures a == b || Lt(a, b) || Lt(b, a) { LtTotal(a, b); }
  }

  /** A common prefix does not matter. */
  lemma {:induction false} LtCommonPrefix(p: Bytes, a: Bytes, b: Bytes)
    ensures Lt(p + a, p + b) == Lt(a, b)
  {
    if p == [] {
      assert p + a == a && p + b == b;
    } else {
      LtCommonPrefix(p[1..], a, b);
      assert (p + a)[1..] == p[1..] + a && (p + b)[1..] == p[1..] + b;
    }
  }

  /** What follows two different blocks of one length does not matter. */
  lemma {:induction false} LtDifferentBlocks(p: Bytes, q: Bytes, a: Bytes, b: Bytes)
    requires |p| == |q| && p != q
    ensures Lt(p + a, q + b) == Lt(p, q)
  {
    assert p == [p[0]] + p[1..] && q == [q[0]] + q[1..];
    if p[0] == q[0] {
      LtDifferentBlocks(p[1..], q[1..], a, b);
      assert (p + a)[1..] == p[1..] + a && (q + b)[1..] == q[1..] + b;
    }
  }

  /** The last byte decides between blocks that agree before it. */
  lemma LtLastByte(p: Bytes, x: byte, y: byte)
    ensures Lt(p + [x], p + [y]) == (x < y)
  {
    LtCommonPrefix(p, [x], [y]);
  }
}
