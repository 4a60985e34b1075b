/** The layout of a slotted page body (src/slotted.rs): a table of 4-byte pointers growing from the
    front, data packed against the back, free space between them. Pure definitions, and what
    inserting, resizing and removing a pointer does to a layout. */
module SlottedLayout {
  import opened Bytes

  newtype u16 = x: int | 0 <= x < 0x1_0000

  const POINTER_SIZE := 4

  /** `n as u16`. */
  function Truncate16(n: int): (r: u16)
    ensures 0 <= n < 0x1_0000 ==> r as int == n
  {
    (n % 0x1_0000) as u16
  }

  datatype Pointer = Pointer(offset: u16, len: u16) {
    function Start(): nat { offset as nat }
    function End(): nat { offset as nat + len as nat }
  }

  /** A slotted page: the header fields and the bytes behind the header. */
  datatype Image = Image(numSlots: u16, freeSpaceOffset: u16, body: Bytes)

  // ----- pointers as bytes -----

  /** Pointer `k` of the table at the front of `body`; two little-endian 16-bit numbers. */
  function PointerAt(body: Bytes, k: nat): Pointer
    requires 4 * k + 4 <= |body|
  {
    Pointer((body[4 * k] as int + 256 * body[4 * k + 1] as int) as u16,
            (body[4 * k + 2] as int + 256 * body[4 * k + 3] as int) as u16)
  }

  function Low(x: u16): byte { (x as int % 256) as byte }

  function High(x: u16): byte { (x as int / 256) as byte }

  function Pointers(body: Bytes, n: nat): (ps: seq<Pointer>)
    requires 4 * n <= |body|
    ensures |ps| == n && forall k {:trigger ps[k]} | 0 <= k < n :: ps[k] == PointerAt(body, k)
  {
    seq(n, k requires 0 <= k < n => PointerAt(body, k))
  }

  /** The bytes after `copy_within(lo..hi, dest)`. */
  function Moved(b: Bytes, lo: nat, hi: nat, dest: nat): (m: Bytes)
    requires lo <= hi <= |b| && dest + (hi - lo) <= |b|
    ensures |m| == |b|
    ensures forall i {:trigger m[i]} | 0 <= i < |b| ::
              m[i] == if dest <= i < dest + (hi - lo) then b[lo + (i - dest)] else b[i]
  {
    seq(|b|, i requires 0 <= i < |b| => if dest <= i < dest + (hi - lo) then b[lo + (i - dest)] else b[i])
  }

  function PutPointer(b: Bytes, k: nat, p: Pointer): (r: Bytes)
    requires 4 * k + 4 <= |b|
    ensures |r| == |b| && PointerAt(r, k) == p
    ensures forall i {:trigger r[i]} | 0 <= i < |b| && !(4 * k <= i < 4 * k + 4) :: r[i] == b[i]
  {
    b[4 * k := Low(p.offset)][4 * k + 1 := High(p.offset)][4 * k + 2 := Low(p.len)][4 * k + 3 := High(p.len)]
  }

  /** Shifting the pointers from `index` on and writing a new one, seen one pointer at a time. */
  lemma InsertedPointer(b: Bytes, n: nat, index: nat, p: Pointer, k: nat)
    requires index <= n && 4 * (n + 1) <= |b| && k <= n
    ensures PointerAt(PutPointer(Moved(b, 4 * index, 4 * n, 4 * (index + 1)), index, p), k)
      == if k < index then PointerAt(b, k) else if k == index then p else PointerAt(b, k - 1)
  {
  }

  /** Shifting the pointers behind `index` down over it, seen one pointer at a time. */
  lemma RemovedPointer(b: Bytes, n: nat, index: nat, k: nat)
    requires index < n && 4 * n <= |b| && k < n - 1
    ensures PointerAt(Moved(b, 4 * (index + 1), 4 * n, 4 * index), k)
      == PointerAt(b, if k < index then k else k + 1)
  {
  }

  // ----- layouts -----

  function SumLen(ps: seq<Pointer>): nat {
    if ps == [] then 0 else ps[0].len as nat + SumLen(ps[1..])
  }

  ghost predicate Apart(p: Pointer, q: Pointer) {
    p.End() <= q.Start() || q.End() <= p.Start()
  }

  ghost predicate Bounds(ps: seq<Pointer>, lo: nat, hi: nat) {
    forall k | 0 <= k < |ps| :: lo <= ps[k].Start() && ps[k].End() <= hi
  }

  ghost predicate AllApart(ps: seq<Pointer>) {
    forall j, k {:trigger Apart(ps[j], ps[k])} | 0 <= j < |ps| && 0 <= k < |ps| && j != k :: Apart(ps[j], ps[k])
  }

  /** The extents lie behind the free space, do not overlap, and together are as long as everything
      behind the free space. `Tiling` below draws the conclusion. */
  ghost predicate Layout(ps: seq<Pointer>, free: nat, cap: nat) {
    && 4 * |ps| <= free <= cap < 0x1_0000
    && Bounds(ps, free, cap)
    && AllApart(ps)
    && SumLen(ps) == cap - free
  }

  lemma {:induction false} SumLenConcat(ps: seq<Pointer>, qs: seq<Pointer>)
    ensures SumLen(ps + qs) == SumLen(ps) + SumLen(qs)
  {
    if ps == [] {
      assert ps + qs == qs;
    } else {
      SumLenConcat(ps[1..], qs);
      assert (ps + qs)[1..] == ps[1..] + qs;
    }
  }

  lemma SumLenSplit(ps: seq<Pointer>, k: nat)
    requires k < |ps|
    ensures SumLen(ps) == SumLen(ps[..k]) + ps[k].len as nat + SumLen(ps[k + 1..])
  {
    assert ps == ps[..k] + ps[k..];
    SumLenConcat(ps[..k], ps[k..]);
    assert ps[k..][1..] == ps[k + 1..];
  }

  /** Sums only depend on the lengths. */
  lemma {:induction false} SumLenSame(ps: seq<Pointer>, qs: seq<Pointer>)
    requires |ps| == |qs| && forall k | 0 <= k < |ps| :: ps[k].len == qs[k].len
    ensures SumLen(ps) == SumLen(qs)
  {
    if ps != [] {
      SumLenSame(ps[1..], qs[1..]);
    }
  }

  // ----- insert -----

  /** The pointer table after `insert`: the new extent is taken from the end of the free space. */
  function Inserted(ps: seq<Pointer>, free: nat, index: nat, len: nat): seq<Pointer>
    requires index <= |ps| && len <= free < 0x1_0000
  {
    ps[..index] + [Pointer((free - len) as u16, len as u16)] + ps[index..]
  }

  lemma InsertKeepsApart(ps: seq<Pointer>, free: nat, cap: nat, index: nat, len: nat)
    requires Bounds(ps, free, cap) && AllApart(ps) && index <= |ps| && len <= free < 0x1_0000
    ensures AllApart(Inserted(ps, free, index, len))
  {
    var qs := Inserted(ps, free, index, len);
    forall j, k | 0 <= j < |qs| && 0 <= k < |qs| && j != k
      ensures Apart(qs[j], qs[k])
    {
      var j', k' := if j < index then j else j - 1, if k < index then k else k - 1;
      if j != index && k != index {
        assert qs[j] == ps[j'] && qs[k] == ps[k'] && Apart(ps[j'], ps[k']);
      } else if j != index {
        assert qs[j] == ps[j'] && ps[j'].Start() >= free;
      } else {
        assert qs[k] == ps[k'] && ps[k'].Start() >= free;
      }
    }
  }

  lemma InsertKeepsLayout(ps: seq<Pointer>, free: nat, cap: nat, index: nat, len: nat)
    requires Layout(ps, free, cap) && index <= |ps|
    requires 4 * |ps| + 4 + len <= free
    ensures Layout(Inserted(ps, free, index, len), free - len, cap)
  {
    var qs := Inserted(ps, free, index, len);
    assert Bounds(qs, free - len, cap);
    InsertKeepsApart(ps, free, cap, index, len);
    SumLenSplit(qs, index);
    assert ps == ps[..index] + ps[index..];
    SumLenConcat(ps[..index], ps[index..]);
    assert qs[..index] == ps[..index] && qs[index + 1..] == ps[index..];
  }

  // ----- resize -----

  /** What the loop over the pointers does to one of them. */
  function Shifted(p: Pointer, pivot: u16, incr: int): Pointer {
    if p.offset <= pivot then Pointer(Truncate16(p.offset as int - incr), p.len) else p
  }

  function ResizedAt(ps: seq<Pointer>, free: nat, index: nat, newLen: nat, k: nat): Pointer
    requires index < |ps| && k < |ps|
  {
    var incr := newLen - ps[index].len as int;
    var shifted := Shifted(ps[k], ps[index].offset, incr);
    if k != index then shifted
    else if newLen == 0 && incr != 0 then Pointer(Truncate16(free - incr), 0)
    else Pointer(shifted.offset, Truncate16(newLen))
  }

  /** The pointer table after a `resize` that goes through: everything at or below the resized
      extent moves by the difference, and the resized pointer gets its length. */
  function Resized(ps: seq<Pointer>, free: nat, index: nat, newLen: nat): (qs: seq<Pointer>)
    requires index < |ps|
    ensures |qs| == |ps|
    ensures forall k | 0 <= k < |qs| :: qs[k] == ResizedAt(ps, free, index, newLen, k)
  {
    seq(|ps|, k requires 0 <= k < |ps| => ResizedAt(ps, free, index, newLen, k))
  }

  /** Growing an empty slot that shares its offset with a neighbour holding data: the `<=` test
      then moves the neighbour's pointer although its data stays where it is. */
  ghost predicate Clash(ps: seq<Pointer>, index: nat, newLen: nat)
    requires index < |ps|
  {
    ps[index].len == 0 && newLen > 0 &&
    exists k | 0 <= k < |ps| :: k != index && ps[k].len > 0 && ps[k].offset == ps[index].offset
  }

  lemma ResizeKeepsApart(ps: seq<Pointer>, free: nat, cap: nat, index: nat, newLen: nat, j: nat, k: nat)
    requires Layout(ps, free, cap) && index < |ps| && j < |ps| && k < |ps| && j != k
    requires newLen - ps[index].len as int <= free - 4 * |ps|
    requires !Clash(ps, index, newLen)
    ensures Apart(ResizedAt(ps, free, index, newLen, j), ResizedAt(ps, free, index, newLen, k))
  {
    hide SumLen;
    assert Apart(ps[j], ps[k]);
    assert j != index ==> Apart(ps[j], ps[index]);
    assert k != index ==> Apart(ps[k], ps[index]);
  }

  lemma ResizeKeepsBounds(ps: seq<Pointer>, free: nat, cap: nat, index: nat, newLen: nat, k: nat)
    requires Layout(ps, free, cap) && index < |ps| && k < |ps|
    requires newLen - ps[index].len as int <= free - 4 * |ps|
    requires !Clash(ps, index, newLen)
    ensures var q := ResizedAt(ps, free, index, newLen, k);
      (free + ps[index].len as int) - newLen <= q.Start() && q.End() <= cap
  {
    assert k != index ==> Apart(ps[k], ps[index]);
    assert ps[k].Start() >= free && ps[index].Start() >= free;
  }

  lemma SumLenUpdate(ps: seq<Pointer>, qs: seq<Pointer>, index: nat)
    requires |ps| == |qs| && index < |ps|
    requires forall k | 0 <= k < |ps| && k != index :: ps[k].len == qs[k].len
    ensures SumLen(qs) == SumLen(ps) - ps[index].len as int + qs[index].len as int
  {
    SumLenSplit(ps, index);
    SumLenSplit(qs, index);
    SumLenSame(ps[..index], qs[..index]);
    SumLenSame(ps[index + 1..], qs[index + 1..]);
  }

  lemma ResizeWithoutClash(ps: seq<Pointer>, free: nat, cap: nat, index: nat, newLen: nat)
    requires Layout(ps, free, cap) && index < |ps|
    requires newLen - ps[index].len as int <= free - 4 * |ps|
    requires !Clash(ps, index, newLen)
    ensures Layout(Resized(ps, free, index, newLen), (free + ps[index].len as int) - newLen, cap)
  {
    var qs := Resized(ps, free, index, newLen);
    forall j, k | 0 <= j < |qs| && 0 <= k < |qs| && j != k
      ensures Apart(qs[j], qs[k])
    {
      ResizeKeepsApart(ps, free, cap, index, newLen, j, k);
    }
    assert Bounds(qs, (free + ps[index].len as int) - newLen, cap) by {
      forall k | 0 <= k < |qs|
        ensures (free + ps[index].len as int) - newLen <= qs[k].Start() && qs[k].End() <= cap
      {
        ResizeKeepsBounds(ps, free, cap, index, newLen, k);
      }
    }
    SumLenUpdate(ps, qs, index);
  }

  /** A resize yields a layout again exactly when there is no such neighbour. */
  lemma ResizeKeepsLayout(ps: seq<Pointer>, free: nat, cap: nat, index: nat, newLen: nat)
    requires Layout(ps, free, cap) && index < |ps|
    requires newLen - ps[index].len as int <= free - 4 * |ps|
    ensures Layout(Resized(ps, free, index, newLen), (free + ps[index].len as int) - newLen, cap)
      <==> !Clash(ps, index, newLen)
  {
    if Clash(ps, index, newLen) {
      var qs := Resized(ps, free, index, newLen);
      var k :| 0 <= k < |ps| && k != index && ps[k].len > 0 && ps[k].offset == ps[index].offset;
      assert !Apart(qs[k], qs[index]);
    } else {
      ResizeWithoutClash(ps, free, cap, index, newLen);
    }
  }

  // ----- remove -----

  function Removed(ps: seq<Pointer>, index: nat): seq<Pointer>
    requires index < |ps|
  {
    ps[..index] + ps[index + 1..]
  }

  /** An emptied slot can be taken out of the table. */
  lemma RemoveKeepsLayout(ps: seq<Pointer>, free: nat, cap: nat, index: nat)
    requires Layout(ps, free, cap) && index < |ps| && ps[index].len == 0
    ensures Layout(Removed(ps, index), free, cap)
  {
    var qs := Removed(ps, index);
    forall j, k | 0 <= j < |qs| && 0 <= k < |qs| && j != k
      ensures Apart(qs[j], qs[k])
    {
      var j', k' := if j < index then j else j + 1, if k < index then k else k + 1;
      assert qs[j] == ps[j'] && qs[k] == ps[k'] && Apart(ps[j'], ps[k']);
    }
    SumLenSplit(ps, index);
    SumLenConcat(ps[..index], ps[index + 1..]);
  }

  // ----- no fragmentation -----

  ghost predicate Covers(p: Pointer, b: int) {
    p.Start() <= b < p.End()
  }

  ghost function Extent(lo: nat, hi: nat): (s: set<int>)
    requires lo <= hi
    ensures forall b :: b in s <==> lo <= b < hi
    ensures |s| == hi - lo
    decreases hi - lo
  {
    if lo == hi then {} else {lo} + Extent(lo + 1, hi)
  }

  ghost function Covered(ps: seq<Pointer>): set<int> {
    if ps == [] then {} else Extent(ps[0].Start(), ps[0].End()) + Covered(ps[1..])
  }

  lemma {:induction false} CoveredSize(ps: seq<Pointer>)
    requires AllApart(ps)
    ensures |Covered(ps)| == SumLen(ps)
    ensures forall b :: b in Covered(ps) <==> exists k | 0 <= k < |ps| :: Covers(ps[k], b)
  {
    if ps != [] {
      var first, rest := Extent(ps[0].Start(), ps[0].End()), ps[1..];
      forall j, k | 0 <= j < |rest| && 0 <= k < |rest| && j != k
        ensures Apart(rest[j], rest[k])
      {
        assert Apart(ps[j + 1], ps[k + 1]);
      }
      CoveredSize(rest);
      forall b, k | b in first && 0 <= k < |rest|
        ensures !Covers(rest[k], b)
      {
        assert Apart(ps[0], ps[k + 1]);
      }
      assert first !! Covered(rest);
      forall b
        ensures b in Covered(ps) <==> exists k | 0 <= k < |ps| :: Covers(ps[k], b)
      {
        if b in first {
          assert Covers(ps[0], b);
        } else if k :| 0 <= k < |rest| && Covers(rest[k], b) {
          assert Covers(ps[k + 1], b);
        }
        if k :| 0 <= k < |ps| && Covers(ps[k], b) && b !in first {
          assert Covers(rest[k - 1], b);
        }
      }
    }
  }

  lemma SubsetOfSameSize(s: set<int>, t: set<int>)
    requires s <= t && |s| == |t|
    ensures s == t
  {
    assert |t - s| == |t| - |s|;
  }

  lemma CoveredIsExtent(ps: seq<Pointer>, free: nat, cap: nat)
    requires Layout(ps, free, cap)
    ensures Covered(ps) == Extent(free, cap)
  {
    CoveredSize(ps);
    var all := Extent(free, cap);
    forall b | b in Covered(ps)
      ensures b in all
    {
      var k :| 0 <= k < |ps| && Covers(ps[k], b);
    }
    SubsetOfSameSize(Covered(ps), all);
  }

  /** In a layout, every byte behind the free space belongs to exactly one slot: deleting and
      resizing never leave holes. */
  lemma Tiling(ps: seq<Pointer>, free: nat, cap: nat, b: int)
    requires Layout(ps, free, cap)
    ensures free <= b < cap <==> exists k | 0 <= k < |ps| :: Covers(ps[k], b)
    ensures forall j, k | 0 <= j < |ps| && 0 <= k < |ps| && Covers(ps[j], b) && Covers(ps[k], b) :: j == k
  {
    assert b in Extent(free, cap) <==> free <= b < cap;
    CoveredIsExtent(ps, free, cap);
    assert b in Covered(ps) <==> exists k | 0 <= k < |ps| :: Covers(ps[k], b) by {
      CoveredSize(ps);
    }
    forall j, k | 0 <= j < |ps| && 0 <= k < |ps| && Covers(ps[j], b) && Covers(ps[k], b)
      ensures j == k
    {
      assert j != k ==> Apart(ps[j], ps[k]);
    }
  }
}
