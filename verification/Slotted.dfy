/** src/slotted.rs: records of different lengths in one byte array. The specification is the
    sequence of the records; the pointers live in the same array as the data they point to. */
module SlottedPage {
  import opened Bytes
  import opened SlottedLayout

  function Slot(body: Bytes, p: Pointer): Bytes
    requires p.End() <= |body|
  {
    body[p.Start()..p.End()]
  }

  /** The records a pointer table names. */
  function Records(body: Bytes, ps: seq<Pointer>): (s: seq<Bytes>)
    requires Bounds(ps, 0, |body|)
    ensures |s| == |ps| && forall k | 0 <= k < |ps| :: s[k] == Slot(body, ps[k])
  {
    seq(|ps|, k requires 0 <= k < |ps| => Slot(body, ps[k]))
  }

  function Table(img: Image): seq<Pointer>
    requires 4 * img.numSlots as nat <= |img.body|
  {
    Pointers(img.body, img.numSlots as nat)
  }

  ghost predicate ValidImage(img: Image) {
    4 * img.numSlots as nat <= |img.body| && Layout(Table(img), img.freeSpaceOffset as nat, |img.body|)
  }

  /** The records of a page. */
  function Slots(img: Image): (s: seq<Bytes>)
    requires ValidImage(img)
    ensures |s| == img.numSlots as nat
    ensures forall k | 0 <= k < |s| :: |s[k]| == PointerAt(img.body, k).len as nat
  {
    Records(img.body, Table(img))
  }

  /** Where record `k` is: the bytes say it at `4 * k`, offset and then length, least significant byte
      first. */
  lemma RecordBytes(img: Image, k: nat)
    requires ValidImage(img) && k < img.numSlots as nat
    ensures var b := img.body;
      var offset, len := b[4 * k] as int + 256 * b[4 * k + 1] as int, b[4 * k + 2] as int + 256 * b[4 * k + 3] as int;
      4 * img.numSlots as int <= offset <= offset + len <= |b| && Slots(img)[k] == b[offset..offset + len]
  {
    assert Table(img)[k] == PointerAt(img.body, k);
  }

  /** Extents behind `from` read the same from arrays that agree behind `from`. */
  lemma SameRecords(b: Bytes, b': Bytes, from: nat, ps: seq<Pointer>)
    requires |b| == |b'| && Bounds(ps, from, |b|)
    requires forall i {:trigger b'[i]} | from <= i < |b| :: b'[i] == b[i]
    ensures Records(b, ps) == Records(b', ps)
  {
    forall k | 0 <= k < |ps|
      ensures Slot(b, ps[k]) == Slot(b', ps[k])
    {
    }
  }

  /** What records cost on a page: their bytes and a pointer each. */
  function Used(s: seq<Bytes>): nat {
    if s == [] then 0 else POINTER_SIZE + |s[0]| + Used(s[1..])
  }

  lemma {:induction false} UsedConcat(s: seq<Bytes>, t: seq<Bytes>)
    ensures Used(s + t) == Used(s) + Used(t)
  {
    if s == [] {
      assert s + t == t;
    } else {
      UsedConcat(s[1..], t);
      assert (s + t)[1..] == s[1..] + t;
    }
  }

  lemma {:induction false} UsedIsSumLen(s: seq<Bytes>, ps: seq<Pointer>)
    requires |s| == |ps| && forall k | 0 <= k < |s| :: |s[k]| == ps[k].len as nat
    ensures Used(s) == 4 * |s| + SumLen(ps)
  {
    if s != [] {
      UsedIsSumLen(s[1..], ps[1..]);
    }
  }

  /** Space conservation: what is free and what is used add up to the capacity. */
  lemma SpaceConserved(img: Image)
    requires ValidImage(img)
    ensures img.freeSpaceOffset as nat - 4 * img.numSlots as nat + Used(Slots(img)) == |img.body|
  {
    UsedIsSumLen(Slots(img), Pointers(img.body, img.numSlots as nat));
  }

  lemma SamePointers(b: Bytes, b': Bytes, n: nat)
    requires 4 * n <= |b| == |b'| && forall i {:trigger b'[i]} | 0 <= i < 4 * n :: b'[i] == b[i]
    ensures Pointers(b, n) == Pointers(b', n)
  {
  }

  // ----- insert -----

  function InsertImage(img: Image, index: nat, len: nat): Image
    requires ValidImage(img) && index <= img.numSlots as nat
    requires 4 * img.numSlots as nat + 4 + len <= img.freeSpaceOffset as nat
  {
    var n, free := img.numSlots as nat, img.freeSpaceOffset as nat;
    Image(img.numSlots + 1, (free - len) as u16,
          PutPointer(Moved(img.body, 4 * index, 4 * n, 4 * (index + 1)), index,
                     Pointer((free - len) as u16, len as u16)))
  }

  lemma InsertedTable(b: Bytes, n: nat, free: nat, index: nat, len: nat)
    requires index <= n && 4 * (n + 1) <= |b| && len <= free < 0x1_0000
    ensures var p := Pointer((free - len) as u16, len as u16);
      Pointers(PutPointer(Moved(b, 4 * index, 4 * n, 4 * (index + 1)), index, p), n + 1)
      == Inserted(Pointers(b, n), free, index, len)
  {
    hide PutPointer, Moved, PointerAt;
    forall k | 0 <= k < n + 1 {
      InsertedPointer(b, n, index, Pointer((free - len) as u16, len as u16), k);
    }
  }

  /** A page whose table is a layout and whose data area is that of `b`. */
  lemma ImageFromTable(img: Image, b: Bytes, ps: seq<Pointer>)
    requires 4 * img.numSlots as nat <= |img.body| == |b| && Table(img) == ps
    requires Layout(ps, img.freeSpaceOffset as nat, |b|)
    requires forall i {:trigger img.body[i]} | 4 * |ps| <= i < |b| :: img.body[i] == b[i]
    ensures ValidImage(img) && Slots(img) == Records(b, ps)
  {
    hide PointerAt, AllApart, SumLen;
    SameRecords(b, img.body, 4 * |ps|, ps);
  }

  lemma RecordsInserted(b: Bytes, ps: seq<Pointer>, free: nat, index: nat, len: nat)
    requires Bounds(ps, 0, |b|) && index <= |ps| && len <= free <= |b| < 0x1_0000
    ensures Bounds(Inserted(ps, free, index, len), 0, |b|)
    ensures Records(b, Inserted(ps, free, index, len))
      == Records(b, ps)[..index] + [b[free - len..free]] + Records(b, ps)[index..]
  {
  }

  lemma InsertImageRefines(img: Image, index: nat, len: nat)
    requires ValidImage(img) && index <= img.numSlots as nat
    requires 4 * img.numSlots as nat + 4 + len <= img.freeSpaceOffset as nat
    ensures ValidImage(InsertImage(img, index, len))
    ensures Slots(InsertImage(img, index, len))
      == Slots(img)[..index] + [img.body[img.freeSpaceOffset as nat - len..img.freeSpaceOffset as nat]]
         + Slots(img)[index..]
  {
    hide PutPointer, Moved, PointerAt, AllApart, SumLen;
    var n, free := img.numSlots as nat, img.freeSpaceOffset as nat;
    var ps := Table(img);
    InsertKeepsLayout(ps, free, |img.body|, index, len);
    InsertedTable(img.body, n, free, index, len);
    ImageFromTable(InsertImage(img, index, len), img.body, Inserted(ps, free, index, len));
    RecordsInserted(img.body, ps, free, index, len);
  }

  // ----- writing into a slot -----

  function WriteImage(img: Image, index: nat, data: Bytes): Image
    requires ValidImage(img) && index < img.numSlots as nat
    requires |data| == PointerAt(img.body, index).len as nat
  {
    var p := PointerAt(img.body, index);
    assert Pointers(img.body, img.numSlots as nat)[index].End() <= |img.body|;
    img.(body := img.body[..p.Start()] + data + img.body[p.End()..])
  }

  lemma WrittenElsewhere(b: Bytes, p: Pointer, data: Bytes, q: Pointer)
    requires p.End() <= |b| && q.End() <= |b| && |data| == p.len as nat && Apart(q, p)
    ensures |b[..p.Start()] + data + b[p.End()..]| == |b|
    ensures Slot(b[..p.Start()] + data + b[p.End()..], q) == Slot(b, q)
  {
  }

  lemma WriteImageRefines(img: Image, index: nat, data: Bytes)
    requires ValidImage(img) && index < img.numSlots as nat
    requires |data| == PointerAt(img.body, index).len as nat
    ensures ValidImage(WriteImage(img, index, data))
    ensures Slots(WriteImage(img, index, data)) == Slots(img)[index := data]
  {
    var n, b, b' := img.numSlots as nat, img.body, WriteImage(img, index, data).body;
    hide PointerAt, SumLen;
    var ps := Table(img);
    assert ps[index].Start() >= 4 * n;
    SamePointers(b, b', n);
    forall k | 0 <= k < n
      ensures Slot(b', ps[k]) == if k == index then data else Slot(b, ps[k])
    {
      if k != index {
        assert Apart(ps[k], ps[index]);
        WrittenElsewhere(b, ps[index], data, ps[k]);
      }
    }
  }

  // ----- remove -----

  /** Taking pointer `index` out of the table. */
  function RemoveImage(img: Image, index: nat): Image
    requires ValidImage(img) && index < img.numSlots as nat
  {
    Image(img.numSlots - 1, img.freeSpaceOffset,
          Moved(img.body, 4 * (index + 1), 4 * img.numSlots as nat, 4 * index))
  }

  lemma RemovedTable(b: Bytes, n: nat, index: nat)
    requires index < n && 4 * n <= |b|
    ensures Pointers(Moved(b, 4 * (index + 1), 4 * n, 4 * index), n - 1) == Removed(Pointers(b, n), index)
  {
    hide Moved, PointerAt;
    forall k | 0 <= k < n - 1 {
      RemovedPointer(b, n, index, k);
    }
  }

  lemma RemoveImageRefines(img: Image, index: nat)
    requires ValidImage(img) && index < img.numSlots as nat && Slots(img)[index] == []
    ensures ValidImage(RemoveImage(img, index))
    ensures Slots(RemoveImage(img, index)) == Slots(img)[..index] + Slots(img)[index + 1..]
  {
    hide Moved, PointerAt, AllApart, SumLen;
    var ps := Table(img);
    assert ps[index].len as nat == |Slots(img)[index]|;
    RemoveKeepsLayout(ps, img.freeSpaceOffset as nat, |img.body|, index);
    RemovedTable(img.body, img.numSlots as nat, index);
    var b := RemoveImage(img, index).body;
    ImageFromTable(RemoveImage(img, index), b, Removed(ps, index));
    SameRecords(img.body, b, 4 * img.numSlots as nat, Removed(ps, index));
  }

  /** The records after a resize: the resized one keeps its last bytes, every other one all of them. */
  ghost predicate SlotsResized(s: seq<Bytes>, s': seq<Bytes>, index: nat, newLen: nat) {
    && index < |s| == |s'|
    && (forall k | 0 <= k < |s| && k != index :: s'[k] == s[k])
    && |s'[index]| == newLen
    && (newLen >= |s[index]| ==> s'[index][newLen - |s[index]|..] == s[index])
    && (newLen <= |s[index]| ==> s'[index] == s[index][|s[index]| - newLen..])
  }

  lemma RemoveEmptied(before: seq<Bytes>, img: Image, index: nat)
    requires ValidImage(img) && SlotsResized(before, Slots(img), index, 0)
    ensures ValidImage(RemoveImage(img, index))
    ensures Slots(RemoveImage(img, index)) == before[..index] + before[index + 1..]
  {
    RemoveImageRefines(img, index);
    assert Slots(img)[..index] == before[..index] && Slots(img)[index + 1..] == before[index + 1..];
  }

  // ----- resize -----

  /** `img'` is what a resize that goes through makes of `img`: the data below the record is moved,
      the pointers are adjusted. */
  ghost predicate IsResized(img: Image, img': Image, index: nat, newLen: nat)
    requires ValidImage(img) && index < img.numSlots as nat
    requires newLen - Table(img)[index].len as int <= img.freeSpaceOffset as nat - 4 * img.numSlots as nat
  {
    var ps, free := Table(img), img.freeSpaceOffset as nat;
    assert free <= ps[index].Start() && ps[index].End() <= |img.body|;
    && |img'.body| == |img.body| && img'.numSlots == img.numSlots
    && img'.freeSpaceOffset as int == free + ps[index].len as int - newLen
    && Table(img') == Resized(ps, free, index, newLen)
    && forall i | 4 * img.numSlots as nat <= i < |img.body| ::
         img'.body[i] == Moved(img.body, free, ps[index].Start(), img'.freeSpaceOffset as nat)[i]
  }

  lemma PutPointerElsewhere(b: Bytes, index: nat, p: Pointer, k: nat)
    requires 4 * index + 4 <= |b| && 4 * k + 4 <= |b| && k != index
    ensures PointerAt(PutPointer(b, index, p), k) == PointerAt(b, k)
  {
  }

  lemma ResizedTable(ps: seq<Pointer>, b: Bytes, free: nat, index: nat, newLen: nat)
    requires 4 * |ps| <= |b| && index < |ps| && newLen != ps[index].len as nat
    requires forall k | 0 <= k < |ps| ::
               PointerAt(b, k) == Shifted(ps[k], ps[index].offset, newLen - ps[index].len as int)
    ensures var incr := newLen - ps[index].len as int;
      var p := Pointer(if newLen == 0 then Truncate16(free - incr) else PointerAt(b, index).offset, Truncate16(newLen));
      Pointers(PutPointer(b, index, p), |ps|) == Resized(ps, free, index, newLen)
  {
    hide PutPointer, PointerAt;
    var incr := newLen - ps[index].len as int;
    var p := Pointer(if newLen == 0 then Truncate16(free - incr) else PointerAt(b, index).offset, Truncate16(newLen));
    forall k | 0 <= k < |ps| && k != index {
      PutPointerElsewhere(b, index, p, k);
    }
  }

  /** An extent below `pivot` is read back where it has moved to, one above `pivot` where it was. */
  lemma SlotMoved(b: Bytes, b': Bytes, from: nat, free: nat, free': nat, pivot: Pointer, p: Pointer, p': Pointer)
    requires |b| == |b'| && from <= free <= pivot.Start() && pivot.End() <= |b|
    requires from <= free' <= free + pivot.len as nat
    requires forall i | from <= i < |b| :: b'[i] == Moved(b, free, pivot.Start(), free')[i]
    requires p'.len == p.len && free <= p.Start() && p.End() <= |b| && free' <= p'.Start() && p'.End() <= |b|
    requires || p.len == 0
             || (p.End() <= pivot.Start() && p'.Start() - free' == p.Start() - free)
             || (pivot.End() <= p.Start() && p' == p)
    ensures Slot(b', p') == Slot(b, p)
  {
  }

  lemma OtherRecordKept(img: Image, img': Image, index: nat, newLen: nat, k: nat)
    requires ValidImage(img) && index < img.numSlots as nat
    requires newLen - Table(img)[index].len as int <= img.freeSpaceOffset as nat - 4 * img.numSlots as nat
    requires IsResized(img, img', index, newLen)
    requires ValidImage(img') && !Clash(Table(img), index, newLen)
    requires k < img.numSlots as nat && k != index
    ensures Slots(img')[k] == Slots(img)[k]
  {
    var ps := Table(img);
    assert Apart(ps[k], ps[index]) && ps[k].Start() >= img.freeSpaceOffset as nat;
    assert Table(img')[k] == ResizedAt(ps, img.freeSpaceOffset as nat, index, newLen, k);
    assert Table(img')[k].Start() >= img'.freeSpaceOffset as nat;
    SlotMoved(img.body, img'.body, 4 * img.numSlots as nat, img.freeSpaceOffset as nat, img'.freeSpaceOffset as nat,
              ps[index], ps[k], Table(img')[k]);
  }

  /** The resized extent still ends where it did, or is empty. */
  lemma SlotResized(b: Bytes, b': Bytes, from: nat, free: nat, free': nat, p: Pointer, p': Pointer)
    requires |b| == |b'| && from <= free <= p.Start() && p.End() <= |b|
    requires from <= free' && free' - free == p.len as int - p'.len as int
    requires forall i | from <= i < |b| :: b'[i] == Moved(b, free, p.Start(), free')[i]
    requires p'.len == 0 || p'.End() == p.End()
    requires p'.End() <= |b|
    ensures var s, s' := Slot(b, p), Slot(b', p');
      && |s'| == p'.len as nat
      && (|s'| >= |s| ==> s'[|s'| - |s|..] == s)
      && (|s'| <= |s| ==> s' == s[|s| - |s'|..])
  {
  }

  lemma ResizedRecord(img: Image, img': Image, index: nat, newLen: nat)
    requires ValidImage(img) && index < img.numSlots as nat
    requires newLen - Table(img)[index].len as int <= img.freeSpaceOffset as nat - 4 * img.numSlots as nat
    requires IsResized(img, img', index, newLen)
    requires ValidImage(img') && !Clash(Table(img), index, newLen)
    ensures var s, s' := Slots(img)[index], Slots(img')[index];
      && |s'| == newLen
      && (newLen >= |s| ==> s'[newLen - |s|..] == s)
      && (newLen <= |s| ==> s' == s[|s| - newLen..])
  {
    var ps := Table(img);
    assert Table(img')[index] == ResizedAt(ps, img.freeSpaceOffset as nat, index, newLen, index);
    assert ps[index].Start() >= img.freeSpaceOffset as nat;
    assert Table(img')[index].End() <= |img.body|;
    SlotResized(img.body, img'.body, 4 * img.numSlots as nat, img.freeSpaceOffset as nat, img'.freeSpaceOffset as nat,
                ps[index], Table(img')[index]);
  }

  lemma ResizeImageRefines(img: Image, img': Image, index: nat, newLen: nat)
    requires ValidImage(img) && index < img.numSlots as nat
    requires newLen - Table(img)[index].len as int <= img.freeSpaceOffset as nat - 4 * img.numSlots as nat
    requires IsResized(img, img', index, newLen)
    ensures ValidImage(img') <==> !Clash(Table(img), index, newLen)
    ensures ValidImage(img') ==> SlotsResized(Slots(img), Slots(img'), index, newLen)
  {
    hide PointerAt, SumLen, AllApart, Bounds;
    ResizeKeepsLayout(Table(img), img.freeSpaceOffset as nat, |img.body|, index, newLen);
    if ValidImage(img') {
      forall k | 0 <= k < img.numSlots as nat && k != index
        ensures Slots(img')[k] == Slots(img)[k]
      {
        OtherRecordKept(img, img', index, newLen, k);
      }
      ResizedRecord(img, img', index, newLen);
    }
  }

  /** Resizing a record that holds data is safe. */
  lemma NonEmptySlotsNeverClash(img: Image, index: nat, newLen: nat)
    requires ValidImage(img) && index < img.numSlots as nat
    requires Slots(img)[index] != []
    ensures !Clash(Table(img), index, newLen)
  {
    assert |Slots(img)[index]| == PointerAt(img.body, index).len as nat;
  }

  class Slotted {
    var numSlots: u16
    var freeSpaceOffset: u16
    const body: array<byte>

    function ToImage(): Image
      reads this, body
    {
      Image(numSlots, freeSpaceOffset, body[..])
    }

    ghost predicate Valid()
      reads this, body
    {
      ValidImage(ToImage())
    }

    /** The records, by slot number; `slotted[index]` is `Contents()[index]`. */
    function Contents(): (s: seq<Bytes>)
      reads this, body
      requires Valid()
    {
      Slots(ToImage())
    }

    /** The view of a page's bytes. */
    constructor (img: Image)
      ensures ToImage() == img && fresh(body)
    {
      numSlots, freeSpaceOffset := img.numSlots, img.freeSpaceOffset;
      var a := new byte[|img.body|];
      forall i | 0 <= i < a.Length {
        a[i] := img.body[i];
      }
      body := a;
    }

    function Capacity(): nat { body.Length }

    function FreeSpace(): (f: nat)
      reads this, body
      requires Valid()
      ensures f + Used(Contents()) == Capacity()
    {
      SpaceConserved(ToImage());
      freeSpaceOffset as nat - POINTER_SIZE * numSlots as nat
    }

    /** A body of 2^16 bytes or more does not fit the 16-bit offset. */
    method Initialize()
      modifies this
      ensures Valid() <==> Capacity() < 0x1_0000
      ensures Valid() ==> Contents() == [] && numSlots == 0 && freeSpaceOffset as nat == Capacity()
    {
      numSlots := 0;
      freeSpaceOffset := Truncate16(body.Length);
    }

    method CopyWithin(lo: nat, hi: nat, dest: nat)
      requires lo <= hi <= body.Length && dest + (hi - lo) <= body.Length
      modifies body
      ensures body[..] == Moved(old(body[..]), lo, hi, dest)
    {
      forall i | 0 <= i < hi - lo {
        body[dest + i] := body[lo + i];
      }
    }

    method WritePointer(k: nat, p: Pointer)
      requires 4 * k + 4 <= body.Length
      modifies body
      ensures body[..] == PutPointer(old(body[..]), k, p)
    {
      body[4 * k] := Low(p.offset);
      body[4 * k + 1] := High(p.offset);
      body[4 * k + 2] := Low(p.len);
      body[4 * k + 3] := High(p.len);
    }

    /** Room for a record of `len` bytes at `index`. It is refused exactly when the records, the new
        one and the pointers do not fit together; nothing is ever lost to fragmentation. */
    method Insert(index: nat, len: nat) returns (ok: bool)
      requires Valid() && index <= |Contents()|
      modifies this, body
      ensures Valid()
      ensures ok <==> Used(old(Contents())) + POINTER_SIZE + len <= Capacity()
      ensures !ok ==> ToImage() == old(ToImage())
      ensures ok ==> |Contents()| == |old(Contents())| + 1 && |Contents()[index]| == len
      ensures ok ==> Contents() == old(Contents())[..index] + [Contents()[index]] + old(Contents())[index..]
      ensures ok ==> numSlots == old(numSlots) + 1 && len <= old(freeSpaceOffset as nat) == freeSpaceOffset as nat + len
      ensures ok ==> Table(ToImage()) == Inserted(old(Table(ToImage())), old(freeSpaceOffset as nat), index, len)
    {
      hide PutPointer, Moved, PointerAt, AllApart, SumLen, Slots, Used;
      if FreeSpace() < POINTER_SIZE + len {
        return false;
      }
      ghost var img := ToImage();
      var numSlotsOrig := numSlots as nat;
      freeSpaceOffset := freeSpaceOffset - Truncate16(len);
      numSlots := numSlots + 1;
      CopyWithin(POINTER_SIZE * index, POINTER_SIZE * numSlotsOrig, POINTER_SIZE * (index + 1));
      WritePointer(index, Pointer(freeSpaceOffset, Truncate16(len)));
      ok := true;
      assert ToImage() == InsertImage(img, index, len);
      InsertImageRefines(img, index, len);
      InsertedTable(img.body, numSlotsOrig, img.freeSpaceOffset as nat, index, len);
    }

    /** `slotted[index].copy_from_slice(data)`. */
    method Write(index: nat, data: Bytes)
      requires Valid() && index < |Contents()| && |data| == |Contents()[index]|
      modifies body
      ensures Valid() && Contents() == old(Contents())[index := data]
    {
      ghost var img := ToImage();
      var p := PointerAt(body[..], index);
      assert Pointers(img.body, img.numSlots as nat)[index].End() <= |img.body|;
      forall i | 0 <= i < |data| {
        body[p.Start() + i] := data[i];
      }
      assert ToImage() == WriteImage(img, index, data);
      WriteImageRefines(img, index, data);
    }

    /** Refused exactly when growing needs more than the free space. Otherwise the page is a valid
        one again, with every other record intact, exactly when there is no clash. */
    method Resize(index: nat, lenNew: nat) returns (ok: bool)
      requires Valid() && index < |Contents()|
      modifies this, body
      ensures ok <==> lenNew - |old(Contents())[index]| <= old(FreeSpace())
      ensures !ok ==> ToImage() == old(ToImage())
      ensures ok ==> numSlots == old(numSlots)
      ensures ok ==> (Valid() <==> !old(Clash(Table(ToImage()), index, lenNew)))
      ensures ok && Valid() ==> SlotsResized(old(Contents()), Contents(), index, lenNew)
    {
      hide Moved, AllApart, SumLen, Resized;
      ghost var img := ToImage();
      var lenIncr := lenNew - PointerAt(body[..], index).len as int;
      if lenIncr == 0 {
        ok := true;
        return;
      }
      if lenIncr > FreeSpace() {
        return false;
      }
      ApplyResize(index, lenNew);
      ok := true;
      ResizeImageRefines(img, ToImage(), index, lenNew);
    }

    /** The second half of `resize`: move the data, adjust the pointers. */
    method ApplyResize(index: nat, lenNew: nat)
      requires Valid() && index < numSlots as nat
      requires Table(ToImage())[index].len as nat != lenNew
      requires lenNew - Table(ToImage())[index].len as int <= freeSpaceOffset as nat - 4 * numSlots as nat
      modifies this, body
      ensures IsResized(old(ToImage()), ToImage(), index, lenNew)
    {
      hide PutPointer, PointerAt, AllApart, SumLen, Resized;
      ghost var b := body[..];
      ghost var ps := Table(ToImage());
      var target := PointerAt(body[..], index);
      assert ps[index] == target && freeSpaceOffset as nat <= target.Start() && target.End() <= body.Length;
      var lenIncr := lenNew - target.len as int;
      var free := freeSpaceOffset as nat;
      var freeNew := free - lenIncr;
      freeSpaceOffset := Truncate16(freeNew);
      CopyWithin(free, target.offset as nat, freeNew);
      SamePointers(b, body[..], numSlots as nat);
      ShiftPointers(target.offset, lenIncr);
      ResizedTable(ps, body[..], free, index, lenNew);
      var p := PointerAt(body[..], index);
      WritePointer(index, Pointer(if lenNew == 0 then Truncate16(freeNew) else p.offset, Truncate16(lenNew)));
    }

    /** The loop of `resize` over all pointers. */
    method ShiftPointers(pivot: u16, incr: int)
      requires 4 * numSlots as nat <= body.Length
      modifies body
      ensures forall j | 0 <= j < numSlots as nat ::
                PointerAt(body[..], j) == Shifted(old(PointerAt(body[..], j)), pivot, incr)
      ensures forall i | 4 * numSlots as nat <= i < body.Length :: body[i] == old(body[i])
    {
      var n := numSlots as nat;
      ghost var b := body[..];
      var k := 0;
      while k < n
        invariant 0 <= k <= n
        invariant forall i | 4 * n <= i < body.Length :: body[i] == b[i]
        invariant forall j | 0 <= j < n ::
                    PointerAt(body[..], j) == if j < k then Shifted(PointerAt(b, j), pivot, incr) else PointerAt(b, j)
      {
        var p := PointerAt(body[..], k);
        if p.offset <= pivot {
          WritePointer(k, Pointer(Truncate16(p.offset as int - incr), p.len));
        }
        k := k + 1;
      }
    }

    /** Deleting a record. */
    method Remove(index: nat)
      requires Valid() && index < |Contents()|
      modifies this, body
      ensures Valid()
      ensures Contents() == old(Contents())[..index] + old(Contents())[index + 1..]
    {
      hide Moved, PointerAt, AllApart, SumLen, Slots;
      ghost var before := Contents();
      var _ := Resize(index, 0);
      ghost var img := ToImage();
      CopyWithin(POINTER_SIZE * (index + 1), POINTER_SIZE * numSlots as nat, POINTER_SIZE * index);
      numSlots := numSlots - 1;
      assert ToImage() == RemoveImage(img, index);
      RemoveEmptied(before, img, index);
    }
  }

  lemma NothingUsed(s: seq<Bytes>)
    ensures s == [] ==> Used(s) == 0
  {
  }

  lemma OneUsed(s: seq<Bytes>)
    requires |s| == 1
    ensures Used(s) == POINTER_SIZE + |s[0]|
  {
    assert s[1..] == [];
  }

  /** The case the code gets wrong: one byte, an empty record in front of it, and then that one grows. No
      operation refuses, and the page is not a valid one afterwards. */
  method GrowEmptySlot() returns (s: Slotted)
    ensures fresh(s) && s.Capacity() == 16 && s.numSlots == 2 && !s.Valid()
  {
    hide Moved, PointerAt, AllApart, SumLen, Slots, Used, ValidImage, PutPointer;
    s := new Slotted(Image(0, 0, Zeros(16)));
    s.Initialize();
    NothingUsed(s.Contents());
    var first := s.Insert(0, 1);
    OneUsed(s.Contents());
    var second := s.Insert(0, 0);
    ghost var ps := Table(s.ToImage());
    assert ps == [Pointer(15, 0), Pointer(15, 1)];
    assert ps[1].len > 0 && ps[1].offset == ps[0].offset;
    var third := s.Resize(0, 1);
  }
}
