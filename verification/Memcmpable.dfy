/** src/memcmpable.rs: an encoding of byte strings into 9-byte blocks whose byte order is the
    order of the strings themselves, even with other encoded strings behind them. */
module Memcmpable {
  import opened Bytes

  const ESCAPE_LENGTH := 9

  function EncodedSize(len: nat): nat {
    (len + (ESCAPE_LENGTH - 1)) / (ESCAPE_LENGTH - 1) * ESCAPE_LENGTH
  }

  /** Eight data bytes, zero-padded. */
  function Padded(s: Bytes): (b: Bytes)
    ensures |b| == 8
  {
    if |s| <= 8 then s + Zeros(8 - |s|) else s[..8]
  }

  /** The ninth byte: how much of the block is data, or 9 when another block follows. */
  function Tag(s: Bytes): byte {
    if |s| <= 8 then |s| as byte else 9
  }

  /** The encoding of one element. */
  function EncodeElem(s: Bytes): Bytes {
    if |s| <= 8 then Padded(s) + [Tag(s)]
    else Padded(s) + [Tag(s)] + EncodeElem(s[8..])
  }

  /** What decoding one element off the front of `src` gives: the element and what is left, or
      None where indexing past the end makes the code panic. Every ninth byte from 9 up
      continues, every smaller one ends. */
  function DecodeElem(src: Bytes): (r: Option<(Bytes, Bytes)>)
    ensures r.Some? ==> |r.value.1| < |src|
  {
    if |src| < ESCAPE_LENGTH then None
    else if src[8] < 9 then Some((src[..src[8] as nat], src[9..]))
    else match DecodeElem(src[9..])
      case None => None
      case Some((elem, rest)) => Some((src[..8] + elem, rest))
  }

  /** `memcmpable::encode`, which appends to `dst`. */
  method Encode(s: Bytes, prefix: Bytes) returns (dst: Bytes)
    ensures dst == prefix + EncodeElem(s)
  {
    var src := s;
    dst := prefix;
    while true
      invariant dst + EncodeElem(src) == prefix + EncodeElem(s)
      decreases |src|
    {
      var copyLen := if |src| < ESCAPE_LENGTH - 1 then |src| else ESCAPE_LENGTH - 1;
      ghost var block := src;
      dst := dst + src[..copyLen];
      src := src[copyLen..];
      if src == [] {
        var padSize := ESCAPE_LENGTH - 1 - copyLen;
        if padSize > 0 {
          dst := dst + Zeros(padSize);
        }
        dst := dst + [copyLen as byte];
        assert EncodeElem(block) == block[..copyLen] + Zeros(padSize) + [copyLen as byte];
        return;
      }
      dst := dst + [ESCAPE_LENGTH as byte];
      assert EncodeElem(block) == block[..copyLen] + [9] + EncodeElem(src);
    }
  }

  /** `memcmpable::decode`, which appends to `dst` and moves `src` past what it read; the result
      is None where the code panics on a slice index. */
  method Decode(src0: Bytes, prefix: Bytes) returns (r: Option<(Bytes, Bytes)>)
    ensures r.Some? <==> DecodeElem(src0).Some?
    ensures r.Some? ==> r.value == (prefix + DecodeElem(src0).value.0, DecodeElem(src0).value.1)
  {
    var src, dst := src0, prefix;
    while true
      invariant DecodeElem(src).Some? <==> DecodeElem(src0).Some?
      invariant DecodeElem(src).Some? ==>
        dst + DecodeElem(src).value.0 == prefix + DecodeElem(src0).value.0
        && DecodeElem(src).value.1 == DecodeElem(src0).value.1
      decreases |src|
    {
      if |src| < ESCAPE_LENGTH {
        return None;
      }
      var extra := src[ESCAPE_LENGTH - 1];
      var len := if extra as nat < ESCAPE_LENGTH - 1 then extra as nat else ESCAPE_LENGTH - 1;
      ghost var block := src;
      dst := dst + src[..len];
      src := src[ESCAPE_LENGTH..];
      if extra < ESCAPE_LENGTH as byte {
        return Some((dst, src));
      }
      assert DecodeElem(block).Some? ==> DecodeElem(block).value.0 == block[..8] + DecodeElem(src).value.0;
    }
  }

  /** Round trip: decoding what `encode` wrote gives the element back and stops exactly behind it. */
  lemma {:induction false} DecodeEncode(s: Bytes, rest: Bytes)
    ensures DecodeElem(EncodeElem(s) + rest) == Some((s, rest))
  {
    var e := EncodeElem(s) + rest;
    assert e[8] == Tag(s);
    if |s| <= 8 {
      assert e[..|s|] == s && e[9..] == rest;
    } else {
      DecodeEncode(s[8..], rest);
      assert e[9..] == EncodeElem(s[8..]) + rest;
      assert e[..8] + s[8..] == s;
    }
  }

  /** What is read off bytes that `encode` may never have written: the data of the blocks up to the first
      whose ninth byte is below 9. */
  lemma {:induction false} DecodedBytes(src: Bytes, j: nat)
    requires 9 * j + 8 < |src| && src[9 * j + 8] < 9 && forall i | 0 <= i < j :: src[9 * i + 8] >= 9
    ensures DecodeElem(src).Some? && DecodeElem(src).value.1 == src[9 * j + 9..]
    ensures |DecodeElem(src).value.0| == 8 * j + src[9 * j + 8] as nat
    ensures forall k | 0 <= k < |DecodeElem(src).value.0| :: DecodeElem(src).value.0[k] == src[k / 8 * 9 + k % 8]
  {
    if j > 0 {
      assert src[8] >= 9 by { assert src[9 * 0 + 8] >= 9; }
      var rest := src[9..];
      forall i | 0 <= i < j - 1
        ensures rest[9 * i + 8] >= 9
      {
        assert src[9 * (i + 1) + 8] >= 9;
      }
      DecodedBytes(rest, j - 1);
      var elem, tail := DecodeElem(src).value.0, DecodeElem(rest).value.0;
      forall k | 0 <= k < |elem|
        ensures elem[k] == src[k / 8 * 9 + k % 8]
      {
        if k >= 8 {
          assert elem[k] == tail[k - 8] && (k - 8) / 8 == k / 8 - 1;
        }
      }
    }
  }

  /** Where there is no such block, indexing past the end makes the code panic. */
  lemma {:induction false} DecodePanics(src: Bytes)
    requires forall i: nat | 9 * i + 8 < |src| :: src[9 * i + 8] >= 9
    ensures DecodeElem(src).None?
  {
    if |src| >= 9 {
      assert src[9 * 0 + 8] >= 9;
      forall i: nat | 9 * i + 8 < |src[9..]|
        ensures src[9..][9 * i + 8] >= 9
      {
        assert src[9 * (i + 1) + 8] >= 9;
      }
      DecodePanics(src[9..]);
    }
  }

  /** The bytes themselves. Block `j` is the next eight bytes of the element, with zeros past its end, and
      then a 9 if another block follows, or else how many of the eight bytes are data. */
  lemma {:induction false} EncodedBytes(s: Bytes, j: nat, k: nat)
    requires 9 * j + 8 < |EncodeElem(s)| && k < 8
    ensures EncodeElem(s)[9 * j + 8] as int == if 9 * j + 9 < |EncodeElem(s)| then 9 else |s| - 8 * j
    ensures EncodeElem(s)[9 * j + k] == if 8 * j + k < |s| then s[8 * j + k] else 0
  {
    if j > 0 {
      EncodedBytes(s[8..], j - 1, k);
    }
  }

  /** `encoded_size`, which is what `tuple::encode` reserves, is never too small, and is the
      encoded length exactly when the element is empty or does not fill its last block. For the
      other lengths it counts one block that `encode` does not write: 18 for 8 bytes, which
      encode to 9. */
  lemma {:induction false} EncodedLength(s: Bytes)
    ensures |EncodeElem(s)| <= EncodedSize(|s|)
    ensures |EncodeElem(s)| == EncodedSize(|s|) <==> |s| == 0 || |s| % 8 != 0
    ensures |s| > 0 && |s| % 8 == 0 ==> |EncodeElem(s)| + ESCAPE_LENGTH == EncodedSize(|s|)
  {
    if |s| > 8 {
      EncodedLength(s[8..]);
      assert (|s| + 8) / 8 == |s| / 8 + 1;
    }
  }

  /** The length of the longest common prefix of `x` and a larger `y`. */
  lemma {:induction false} CommonLength(x: Bytes, y: Bytes) returns (n: nat)
    requires Lt(x, y)
    ensures n <= |x| && n < |y| && x[..n] == y[..n] && (n == |x| || x[n] < y[n])
  {
    if x != [] && x[0] == y[0] {
      n := CommonLength(x[1..], y[1..]);
      n := n + 1;
      assert forall i | 1 <= i < n :: x[i] == x[1..][..n - 1][i - 1] && y[i] == y[1..][..n - 1][i - 1];
    } else {
      n := 0;
    }
  }

  lemma SameFirstBlock(x: Bytes, y: Bytes)
    requires Lt(x, y) && |x| >= 8 && |y| > 8 && x[..8] == y[..8]
    ensures Padded(x) == Padded(y) == x[..8]
    ensures if |x| > 8 then Lt(x[8..], y[8..]) else Lt(Padded(x) + [Tag(x)], Padded(y) + [Tag(y)])
  {
    assert x == x[..8] + x[8..] && y == x[..8] + y[8..];
    LtCommonPrefix(x[..8], x[8..], y[8..]);
    assert Padded(x) == x[..8] && Padded(y) == y[..8];
    LtLastByte(x[..8], Tag(x), Tag(y));
  }

  /** The first difference decides. */
  lemma LtAt(a: Bytes, b: Bytes, n: nat)
    requires n < |a| && n < |b| && a[..n] == b[..n] && a[n] < b[n]
    ensures Lt(a, b)
  {
    assert a == a[..n] + a[n..] && b == a[..n] + b[n..];
    LtCommonPrefix(a[..n], a[n..], b[n..]);
  }

  lemma DifferentFirstBlock(x: Bytes, y: Bytes, n: nat)
    requires n < 8 && n < |x| && n < |y| && x[..n] == y[..n] && x[n] < y[n]
    ensures Padded(x) != Padded(y)
    ensures Lt(Padded(x) + [Tag(x)], Padded(y) + [Tag(y)])
  {
    var p, q := Padded(x) + [Tag(x)], Padded(y) + [Tag(y)];
    assert forall i | 0 <= i < n :: p[i] == x[..n][i] && q[i] == y[..n][i];
    assert p[n] == Padded(x)[n] == x[n] && q[n] == Padded(y)[n] == y[n];
    LtAt(p, q, n);
  }

  lemma FirstDifference(p: Bytes, q: Bytes) returns (k: nat)
    requires |p| == |q| && p != q
    ensures k < |p| && p[..k] == q[..k] && p[k] != q[k]
  {
    k := 0;
    while k < |p| && p[k] == q[k]
      invariant k <= |p| && p[..k] == q[..k]
    {
      k := k + 1;
    }
  }

  /** A proper prefix of fewer than eight bytes: zeros never compare above data, and where the
      padded blocks agree the tag decides. */
  lemma PaddingBelow(x: Bytes, y: Bytes)
    requires |x| < 8 && |x| < |y| && x == y[..|x|]
    ensures Padded(x) != Padded(y) || Tag(x) != Tag(y)
    ensures Lt(Padded(x) + [Tag(x)], Padded(y) + [Tag(y)])
  {
    var p, q := Padded(x), Padded(y);
    if p == q {
      LtLastByte(p, Tag(x), Tag(y));
    } else {
      var k := FirstDifference(p, q);
      assert k >= |x| && p[k] == 0;
      LtAt(p + [Tag(x)], q + [Tag(y)], k);
    }
  }

  /** How the first blocks of two elements compare: as the elements do, unless they are equal, and
      then both elements go on behind the same eight bytes. */
  lemma FirstBlocks(x: Bytes, y: Bytes)
    requires Lt(x, y)
    ensures if Padded(x) == Padded(y) && Tag(x) == Tag(y)
            then |x| > 8 && |y| > 8 && x[..8] == y[..8] && Lt(x[8..], y[8..])
            else Lt(Padded(x) + [Tag(x)], Padded(y) + [Tag(y)])
  {
    var n := CommonLength(x, y);
    if n >= 8 {
      SameFirstBlock(x, y);
    } else if n < |x| {
      DifferentFirstBlock(x, y, n);
    } else {
      PaddingBelow(x, y);
    }
  }

  /** Order embedding and prefix-freedom in one: an element that is smaller encodes smaller, with
      anything behind either encoding. */
  lemma {:induction false} EncodeKeepsOrder(x: Bytes, y: Bytes, restX: Bytes, restY: Bytes)
    requires Lt(x, y)
    ensures Lt(EncodeElem(x) + restX, EncodeElem(y) + restY)
    decreases |x|
  {
    var blockX, blockY := Padded(x) + [Tag(x)], Padded(y) + [Tag(y)];
    var tx := if |x| <= 8 then restX else EncodeElem(x[8..]) + restX;
    var ty := if |y| <= 8 then restY else EncodeElem(y[8..]) + restY;
    assert EncodeElem(x) + restX == blockX + tx && EncodeElem(y) + restY == blockY + ty;
    FirstBlocks(x, y);
    if blockX == blockY {
      assert Padded(x) == blockX[..8] && Padded(y) == blockY[..8] && Tag(x) == blockX[8] && Tag(y) == blockY[8];
      EncodeKeepsOrder(x[8..], y[8..], restX, restY);
      LtCommonPrefix(blockX, tx, ty);
    } else {
      LtDifferentBlocks(blockX, blockY, tx, ty);
    }
  }
}
