/** src/btree.rs, `Pair::to_bytes` and `from_bytes`: bincode's encoding of two byte slices, each a
    variable-length length and the bytes; and src/disk.rs, the eight bytes of a page id. */
module PairCodec {
  import opened Bytes

  datatype Pair = Pair(key: Bytes, value: Bytes)

  const PAGE_SIZE := 4096

  const MAX_PAGE_ID := 0xFFFF_FFFF_FFFF_FFFF

  /** A page id that names a page; `u64::MAX` is the code's "no page" and is a `None` here. */
  type PageId = x: nat | x < MAX_PAGE_ID

  function LittleEndian(n: nat, width: nat): (b: Bytes)
    ensures |b| == width
  {
    if width == 0 then [] else [(n % 256) as byte] + LittleEndian(n / 256, width - 1)
  }

  function FromLittleEndian(b: Bytes): nat {
    if b == [] then 0 else b[0] as nat + 256 * FromLittleEndian(b[1..])
  }

  function Pow256(width: nat): (p: nat)
    ensures p > 0
  {
    if width == 0 then 1 else 256 * Pow256(width - 1)
  }

  lemma {:induction false} LittleEndianRoundTrip(n: nat, width: nat)
    requires n < Pow256(width)
    ensures FromLittleEndian(LittleEndian(n, width)) == n
  {
    if width > 0 {
      LittleEndianRoundTrip(n / 256, width - 1);
      assert LittleEndian(n, width)[1..] == LittleEndian(n / 256, width - 1);
    }
  }

  lemma QuotientIs(n: nat, m: nat, q: nat, r: nat)
    requires r < m && n == m * q + r
    ensures n / m == q
  {
    var d := n / m - q;
    assert m * d == r - n % m;
    assert d > 0 ==> m * d >= m;
    assert d < 0 ==> m * d <= -(m as int);
  }

  lemma QuotientOfQuotient(n: nat, p: nat)
    requires p > 0
    ensures n / 256 / p == n / (256 * p)
  {
    var a, q := n / 256, n / 256 / p;
    assert a == p * q + a % p;
    assert 256 * a == 256 * p * q + 256 * (a % p);
    QuotientIs(n, 256 * p, q, 256 * (a % p) + n % 256);
  }

  /** The bytes of a number, the least significant one first. */
  lemma {:induction false} LittleEndianDigits(n: nat, width: nat, k: nat)
    requires k < width
    ensures LittleEndian(n, width)[k] as int == n / Pow256(k) % 256
  {
    if k > 0 {
      LittleEndianDigits(n / 256, width - 1, k - 1);
      QuotientOfQuotient(n, Pow256(k - 1));
    }
  }

  lemma PowersOf256()
    ensures Pow256(2) == 0x1_0000 && Pow256(4) == 0x1_0000_0000 && Pow256(8) == 0x1_0000_0000_0000_0000
  {
    assert Pow256(3) == 256 * Pow256(2);
    assert Pow256(5) == 256 * Pow256(4);
    assert Pow256(6) == 256 * Pow256(5);
    assert Pow256(7) == 256 * Pow256(6);
  }

  // ----- lengths -----

  function Varint(n: nat): Bytes {
    if n < 251 then [n as byte]
    else if n < 0x1_0000 then [251] + LittleEndian(n, 2)
    else if n < 0x1_0000_0000 then [252] + LittleEndian(n, 4)
    else [253] + LittleEndian(n, 8)
  }

  /** A length off the front of `b`, and the rest; None where deserialising fails. */
  function ReadVarint(b: Bytes): Option<(nat, Bytes)> {
    if b == [] then None
    else if b[0] < 251 then Some((b[0] as nat, b[1..]))
    else
      var width := if b[0] == 251 then 2 else if b[0] == 252 then 4 else 8;
      if b[0] > 253 || |b| < 1 + width then None
      else Some((FromLittleEndian(b[1..1 + width]), b[1 + width..]))
  }

  lemma VarintRoundTrip(n: nat, rest: Bytes)
    requires n < 0x1_0000_0000_0000_0000
    ensures ReadVarint(Varint(n) + rest) == Some((n, rest))
  {
    PowersOf256();
    var b := Varint(n) + rest;
    if n >= 251 {
      var width := if n < 0x1_0000 then 2 else if n < 0x1_0000_0000 then 4 else 8;
      LittleEndianRoundTrip(n, width);
      assert b[1..1 + width] == LittleEndian(n, width);
      assert b[1 + width..] == rest;
    }
  }

  // ----- pairs -----

  function ToBytes(p: Pair): (b: Bytes)
    ensures |b| >= 2 + |p.key| + |p.value|
  {
    Varint(|p.key|) + p.key + Varint(|p.value|) + p.value
  }

  /** None where `from_bytes` panics. */
  function FromBytes(b: Bytes): Option<Pair> {
    match ReadVarint(b)
    case None => None
    case Some((keyLen, rest)) =>
      if |rest| < keyLen then None
      else
        match ReadVarint(rest[keyLen..])
        case None => None
        case Some((valueLen, tail)) =>
          if |tail| != valueLen then None else Some(Pair(rest[..keyLen], tail))
  }

  /** The bytes of a length: below 251 it is one byte, and above that a byte which says how many
      more there are, and those. */
  lemma VarintBytes(n: nat, k: nat)
    requires n < 0x1_0000_0000_0000_0000 && k < |Varint(n)|
    ensures |Varint(n)| == if n < 251 then 1 else if n < 0x1_0000 then 3 else if n < 0x1_0000_0000 then 5 else 9
    ensures n < 251 ==> Varint(n)[0] as int == n
    ensures n >= 251 ==> Varint(n)[0] == if n < 0x1_0000 then 251 else if n < 0x1_0000_0000 then 252 else 253
    ensures n >= 251 && k > 0 ==> Varint(n)[k] as int == n / Pow256(k - 1) % 256
  {
    hide LittleEndian;
    if n >= 251 && k > 0 {
      LittleEndianDigits(n, |Varint(n)| - 1, k - 1);
    }
  }

  /** The bytes of a pair: the length of the key, the key, the length of the value, the value. */
  lemma PairBytes(p: Pair)
    ensures var b, k, v := ToBytes(p), |Varint(|p.key|)|, |Varint(|p.value|)|;
      && |b| == k + |p.key| + v + |p.value|
      && b[..k] == Varint(|p.key|) && b[k..k + |p.key|] == p.key
      && b[k + |p.key|..k + |p.key| + v] == Varint(|p.value|) && b[k + |p.key| + v..] == p.value
  {
    hide Varint;
  }

  /** Round trip, and so `to_bytes` is injective. */
  lemma PairRoundTrip(p: Pair)
    requires |p.key| < 0x1_0000_0000_0000_0000 && |p.value| < 0x1_0000_0000_0000_0000
    ensures FromBytes(ToBytes(p)) == Some(p)
  {
    var tail := Varint(|p.value|) + p.value;
    assert ToBytes(p) == Varint(|p.key|) + (p.key + tail);
    VarintRoundTrip(|p.key|, p.key + tail);
    assert (p.key + tail)[..|p.key|] == p.key && (p.key + tail)[|p.key|..] == tail;
    VarintRoundTrip(|p.value|, p.value);
  }

  /** The pair in a slot, which is never an empty one. */
  predicate IsPair(b: Bytes) {
    FromBytes(b).Some? && ToBytes(FromBytes(b).value) == b
  }

  lemma ToBytesIsPair(p: Pair)
    requires |ToBytes(p)| < 0x1_0000_0000
    ensures IsPair(ToBytes(p)) && FromBytes(ToBytes(p)) == Some(p)
  {
    PairRoundTrip(p);
  }

  // ----- page ids -----

  const PAGE_ID_SIZE := 8

  function PageIdBytes(id: PageId): Bytes { LittleEndian(id, PAGE_ID_SIZE) }

  /** The page id in eight bytes; the conversion panics on any other length. */
  function PageIdFrom(b: Bytes): Option<PageId> {
    if |b| != PAGE_ID_SIZE || FromLittleEndian(b) >= MAX_PAGE_ID then None else Some(FromLittleEndian(b))
  }

  lemma PageIdRoundTrip(id: PageId)
    ensures PageIdFrom(PageIdBytes(id)) == Some(id)
  {
    PowersOf256();
    LittleEndianRoundTrip(id, PAGE_ID_SIZE);
  }
}
