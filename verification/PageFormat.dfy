/** src/btree/node.rs, src/btree/meta.rs and the headers of leaf.rs, branch.rs and slotted.rs: what the
    pages of a tree look like as 4096 bytes. */
module PageFormat {
  import opened Bytes
  import opened SlottedLayout
  import opened PairCodec
  import opened Nodes
  import opened Limits

  /** "LEAF    " */
  const NODE_TYPE_LEAF: Bytes := [76, 69, 65, 70, 32, 32, 32, 32]

  /** "BRANCH  " */
  const NODE_TYPE_BRANCH: Bytes := [66, 82, 65, 78, 67, 72, 32, 32]

  /** `u64::MAX` stands for no page. */
  function LinkBytes(id: Option<PageId>): (b: Bytes)
    ensures |b| == PAGE_ID_SIZE
  {
    LittleEndian(if id.Some? then id.value else MAX_PAGE_ID, PAGE_ID_SIZE)
  }

  /** `valid`. */
  function LinkFrom(b: Bytes): Option<PageId> {
    PageIdFrom(b)
  }

  /** The slotted header, four unused bytes in it, and the body. */
  function SlottedBytes(img: Image): (b: Bytes)
    ensures |b| == 8 + |img.body|
  {
    LittleEndian(img.numSlots as nat, 2) + LittleEndian(img.freeSpaceOffset as nat, 2) + Zeros(4) + img.body
  }

  function SlottedFrom(b: Bytes): Image
    requires |b| >= 8
  {
    Image(Truncate16(FromLittleEndian(b[..2])), Truncate16(FromLittleEndian(b[2..4])), b[8..])
  }

  /** The body fills the page. */
  predicate FillsPage(p: Page) {
    match p
    case LeafPage(_, _, body) => |body.body| == LEAF_BODY
    case BranchPage(_, body) => |body.body| == BRANCH_BODY
    case _ => true
  }

  function PageBytes(p: Page): (b: Bytes)
    requires FillsPage(p)
    ensures |b| == PAGE_SIZE
  {
    match p
    case BlankPage => Zeros(PAGE_SIZE)
    case MetaPage(root) => PageIdBytes(root) + Zeros(PAGE_SIZE - PAGE_ID_SIZE)
    case LeafPage(prev, next, body) => NODE_TYPE_LEAF + LinkBytes(prev) + LinkBytes(next) + SlottedBytes(body)
    case BranchPage(right, body) => NODE_TYPE_BRANCH + PageIdBytes(right) + SlottedBytes(body)
  }

  /** `Node::new` and `Body::new`; None where the node type is none of the two, or there is no right-most
      child. */
  function NodeFrom(b: Bytes): Option<Page>
    requires |b| == PAGE_SIZE
  {
    if b[..8] == NODE_TYPE_LEAF then Some(LeafPage(LinkFrom(b[8..16]), LinkFrom(b[16..24]), SlottedFrom(b[24..])))
    else if b[..8] == NODE_TYPE_BRANCH && PageIdFrom(b[8..16]).Some? then
      Some(BranchPage(PageIdFrom(b[8..16]).value, SlottedFrom(b[16..])))
    else None
  }

  /** `Meta::new`. Nothing in the bytes tells a meta page from a node; the caller knows. */
  function MetaFrom(b: Bytes): Option<Page>
    requires |b| == PAGE_SIZE
  {
    match PageIdFrom(b[..8])
    case Some(root) => Some(MetaPage(root))
    case None => None
  }

  lemma LinkRoundTrip(id: Option<PageId>)
    ensures LinkFrom(LinkBytes(id)) == id
  {
    PowersOf256();
    LittleEndianRoundTrip(if id.Some? then id.value else MAX_PAGE_ID, PAGE_ID_SIZE);
  }

  lemma SlottedRoundTrip(img: Image)
    ensures SlottedFrom(SlottedBytes(img)) == img
  {
    hide LittleEndian, FromLittleEndian;
    PowersOf256();
    LittleEndianRoundTrip(img.numSlots as nat, 2);
    LittleEndianRoundTrip(img.freeSpaceOffset as nat, 2);
    var b := SlottedBytes(img);
    assert b[..2] == LittleEndian(img.numSlots as nat, 2) && b[2..4] == LittleEndian(img.freeSpaceOffset as nat, 2);
    assert b[8..] == img.body;
  }

  /** A node is read back as it was written, and so no two nodes look the same. */
  lemma NodeRoundTrip(p: Page)
    requires FillsPage(p) && (p.LeafPage? || p.BranchPage?)
    ensures NodeFrom(PageBytes(p)) == Some(p)
  {
    hide LittleEndian, FromLittleEndian, LinkBytes, PageIdBytes, SlottedBytes, SlottedFrom, LinkFrom, PageIdFrom;
    var b := PageBytes(p);
    SlottedRoundTrip(p.body);
    match p
    case LeafPage(prev, next, body) =>
      LinkRoundTrip(prev);
      LinkRoundTrip(next);
      assert b[..8] == NODE_TYPE_LEAF && b[8..16] == LinkBytes(prev) && b[16..24] == LinkBytes(next);
      assert b[24..] == SlottedBytes(body);
    case BranchPage(right, body) =>
      PageIdRoundTrip(right);
      assert b[..8] == NODE_TYPE_BRANCH && b[8..16] == PageIdBytes(right);
      assert b[16..] == SlottedBytes(body);
      assert NODE_TYPE_LEAF[0] != NODE_TYPE_BRANCH[0];
  }

  /** The byte at which the slotted header of a node begins: behind the type, and the links of a leaf or the
      right-most child of a branch. */
  function SlottedAt(p: Page): nat { if p.LeafPage? then 24 else 16 }

  lemma LinkDigits(id: Option<PageId>, k: nat)
    requires k < 8
    ensures LinkBytes(id)[k] as int == (if id.Some? then id.value else 0xFFFF_FFFF_FFFF_FFFF) / Pow256(k) % 256
  {
    LittleEndianDigits(if id.Some? then id.value else MAX_PAGE_ID, 8, k);
  }

  lemma TwoDigits(n: nat)
    requires n < 0x1_0000
    ensures LittleEndian(n, 2)[0] as int == n % 256 && LittleEndian(n, 2)[1] as int == n / 256
  {
    LittleEndianDigits(n, 2, 0);
    LittleEndianDigits(n, 2, 1);
    assert Pow256(1) == 256;
  }

  lemma SlottedDigits(img: Image)
    ensures var b := SlottedBytes(img);
      && b[0] as int == img.numSlots as int % 256 && b[1] as int == img.numSlots as int / 256
      && b[2] as int == img.freeSpaceOffset as int % 256 && b[3] as int == img.freeSpaceOffset as int / 256
      && (forall k | 4 <= k < 8 :: b[k] == 0) && b[8..] == img.body
  {
    hide LittleEndian;
    TwoDigits(img.numSlots as nat);
    TwoDigits(img.freeSpaceOffset as nat);
  }

  lemma IdDigits(id: PageId, k: nat)
    requires k < 8
    ensures |PageIdBytes(id)| == 8 && PageIdBytes(id)[k] as int == id / Pow256(k) % 256
  {
    LittleEndianDigits(id, 8, k);
  }

  /** The bytes of a node, one by one: what is where, least significant byte first. */
  lemma NodeBytes(p: Page, k: nat)
    requires FillsPage(p) && (p.LeafPage? || p.BranchPage?) && k < 8
    ensures var b, at, img := PageBytes(p), SlottedAt(p), p.body;
      && b[k] as char == (if p.LeafPage? then "LEAF    " else "BRANCH  ")[k]
      && b[at] as int == img.numSlots as int % 256 && b[at + 1] as int == img.numSlots as int / 256
      && b[at + 2] as int == img.freeSpaceOffset as int % 256 && b[at + 3] as int == img.freeSpaceOffset as int / 256
      && (k >= 4 ==> b[at + k] == 0) && b[at + 8..] == img.body
    ensures p.LeafPage? ==>
      && PageBytes(p)[8 + k] as int == (if p.prev.Some? then p.prev.value else 0xFFFF_FFFF_FFFF_FFFF) / Pow256(k) % 256
      && PageBytes(p)[16 + k] as int == (if p.next.Some? then p.next.value else 0xFFFF_FFFF_FFFF_FFFF) / Pow256(k) % 256
    ensures p.BranchPage? ==> PageBytes(p)[8 + k] as int == p.right / Pow256(k) % 256
  {
    hide LittleEndian, LinkBytes, PageIdBytes, SlottedBytes, Pow256;
    SlottedDigits(p.body);
    match p
    case LeafPage(prev, next, body) =>
      LinkDigits(prev, k);
      LinkDigits(next, k);
      assert PageBytes(p)[24..] == SlottedBytes(body);
    case BranchPage(right, body) =>
      IdDigits(right, k);
      assert PageBytes(p)[16..] == SlottedBytes(body);
  }

  /** The bytes of the other pages: a meta page has the root in front and is zero behind it, a new page is
      zero. */
  lemma MetaBytes(root: PageId, k: nat)
    requires k < PAGE_SIZE
    ensures PageBytes(MetaPage(root))[k] as int == if k < 8 then root / Pow256(k) % 256 else 0
    ensures PageBytes(BlankPage)[k] == 0
  {
    hide PageIdBytes, Pow256;
    if k < 8 { IdDigits(root, k); }
  }

  lemma BlankSlotted(cap: nat)
    ensures SlottedFrom(Zeros(8 + cap)) == BlankImage(cap)
  {
    var b, zero: byte := Zeros(8 + cap), 0;
    assert b[..2] == [zero, zero];
    assert b[2..4] == [zero, zero];
    assert b[8..] == Zeros(cap);
    assert FromLittleEndian([zero]) == 0 && [zero, zero][1..] == [zero];
  }

  /** The bytes of a new page are the blank body that a leaf or a branch is initialised on. */
  lemma BlankBody(leaf: bool)
    ensures var cap := if leaf then LEAF_BODY else BRANCH_BODY;
      SlottedFrom(PageBytes(BlankPage)[PAGE_SIZE - 8 - cap..]) == BlankImage(cap)
  {
    hide SlottedFrom, BlankImage;
    var cap := if leaf then LEAF_BODY else BRANCH_BODY;
    assert PageBytes(BlankPage)[PAGE_SIZE - 8 - cap..] == Zeros(8 + cap);
    BlankSlotted(cap);
  }

  lemma MetaRoundTrip(root: PageId)
    ensures MetaFrom(PageBytes(MetaPage(root))) == Some(MetaPage(root))
  {
    PageIdRoundTrip(root);
    assert PageBytes(MetaPage(root))[..8] == PageIdBytes(root);
  }
}
