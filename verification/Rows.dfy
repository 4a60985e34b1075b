/** src/table.rs: rows and index entries, and what agrees with what. */
module Rows {
  import opened Bytes
  import opened PairCodec
  import opened NodeSpec
  import opened Tree
  import opened BTrees
  import opened TupleCodec

  datatype UniqueIndex = UniqueIndex(tree: BTree, skey: seq<nat>)

  datatype Schema = Schema(tree: BTree, numKeyElems: nat, uniqueIndices: seq<UniqueIndex>)

  // ----- rows and index entries -----

  predicate Covers(record: Tuple, cols: seq<nat>) {
    forall i | 0 <= i < |cols| :: cols[i] < |record|
  }

  /** The columns a record needs: those of the primary key and those of every index. */
  predicate Wide(record: Tuple, schema: Schema) {
    && schema.numKeyElems <= |record|
    && forall i | 0 <= i < |schema.uniqueIndices| :: Covers(record, schema.uniqueIndices[i].skey)
  }

  /** A row as the table's tree keeps it. */
  function RowPair(record: Tuple, n: nat): Pair
    requires n <= |record|
  {
    Pair(EncodeTuple(record[..n]), EncodeTuple(record[n..]))
  }

  function SecondaryKey(record: Tuple, cols: seq<nat>): Tuple
    requires Covers(record, cols)
  {
    seq(|cols|, i requires 0 <= i < |cols| => record[cols[i]])
  }

  /** The columns an index is on, of a record wide enough. */
  function Columns(record: Tuple, cols: seq<nat>): Tuple {
    if Covers(record, cols) then SecondaryKey(record, cols) else []
  }

  /** Which columns those are. */
  lemma ColumnsAre(record: Tuple, cols: seq<nat>)
    requires Covers(record, cols)
    ensures |Columns(record, cols)| == |cols|
    ensures forall i | 0 <= i < |cols| :: Columns(record, cols)[i] == record[cols[i]]
  {
  }

  /** The entry of a row in an index. */
  function IndexPair(record: Tuple, n: nat, cols: seq<nat>): Pair
    requires n <= |record| && Covers(record, cols)
  {
    Pair(EncodeTuple(SecondaryKey(record, cols)), EncodeTuple(record[..n]))
  }

  /** What an entry says of a record: its key is the columns `cols` of it, and its value the primary key. */
  ghost predicate Names(e: Pair, record: Tuple, n: nat, cols: seq<nat>)
    requires n <= |record| && Covers(record, cols)
  {
    && DecodeTuple(e.key).Some? && |DecodeTuple(e.key).value| == |cols|
    && (forall i | 0 <= i < |cols| :: DecodeTuple(e.key).value[i] == record[cols[i]])
    && DecodeTuple(e.value) == Some(record[..n])
  }

  lemma IndexPairNames(record: Tuple, n: nat, cols: seq<nat>)
    requires n <= |record| && Covers(record, cols)
    ensures Names(IndexPair(record, n, cols), record, n, cols)
  {
    hide EncodeTuple, DecodeTuple;
    DecodeEncode(SecondaryKey(record, cols));
    DecodeEncode(record[..n]);
  }

  function Elements(b: Bytes): Tuple {
    match DecodeTuple(b)
    case Some(t) => t
    case None => []
  }

  /** The record a row stands for. */
  function RecordOf(p: Pair): Tuple { Elements(p.key) + Elements(p.value) }

  lemma RecordOfRow(record: Tuple, n: nat)
    requires n <= |record|
    ensures RecordOf(RowPair(record, n)) == record
    ensures Elements(EncodeTuple(record[..n])) == record[..n]
  {
    DecodeEncode(record[..n]);
    DecodeEncode(record[n..]);
  }

  /** Every pair of the table's tree is a row. */
  ghost predicate AreRows(rows: seq<Pair>, schema: Schema) {
    forall p | p in rows :: Wide(RecordOf(p), schema) && p == RowPair(RecordOf(p), schema.numKeyElems)
  }

  ghost predicate IsEntry(e: Pair, p: Pair, n: nat, cols: seq<nat>) {
    n <= |RecordOf(p)| && Covers(RecordOf(p), cols) && e == IndexPair(RecordOf(p), n, cols)
  }

  /** Every entry of the index is that of a row. */
  ghost predicate IndexSound(rows: seq<Pair>, entries: seq<Pair>, n: nat, cols: seq<nat>) {
    forall e | e in entries :: exists p | p in rows :: IsEntry(e, p, n, cols)
  }

  /** Every row has its entry in the index. */
  ghost predicate IndexComplete(rows: seq<Pair>, entries: seq<Pair>, n: nat, cols: seq<nat>) {
    forall p | p in rows :: exists e | e in entries :: IsEntry(e, p, n, cols)
  }

  // ----- several trees in one store -----

  datatype TreeState = TreeState(t: Tree, h: nat)

  /** The pairs of the table's own tree. */
  ghost function RowsIn(states: seq<TreeState>): seq<Pair>
    requires states != []
  {
    Contents(states[0].t)
  }

  /** The pairs of index `i`. */
  ghost function EntriesIn(states: seq<TreeState>, i: nat): seq<Pair>
    requires i + 1 < |states|
  {
    Contents(states[i + 1].t)
  }

  /** The trees under the meta pages, none of which uses a page of another. */
  ghost predicate AllRepresented(pages: Pages, metas: seq<PageId>, states: seq<TreeState>, caps: Caps) {
    && |metas| == |states|
    && (forall i | 0 <= i < |metas| :: Represents(pages, metas[i], states[i].t, states[i].h, caps))
    && forall i, j | 0 <= i < |metas| && 0 <= j < |metas| && i != j ::
         Footprint(metas[i], states[i].t) !! Footprint(metas[j], states[j].t)
  }

  /** An operation on tree `k` leaves the others as they are. */
  lemma OtherTreesKept(pages: Pages, pages': Pages, metas: seq<PageId>, states: seq<TreeState>, k: nat, s: TreeState,
                       caps: Caps)
    requires AllRepresented(pages, metas, states, caps) && k < |metas|
    requires OnlyTouches(pages, pages', Footprint(metas[k], states[k].t))
    requires Represents(pages', metas[k], s.t, s.h, caps)
    requires forall p | p in Footprint(metas[k], s.t) :: p in Footprint(metas[k], states[k].t) || p !in pages
    ensures AllRepresented(pages', metas, states[k := s], caps)
  {
    hide Represents, Footprint;
    forall i | 0 <= i < |metas| && i != k
      ensures Represents(pages', metas[i], states[i].t, states[i].h, caps)
      ensures Footprint(metas[i], states[i].t) !! Footprint(metas[k], s.t)
    {
      assert Footprint(metas[i], states[i].t) !! Footprint(metas[k], states[k].t);
      FootprintStored(pages, metas[i], states[i].t, states[i].h, caps);
      RepresentsFrame(pages, pages', metas[i], states[i].t, states[i].h, caps);
    }
  }

  /** The meta pages of a table: its own tree's, then those of its indexes. */
  ghost function Metas(schema: Schema): seq<PageId> {
    [schema.tree.metaPageId] +
    seq(|schema.uniqueIndices|, i requires 0 <= i < |schema.uniqueIndices| => schema.uniqueIndices[i].tree.metaPageId)
  }

  ghost predicate TableSound(schema: Schema, states: seq<TreeState>)
    requires |states| == |schema.uniqueIndices| + 1
  {
    && AreRows(RowsIn(states), schema)
    && forall i | 0 <= i < |schema.uniqueIndices| ::
         IndexSound(RowsIn(states), EntriesIn(states, i), schema.numKeyElems, schema.uniqueIndices[i].skey)
  }

  /** The state of a table: its trees are in the pages, and hold rows and entries of rows. */
  ghost predicate TableValid(pages: Pages, schema: Schema, states: seq<TreeState>, caps: Caps) {
    AllRepresented(pages, Metas(schema), states, caps) && |states| == |schema.uniqueIndices| + 1 &&
    TableSound(schema, states)
  }

  ghost predicate TableComplete(schema: Schema, states: seq<TreeState>)
    requires |states| == |schema.uniqueIndices| + 1
  {
    forall i | 0 <= i < |schema.uniqueIndices| ::
      IndexComplete(RowsIn(states), EntriesIn(states, i), schema.numKeyElems, schema.uniqueIndices[i].skey)
  }

  // ----- what an insertion does to the trees -----

  /** The row was stored, and its entries in the first `k` indexes. */
  ghost predicate RowStored(schema: Schema, record: Tuple, states: seq<TreeState>, states': seq<TreeState>, k: nat) {
    && |states| == |states'| == |schema.uniqueIndices| + 1 && k <= |schema.uniqueIndices| && Wide(record, schema)
    && !HasKey(RowsIn(states), RowPair(record, schema.numKeyElems).key)
    && RowsIn(states') == SortedInsert(RowsIn(states), RowPair(record, schema.numKeyElems))
    && (forall i | 0 <= i < k ::
          && !HasKey(EntriesIn(states, i), IndexPair(record, schema.numKeyElems, schema.uniqueIndices[i].skey).key)
          && EntriesIn(states', i) ==
             SortedInsert(EntriesIn(states, i), IndexPair(record, schema.numKeyElems, schema.uniqueIndices[i].skey)))
    && (forall i | k <= i < |schema.uniqueIndices| :: EntriesIn(states', i) == EntriesIn(states, i))
  }

  lemma RowStoredFirst(schema: Schema, record: Tuple, states: seq<TreeState>, s: TreeState)
    requires |states| == |schema.uniqueIndices| + 1 && Wide(record, schema)
    requires !HasKey(RowsIn(states), RowPair(record, schema.numKeyElems).key)
    requires Contents(s.t) == SortedInsert(RowsIn(states), RowPair(record, schema.numKeyElems))
    ensures RowStored(schema, record, states, states[0 := s], 0)
  {
    hide HasKey, Contents, SortedInsert, RowPair, IndexPair, Wide;
  }

  lemma RowStoredRest(schema: Schema, record: Tuple, states: seq<TreeState>, states': seq<TreeState>, k: nat)
    requires RowStored(schema, record, states, states', k) && k < |schema.uniqueIndices|
    ensures EntriesIn(states', k) == EntriesIn(states, k)
  {
  }

  lemma RowStoredMore(schema: Schema, record: Tuple, states: seq<TreeState>, states': seq<TreeState>, k: nat,
                      s: TreeState)
    requires RowStored(schema, record, states, states', k) && k < |schema.uniqueIndices|
    requires !HasKey(EntriesIn(states', k), IndexPair(record, schema.numKeyElems, schema.uniqueIndices[k].skey).key)
    requires Contents(s.t) ==
              SortedInsert(EntriesIn(states', k), IndexPair(record, schema.numKeyElems, schema.uniqueIndices[k].skey))
    ensures RowStored(schema, record, states, states'[k + 1 := s], k + 1)
  {
    hide HasKey, Contents, SortedInsert, RowPair, IndexPair;
    var states'' := states'[k + 1 := s];
    forall i | 0 <= i < |schema.uniqueIndices| && i != k
      ensures EntriesIn(states'', i) == EntriesIn(states', i)
    {
    }
  }

  lemma InSortedInsert(ps: seq<Pair>, x: Pair, p: Pair)
    ensures p in SortedInsert(ps, x) <==> p == x || p in ps
  {
    hide LowerBound;
    var n := LowerBound(ps, x.key);
    assert ps == ps[..n] + ps[n..];
  }

  lemma NewRow(rows: seq<Pair>, record: Tuple, schema: Schema)
    requires AreRows(rows, schema) && Wide(record, schema)
    ensures AreRows(SortedInsert(rows, RowPair(record, schema.numKeyElems)), schema)
  {
    hide SortedInsert, RecordOf, RowPair;
    var x := RowPair(record, schema.numKeyElems);
    RecordOfRow(record, schema.numKeyElems);
    forall p | p in SortedInsert(rows, x)
      ensures Wide(RecordOf(p), schema) && p == RowPair(RecordOf(p), schema.numKeyElems)
    {
      InSortedInsert(rows, x, p);
    }
  }

  /** Entries stay entries of rows when a row comes in, with or without its own entry. */
  lemma NewRowKeepsSound(rows: seq<Pair>, entries: seq<Pair>, record: Tuple, n: nat, cols: seq<nat>)
    requires IndexSound(rows, entries, n, cols) && n <= |record| && Covers(record, cols)
    ensures IndexSound(SortedInsert(rows, RowPair(record, n)), entries, n, cols)
    ensures IndexSound(SortedInsert(rows, RowPair(record, n)), SortedInsert(entries, IndexPair(record, n, cols)), n,
                       cols)
  {
    hide SortedInsert, RecordOf, RowPair, IndexPair, Covers;
    var x, e' := RowPair(record, n), IndexPair(record, n, cols);
    var rows' := SortedInsert(rows, x);
    RecordOfRow(record, n);
    InSortedInsert(rows, x, x);
    assert IsEntry(e', x, n, cols);
    forall e | e in entries
      ensures exists p | p in rows' :: IsEntry(e, p, n, cols)
    {
      var p :| p in rows && IsEntry(e, p, n, cols);
      InSortedInsert(rows, x, p);
    }
    forall e | e in SortedInsert(entries, e')
      ensures exists p | p in rows' :: IsEntry(e, p, n, cols)
    {
      InSortedInsert(entries, e', e);
    }
  }

  /** An index that knows every row still does when the row and its entry come in. */
  lemma NewRowKeepsComplete(rows: seq<Pair>, entries: seq<Pair>, record: Tuple, n: nat, cols: seq<nat>)
    requires IndexComplete(rows, entries, n, cols) && n <= |record| && Covers(record, cols)
    ensures IndexComplete(SortedInsert(rows, RowPair(record, n)), SortedInsert(entries, IndexPair(record, n, cols)), n,
                          cols)
  {
    hide SortedInsert, RecordOf, RowPair, IndexPair, Covers;
    var x, e' := RowPair(record, n), IndexPair(record, n, cols);
    RecordOfRow(record, n);
    InSortedInsert(entries, e', e');
    assert IsEntry(e', x, n, cols);
    forall p | p in SortedInsert(rows, x)
      ensures exists e | e in SortedInsert(entries, e') :: IsEntry(e, p, n, cols)
    {
      InSortedInsert(rows, x, p);
      if p in rows {
        var e :| e in entries && IsEntry(e, p, n, cols);
        InSortedInsert(entries, e', e);
      }
    }
  }

  lemma EntryOfNewRow(rows: seq<Pair>, entries: seq<Pair>, record: Tuple, schema: Schema, cols: seq<nat>)
    requires AreRows(rows, schema) && IndexSound(rows, entries, schema.numKeyElems, cols)
    requires schema.numKeyElems <= |record| && Covers(record, cols)
    requires !HasKey(rows, RowPair(record, schema.numKeyElems).key)
    ensures IndexPair(record, schema.numKeyElems, cols) !in entries
  {
    hide RecordOf, Covers, Wide, EncodeTuple;
    var n := schema.numKeyElems;
    var e := IndexPair(record, n, cols);
    forall p | p in rows
      ensures !IsEntry(e, p, n, cols)
    {
      var i :| 0 <= i < |rows| && rows[i] == p;
      assert rows[i].key != RowPair(record, n).key;
    }
  }

  /** An index that did not get the entry of a new row does not know the row: nothing it holds points
      to the new key. */
  lemma NewRowWithoutEntry(rows: seq<Pair>, entries: seq<Pair>, record: Tuple, schema: Schema, cols: seq<nat>)
    requires AreRows(rows, schema) && IndexSound(rows, entries, schema.numKeyElems, cols)
    requires schema.numKeyElems <= |record| && Covers(record, cols)
    requires !HasKey(rows, RowPair(record, schema.numKeyElems).key)
    ensures !IndexComplete(SortedInsert(rows, RowPair(record, schema.numKeyElems)), entries, schema.numKeyElems, cols)
  {
    hide SortedInsert, RecordOf, Covers, Wide, EncodeTuple;
    var n := schema.numKeyElems;
    var x := RowPair(record, n);
    RecordOfRow(record, n);
    InSortedInsert(rows, x, x);
    EntryOfNewRow(rows, entries, record, schema, cols);
    assert forall e | e in entries :: !IsEntry(e, x, n, cols);
  }

  /** The table after an insertion that stored the row and `k` entries: sound in every case, complete
      again exactly when no index refused. */
  lemma RowStoredKeeps(schema: Schema, record: Tuple, states: seq<TreeState>, states': seq<TreeState>, k: nat)
    requires RowStored(schema, record, states, states', k) && TableSound(schema, states)
    ensures TableSound(schema, states')
    ensures TableComplete(schema, states) ==> (TableComplete(schema, states') <==> k == |schema.uniqueIndices|)
  {
    hide SortedInsert, RowPair, IndexPair, AreRows, IndexSound, IndexComplete, HasKey, Contents;
    var n, rows := schema.numKeyElems, RowsIn(states);
    NewRow(rows, record, schema);
    forall i | 0 <= i < |schema.uniqueIndices|
      ensures IndexSound(RowsIn(states'), EntriesIn(states', i), n, schema.uniqueIndices[i].skey)
    {
      NewRowKeepsSound(rows, EntriesIn(states, i), record, n, schema.uniqueIndices[i].skey);
    }
    if TableComplete(schema, states) && k == |schema.uniqueIndices| {
      forall i | 0 <= i < |schema.uniqueIndices|
        ensures IndexComplete(RowsIn(states'), EntriesIn(states', i), n, schema.uniqueIndices[i].skey)
      {
        NewRowKeepsComplete(rows, EntriesIn(states, i), record, n, schema.uniqueIndices[i].skey);
      }
    }
    if k < |schema.uniqueIndices| {
      NewRowWithoutEntry(rows, EntriesIn(states, k), record, schema, schema.uniqueIndices[k].skey);
    }
  }

  /** A row whose entry an index refused: the index has the key, for another row. */
  ghost predicate Refused(p: Pair, entries: seq<Pair>, n: nat, cols: seq<nat>) {
    n <= |RecordOf(p)| && Covers(RecordOf(p), cols)
    && HasKey(entries, IndexPair(RecordOf(p), n, cols).key) && IndexPair(RecordOf(p), n, cols) !in entries
  }

  ghost predicate SomeRefused(schema: Schema, states: seq<TreeState>)
    requires |states| == |schema.uniqueIndices| + 1
  {
    exists i, p | 0 <= i < |schema.uniqueIndices| && p in RowsIn(states) ::
      Refused(p, EntriesIn(states, i), schema.numKeyElems, schema.uniqueIndices[i].skey)
  }

  lemma RefusedStays(p: Pair, entries: seq<Pair>, e: Pair, n: nat, cols: seq<nat>)
    requires Refused(p, entries, n, cols) && !HasKey(entries, e.key)
    ensures Refused(p, SortedInsert(entries, e), n, cols)
  {
    hide RecordOf, IndexPair, SortedInsert;
    var x := IndexPair(RecordOf(p), n, cols);
    InSortedInsert(entries, e, x);
    var i :| 0 <= i < |entries| && entries[i].key == x.key;
    InSortedInsert(entries, e, entries[i]);
    var j :| 0 <= j < |SortedInsert(entries, e)| && SortedInsert(entries, e)[j] == entries[i];
  }

  /** What was refused stays refused, whatever comes later. */
  lemma RefusedForGood(schema: Schema, record: Tuple, states: seq<TreeState>, states': seq<TreeState>, k: nat)
    requires RowStored(schema, record, states, states', k) && SomeRefused(schema, states)
    ensures SomeRefused(schema, states')
  {
    hide RecordOf, Contents, HasKey, IndexPair, RowPair, SortedInsert;
    var n := schema.numKeyElems;
    var i, p :| 0 <= i < |schema.uniqueIndices| && p in RowsIn(states)
      && Refused(p, EntriesIn(states, i), n, schema.uniqueIndices[i].skey);
    InSortedInsert(RowsIn(states), RowPair(record, n), p);
    if i < k {
      RefusedStays(p, EntriesIn(states, i), IndexPair(record, n, schema.uniqueIndices[i].skey), n,
                   schema.uniqueIndices[i].skey);
    }
    assert Refused(p, EntriesIn(states', i), n, schema.uniqueIndices[i].skey);
  }

  /** The refusal itself. */
  lemma NewlyRefused(schema: Schema, record: Tuple, states: seq<TreeState>, states': seq<TreeState>, k: nat)
    requires RowStored(schema, record, states, states', k) && TableSound(schema, states) && k < |schema.uniqueIndices|
    requires HasKey(EntriesIn(states, k), EncodeTuple(SecondaryKey(record, schema.uniqueIndices[k].skey)))
    ensures SomeRefused(schema, states')
  {
    hide RecordOf, Contents, HasKey, SortedInsert, EncodeTuple, IndexSound;
    var n, cols := schema.numKeyElems, schema.uniqueIndices[k].skey;
    var x := RowPair(record, n);
    RecordOfRow(record, n);
    InSortedInsert(RowsIn(states), x, x);
    EntryOfNewRow(RowsIn(states), EntriesIn(states, k), record, schema, cols);
    assert Refused(x, EntriesIn(states', k), n, cols);
  }

  // ----- what a record needs -----

  ghost predicate PairFits(p: Pair, caps: Caps) {
    Fits(p, caps.leaf) && KeyFits(p.key, caps.branch)
  }

  /** Every pair the record turns into passes the assertions on its way. */
  ghost predicate RecordFits(schema: Schema, record: Tuple, caps: Caps)
    requires Wide(record, schema)
  {
    && PairFits(RowPair(record, schema.numKeyElems), caps)
    && forall i | 0 <= i < |schema.uniqueIndices| ::
         PairFits(IndexPair(record, schema.numKeyElems, schema.uniqueIndices[i].skey), caps)
  }

  /** What one insertion means for the run. */
  lemma InsertStep(schema: Schema, record: Tuple, states: seq<TreeState>, states': seq<TreeState>, r: InsertResult,
                   stage: nat)
    requires |states| == |states'| == |schema.uniqueIndices| + 1 && Wide(record, schema) && !r.Failed?
    requires TableSound(schema, states)
    requires HasKey(RowsIn(states), RowPair(record, schema.numKeyElems).key) ==> r.Duplicate? && states' == states
    requires !HasKey(RowsIn(states), RowPair(record, schema.numKeyElems).key) ==>
               RowStored(schema, record, states, states', stage) && (r.Accepted? <==> stage == |schema.uniqueIndices|)
    requires r.Duplicate? && !HasKey(RowsIn(states), RowPair(record, schema.numKeyElems).key) ==>
               stage < |schema.uniqueIndices| &&
               HasKey(EntriesIn(states, stage), EncodeTuple(SecondaryKey(record, schema.uniqueIndices[stage].skey)))
    ensures SomeRefused(schema, states) ==> SomeRefused(schema, states')
    ensures r.Duplicate? && states' != states ==> SomeRefused(schema, states')
    ensures TableComplete(schema, states) && (r.Accepted? || states' == states) ==> TableComplete(schema, states')
  {
    hide TableSound, TableComplete, SomeRefused, Contents, SortedInsert, HasKey, EncodeTuple;
    if !HasKey(RowsIn(states), RowPair(record, schema.numKeyElems).key) {
      RowStoredKeeps(schema, record, states, states', stage);
      if SomeRefused(schema, states) { RefusedForGood(schema, record, states, states', stage); }
      if r.Duplicate? { NewlyRefused(schema, record, states, states', stage); }
    }
  }
}
