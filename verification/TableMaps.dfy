/** src/table.rs: a run of insertions, said of maps alone. What a table and its indexes hold after the
    run, and which records were taken, can be told beforehand. */
module TableMaps {
  import opened Bytes
  import opened PairCodec
  import opened NodeSpec
  import opened Tree
  import opened BTrees
  import opened TupleCodec
  import opened Rows

  /** The table's tree and each of the indexes as maps. */
  datatype Maps = Maps(rows: map<Bytes, Bytes>, entries: seq<map<Bytes, Bytes>>)

  ghost function MapsOf(states: seq<TreeState>): (m: Maps)
    requires states != []
    ensures |m.entries| == |states| - 1
  {
    Maps(ToMap(RowsIn(states)), seq(|states| - 1, i requires 0 <= i < |states| - 1 => ToMap(EntriesIn(states, i))))
  }

  function RowFor(schema: Schema, record: Tuple): Pair
    requires Wide(record, schema)
  {
    RowPair(record, schema.numKeyElems)
  }

  function EntryFor(schema: Schema, record: Tuple, i: nat): Pair
    requires Wide(record, schema) && i < |schema.uniqueIndices|
  {
    IndexPair(record, schema.numKeyElems, schema.uniqueIndices[i].skey)
  }

  /** The first index from `i` on that has the record's secondary key, or the number of indexes. */
  function FirstRefusal(schema: Schema, m: Maps, record: Tuple, i: nat): (k: nat)
    requires Wide(record, schema) && |m.entries| == |schema.uniqueIndices| && i <= |m.entries|
    ensures i <= k <= |m.entries|
    decreases |m.entries| - i
  {
    if i == |m.entries| || EntryFor(schema, record, i).key in m.entries[i] then i
    else FirstRefusal(schema, m, record, i + 1)
  }

  /** One insertion: nothing for a primary key that is there; otherwise the row, and entries up to the
      first index that refuses. */
  function Added(schema: Schema, m: Maps, record: Tuple): (m': Maps)
    requires Wide(record, schema) && |m.entries| == |schema.uniqueIndices|
    ensures |m'.entries| == |m.entries|
  {
    var x := RowFor(schema, record);
    if x.key in m.rows then m
    else
      var k := FirstRefusal(schema, m, record, 0);
      Maps(m.rows[x.key := x.value],
           seq(|m.entries|, i requires 0 <= i < |m.entries| =>
             var e := EntryFor(schema, record, i);
             if i < k then m.entries[i][e.key := e.value] else m.entries[i]))
  }

  /** When a record is accepted: its primary key is new, and so is its secondary key to every index. */
  predicate Takes(schema: Schema, m: Maps, record: Tuple)
    requires Wide(record, schema) && |m.entries| == |schema.uniqueIndices|
  {
    && RowFor(schema, record).key !in m.rows
    && forall i | 0 <= i < |m.entries| :: EntryFor(schema, record, i).key !in m.entries[i]
  }

  predicate AllWide(schema: Schema, records: seq<Tuple>) {
    forall i | 0 <= i < |records| :: Wide(records[i], schema)
  }

  function AddedAll(schema: Schema, m: Maps, records: seq<Tuple>): (m': Maps)
    requires AllWide(schema, records) && |m.entries| == |schema.uniqueIndices|
    ensures |m'.entries| == |m.entries|
  {
    if records == [] then m
    else Added(schema, AddedAll(schema, m, records[..|records| - 1]), records[|records| - 1])
  }

  lemma AddedNone(schema: Schema, m: Maps, records: seq<Tuple>)
    requires |m.entries| == |schema.uniqueIndices|
    ensures AddedAll(schema, m, records[..0]) == m
  {
  }

  lemma AddedOneMore(schema: Schema, m: Maps, records: seq<Tuple>, n: nat)
    requires AllWide(schema, records) && |m.entries| == |schema.uniqueIndices| && n < |records|
    ensures AddedAll(schema, m, records[..n + 1]) == Added(schema, AddedAll(schema, m, records[..n]), records[n])
  {
    assert records[..n + 1][..n] == records[..n];
  }

  function RowsFor(schema: Schema, records: seq<Tuple>): seq<Pair>
    requires AllWide(schema, records)
  {
    seq(|records|, i requires 0 <= i < |records| => RowFor(schema, records[i]))
  }

  /** The rows of a run do not depend on the indexes: a row is stored also when an index refuses it. */
  lemma {:induction false} AddedRows(schema: Schema, m: Maps, records: seq<Tuple>)
    requires AllWide(schema, records) && |m.entries| == |schema.uniqueIndices|
    ensures AddedAll(schema, m, records).rows == AddAll(m.rows, RowsFor(schema, records))
  {
    hide RowPair;
    if records != [] {
      var n := |records| - 1;
      AddedRows(schema, m, records[..n]);
      assert RowsFor(schema, records)[..n] == RowsFor(schema, records[..n]);
    }
  }

  // ----- the trees and the maps -----

  lemma {:induction false} FirstRefusalIs(schema: Schema, m: Maps, record: Tuple, i: nat, k: nat)
    requires Wide(record, schema) && |m.entries| == |schema.uniqueIndices| && i <= k <= |m.entries|
    requires forall j | i <= j < k :: EntryFor(schema, record, j).key !in m.entries[j]
    requires k < |m.entries| ==> EntryFor(schema, record, k).key in m.entries[k]
    ensures FirstRefusal(schema, m, record, i) == k
    decreases k - i
  {
    if i < k { FirstRefusalIs(schema, m, record, i + 1, k); }
  }

  ghost predicate AllSorted(states: seq<TreeState>) {
    forall i | 0 <= i < |states| :: Ascending(Contents(states[i].t))
  }

  /** Storing a row and its first `k` entries is what one insertion does to the maps, when the next
      index refuses or there is none. */
  lemma RowStoredAdds(schema: Schema, record: Tuple, states: seq<TreeState>, states': seq<TreeState>, k: nat)
    requires RowStored(schema, record, states, states', k) && AllSorted(states)
    requires k < |schema.uniqueIndices| ==> HasKey(EntriesIn(states, k), EntryFor(schema, record, k).key)
    ensures MapsOf(states') == Added(schema, MapsOf(states), record)
  {
    hide RowPair, IndexPair, ToMap, SortedInsert, HasKey, Contents, Ascending;
    var m, m' := MapsOf(states), MapsOf(states');
    assert Ascending(RowsIn(states));
    ToMapInsert(RowsIn(states), RowFor(schema, record));
    ToMapKeys(RowsIn(states), RowFor(schema, record).key);
    forall i | 0 <= i < k
      ensures EntryFor(schema, record, i).key !in m.entries[i]
      ensures m'.entries[i] == m.entries[i][EntryFor(schema, record, i).key := EntryFor(schema, record, i).value]
    {
      assert Ascending(EntriesIn(states, i));
      ToMapKeys(EntriesIn(states, i), EntryFor(schema, record, i).key);
      ToMapInsert(EntriesIn(states, i), EntryFor(schema, record, i));
    }
    if k < |schema.uniqueIndices| { ToMapKeys(EntriesIn(states, k), EntryFor(schema, record, k).key); }
    FirstRefusalIs(schema, m, record, 0, k);
  }

  /** The record is accepted: said of the trees. */
  ghost predicate Admits(schema: Schema, states: seq<TreeState>, record: Tuple)
    requires Wide(record, schema) && |states| == |schema.uniqueIndices| + 1
  {
    && !HasKey(RowsIn(states), RowFor(schema, record).key)
    && forall i | 0 <= i < |schema.uniqueIndices| :: !HasKey(EntriesIn(states, i), EntryFor(schema, record, i).key)
  }

  lemma AdmitsIsTakes(schema: Schema, states: seq<TreeState>, record: Tuple)
    requires Wide(record, schema) && |states| == |schema.uniqueIndices| + 1
    ensures Admits(schema, states, record) <==> Takes(schema, MapsOf(states), record)
  {
    hide RowPair, IndexPair, ToMap, HasKey, Contents;
    ToMapKeys(RowsIn(states), RowFor(schema, record).key);
    forall i | 0 <= i < |schema.uniqueIndices|
      ensures HasKey(EntriesIn(states, i), EntryFor(schema, record, i).key) <==>
                EntryFor(schema, record, i).key in MapsOf(states).entries[i]
    {
      ToMapKeys(EntriesIn(states, i), EntryFor(schema, record, i).key);
    }
  }

  // ----- when the indexes know every row -----

  /** No two rows agree in the columns of an index. */
  ghost predicate Distinguishes(schema: Schema, rows: map<Bytes, Bytes>) {
    forall i, k, k' | 0 <= i < |schema.uniqueIndices| && k in rows && k' in rows && k != k' ::
      Columns(RecordOf(Pair(k, rows[k])), schema.uniqueIndices[i].skey) !=
      Columns(RecordOf(Pair(k', rows[k'])), schema.uniqueIndices[i].skey)
  }

  lemma RowOfKey(ps: seq<Pair>, k: Bytes)
    requires Ascending(ps) && k in ToMap(ps)
    ensures Pair(k, ToMap(ps)[k]) in ps
  {
    hide Lt, ToMap;
    ToMapKeys(ps, k);
    var i :| 0 <= i < |ps| && ps[i].key == k;
    ToMapValue(ps, i);
  }

  lemma KeyOfRow(ps: seq<Pair>, p: Pair)
    requires Ascending(ps) && p in ps
    ensures p.key in ToMap(ps) && ToMap(ps)[p.key] == p.value
  {
    hide Lt, ToMap;
    var i :| 0 <= i < |ps| && ps[i] == p;
    ToMapValue(ps, i);
  }

  lemma EntryOf(e: Pair, p: Pair, schema: Schema, cols: seq<nat>)
    requires IsEntry(e, p, schema.numKeyElems, cols) && p == RowPair(RecordOf(p), schema.numKeyElems)
    ensures e.key == EncodeTuple(Columns(RecordOf(p), cols)) && e.value == p.key
  {
  }

  /** With an entry for every row, rows that agree in the columns of an index have the same entry, and so
      are one row. */
  lemma CompleteDistinguishes(schema: Schema, states: seq<TreeState>)
    requires |states| == |schema.uniqueIndices| + 1 && TableSound(schema, states) && AllSorted(states)
    requires TableComplete(schema, states)
    ensures Distinguishes(schema, ToMap(RowsIn(states)))
  {
    hide RecordOf, Contents, Ascending, ToMap, Columns, EncodeTuple, IsEntry, IndexSound, RowPair;
    var rows := RowsIn(states);
    assert Ascending(rows);
    forall i, k, k' | 0 <= i < |schema.uniqueIndices| && k in ToMap(rows) && k' in ToMap(rows) && k != k'
      ensures Columns(RecordOf(Pair(k, ToMap(rows)[k])), schema.uniqueIndices[i].skey)
        != Columns(RecordOf(Pair(k', ToMap(rows)[k'])), schema.uniqueIndices[i].skey)
    {
      var cols, entries := schema.uniqueIndices[i].skey, EntriesIn(states, i);
      assert Ascending(entries) && IndexComplete(rows, entries, schema.numKeyElems, cols);
      RowOfKey(rows, k);
      RowOfKey(rows, k');
      var p, p' := Pair(k, ToMap(rows)[k]), Pair(k', ToMap(rows)[k']);
      var e :| e in entries && IsEntry(e, p, schema.numKeyElems, cols);
      var e' :| e' in entries && IsEntry(e', p', schema.numKeyElems, cols);
      EntryOf(e, p, schema, cols);
      EntryOf(e', p', schema, cols);
      if e.key == e'.key { SameKeySamePair(entries, e, e'); }
    }
  }

  lemma EntryOfItself(p: Pair, n: nat, cols: seq<nat>)
    requires n <= |RecordOf(p)| && Covers(RecordOf(p), cols)
    ensures IsEntry(IndexPair(RecordOf(p), n, cols), p, n, cols)
  {
  }

  /** A row an index has refused agrees in its columns with the row the index has the key for. */
  lemma RefusedAgrees(schema: Schema, states: seq<TreeState>)
    requires |states| == |schema.uniqueIndices| + 1 && TableSound(schema, states) && AllSorted(states)
    requires SomeRefused(schema, states)
    ensures !Distinguishes(schema, ToMap(RowsIn(states)))
  {
    hide RecordOf, Contents, Ascending, ToMap, Columns, EncodeTuple, IsEntry, RowPair, IndexPair;
    var rows, n := RowsIn(states), schema.numKeyElems;
    assert Ascending(rows);
    var i, p :| 0 <= i < |schema.uniqueIndices| && p in rows &&
                Refused(p, EntriesIn(states, i), n, schema.uniqueIndices[i].skey);
    var cols, entries := schema.uniqueIndices[i].skey, EntriesIn(states, i);
    var x := IndexPair(RecordOf(p), n, cols);
    var j :| 0 <= j < |entries| && entries[j].key == x.key;
    var e := entries[j];
    assert e in entries && IndexSound(rows, entries, n, cols);
    var q :| q in rows && IsEntry(e, q, n, cols);
    assert IsEntry(x, p, n, cols) by { EntryOfItself(p, n, cols); }
    EntryOf(x, p, schema, cols);
    EntryOf(e, q, schema, cols);
    EncodeInjective(Columns(RecordOf(p), cols), Columns(RecordOf(q), cols));
    KeyOfRow(rows, p);
    KeyOfRow(rows, q);
    assert Pair(p.key, ToMap(rows)[p.key]) == p && Pair(q.key, ToMap(rows)[q.key]) == q;
  }

  lemma {:induction false} RefusalBefore(schema: Schema, m: Maps, record: Tuple, i: nat, j: nat)
    requires Wide(record, schema) && |m.entries| == |schema.uniqueIndices| && i <= j < |m.entries|
    requires EntryFor(schema, record, j).key in m.entries[j]
    ensures FirstRefusal(schema, m, record, i) <= j
    decreases j - i
  {
    if i < j { RefusalBefore(schema, m, record, i + 1, j); }
  }

  /** Two records with different primary keys that agree in the columns of an index: after the first, the
      second one is stored although it is not accepted, and from then on there is an index that does
      not know every row. */
  lemma SecondIsRefused(schema: Schema, m: Maps, a: Tuple, b: Tuple, i: nat)
    requires Wide(a, schema) && Wide(b, schema) && |m.entries| == |schema.uniqueIndices| && i < |m.entries|
    requires Takes(schema, m, a) && RowFor(schema, b).key !in m.rows
    requires a[..schema.numKeyElems] != b[..schema.numKeyElems]
    requires SecondaryKey(a, schema.uniqueIndices[i].skey) == SecondaryKey(b, schema.uniqueIndices[i].skey)
    ensures var after := Added(schema, m, a); var end := Added(schema, after, b);
      && !Takes(schema, after, b) && RowFor(schema, b).key in end.rows && end.entries[i] == after.entries[i]
      && !Distinguishes(schema, end.rows)
  {
    hide EncodeTuple, RecordOf;
    FirstRefusalIs(schema, m, a, 0, |m.entries|);
    var after := Added(schema, m, a);
    var end := Added(schema, after, b);
    if RowFor(schema, a).key == RowFor(schema, b).key {
      EncodeInjective(a[..schema.numKeyElems], b[..schema.numKeyElems]);
    }
    assert EntryFor(schema, b, i).key in after.entries[i];
    RefusalBefore(schema, after, b, 0, i);
    RecordOfRow(a, schema.numKeyElems);
    RecordOfRow(b, schema.numKeyElems);
    var k, k' := RowFor(schema, a).key, RowFor(schema, b).key;
    assert Pair(k, end.rows[k]) == RowFor(schema, a) && Pair(k', end.rows[k']) == RowFor(schema, b);
  }

  /** The smallest such case: a fresh table of two columns with the first as its key and an index on the
      second, and the rows (1, 7) and (2, 7). */
  lemma RefusedExample()
    ensures var schema := Schema(BTree(0), 1, [UniqueIndex(BTree(1), [1])]); var a, b := [[1], [7]], [[2], [7]];
      var start := Maps(map[], [map[]]);
      && AllWide(schema, [a, b])
      && |AddedAll(schema, start, [a, b]).rows| == 2 && |AddedAll(schema, start, [a, b]).entries[0]| == 1
      && !Distinguishes(schema, AddedAll(schema, start, [a, b]).rows)
  {
    hide EncodeTuple, RecordOf, Distinguishes;
    var schema := Schema(BTree(0), 1, [UniqueIndex(BTree(1), [1])]);
    var a, b: Tuple := [[1], [7]], [[2], [7]];
    var start := Maps(map[], [map[]]);
    assert Wide(a, schema) && Wide(b, schema);
    assert a[..1] == [[1]] && b[..1] == [[2]];
    SecondIsRefused(schema, start, a, b, 0);
    FirstRefusalIs(schema, start, a, 0, 1);
    if RowFor(schema, a).key == RowFor(schema, b).key { EncodeInjective([[1]], [[2]]); }
    AddedNone(schema, start, [a, b]);
    AddedOneMore(schema, start, [a, b], 0);
    AddedOneMore(schema, start, [a, b], 1);
    assert [a, b][..2] == [a, b];
  }
}
