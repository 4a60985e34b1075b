/** src/query.rs: what scans and filters yield, said of the rows of a table. */
module Ranges {
  import opened Bytes
  import opened PairCodec
  import opened NodeSpec
  import opened Iteration
  import opened TupleCodec
  import opened Rows

  datatype TupleSearchMode = Start | Key(elems: Tuple) {
    ghost function Mode(): SearchMode {
      match this
      case Start => SearchMode.Start
      case Key(elems) => SearchMode.Key(EncodeTuple(elems))
    }

    method Encode() returns (mode: SearchMode)
      ensures mode == Mode()
    {
      match this
      case Start =>
        mode := SearchMode.Start;
      case Key(elems) =>
        var key := TupleCodec.Encode(elems, []);
        mode := SearchMode.Key(key);
    }

    /** A tuple that the search has not passed over. */
    ghost predicate Reaches(t: Tuple) {
      Key? ==> !TupleLt(t, elems)
    }
  }

  // ----- what a scan yields -----

  /** A scan goes on while its condition holds of the elements of the key. */
  type Cond = Tuple -> bool

  /** How many pairs there are before the first whose key fails the condition. */
  ghost function Reach(ps: seq<Pair>, whileCond: Cond): (n: nat)
    ensures n <= |ps|
    ensures forall i | 0 <= i < n :: whileCond(Elements(ps[i].key))
    ensures n < |ps| ==> !whileCond(Elements(ps[n].key))
  {
    if ps == [] || !whileCond(Elements(ps[0].key)) then 0 else 1 + Reach(ps[1..], whileCond)
  }

  ghost function Records(ps: seq<Pair>): seq<Tuple> {
    seq(|ps|, i requires 0 <= i < |ps| => RecordOf(ps[i]))
  }

  /** The records up to the first whose key fails the condition. */
  ghost function ScanOf(ps: seq<Pair>, whileCond: Cond): seq<Tuple> {
    Records(ps[..Reach(ps, whileCond)])
  }

  ghost function Select(ts: seq<Tuple>, cond: Cond): seq<Tuple> {
    if ts == [] then []
    else (if cond(ts[0]) then [ts[0]] else []) + Select(ts[1..], cond)
  }

  /** What one call of a scan returns, with `ps` to come. */
  ghost function FirstOf(ps: seq<Pair>, whileCond: Cond): Option<Tuple> {
    if ps == [] || !whileCond(Elements(ps[0].key)) then None else Some(RecordOf(ps[0]))
  }

  lemma ScanStep(ps: seq<Pair>, whileCond: Cond)
    ensures FirstOf(ps, whileCond).None? ==> ScanOf(ps, whileCond) == []
    ensures FirstOf(ps, whileCond).Some? ==>
              ScanOf(ps, whileCond) == [FirstOf(ps, whileCond).value] + ScanOf(ps[1..], whileCond)
  {
    hide RecordOf, Elements;
    var n := Reach(ps, whileCond);
    if n > 0 {
      assert ps[..n][1..] == ps[1..][..n - 1];
    }
  }

  lemma SelectStep(t: Tuple, ts: seq<Tuple>, cond: Cond)
    ensures Select([t] + ts, cond) == (if cond(t) then [t] else []) + Select(ts, cond)
  {
    assert ([t] + ts)[1..] == ts;
  }

  // ----- what a scan means for the table -----

  ghost function RowSet(rows: seq<Pair>): set<Pair> { set p | p in rows }

  /** The rows that have an entry in the index. */
  ghost function Indexed(rows: seq<Pair>, entries: seq<Pair>, n: nat, cols: seq<nat>): set<Pair> {
    set p | p in rows && exists e | e in entries :: IsEntry(e, p, n, cols)
  }

  /** An index knows every row if and only if every row has an entry in it. */
  lemma IndexedIsAll(rows: seq<Pair>, entries: seq<Pair>, n: nat, cols: seq<nat>)
    ensures Indexed(rows, entries, n, cols) == RowSet(rows) <==> IndexComplete(rows, entries, n, cols)
  {
    hide IsEntry;
    forall p | p in rows
      ensures p in Indexed(rows, entries, n, cols) <==> exists e | e in entries :: IsEntry(e, p, n, cols)
    {
    }
    if Indexed(rows, entries, n, cols) == RowSet(rows) {
      forall p | p in rows
        ensures exists e | e in entries :: IsEntry(e, p, n, cols)
      {
        assert p in RowSet(rows);
      }
    }
  }

  ghost predicate IsRow(rows: set<Pair>, record: Tuple) {
    exists p | p in rows :: RecordOf(p) == record
  }

  ghost predicate KeyedBy(e: Pair, record: Tuple, cols: seq<nat>) {
    e.key == EncodeTuple(Columns(record, cols))
  }

  /** The record is a row that the search reaches, and no row it reaches up to there fails the condition. */
  ghost predicate InRange(record: Tuple, rows: set<Pair>, cols: seq<nat>, mode: TupleSearchMode, whileCond: Cond) {
    && IsRow(rows, record) && mode.Reaches(Columns(record, cols))
    && forall r |
         IsRow(rows, r) && mode.Reaches(Columns(r, cols)) && !TupleLt(Columns(record, cols), Columns(r, cols)) ::
         whileCond(Columns(r, cols))
  }

  /** Strictly increasing, in the order of tuples. */
  ghost predicate Ordered(out: seq<Tuple>, cols: seq<nat>) {
    forall i, j | 0 <= i < j < |out| :: TupleLt(Columns(out[i], cols), Columns(out[j], cols))
  }

  /** What a scan by `cols` is to yield, said of the rows alone. */
  ghost predicate IsRange(out: seq<Tuple>, rows: set<Pair>, cols: seq<nat>, mode: TupleSearchMode, whileCond: Cond) {
    Ordered(out, cols) && forall r :: r in out <==> InRange(r, rows, cols, mode, whileCond)
  }

  /** Sorted entries, each keyed by the columns of a row. */
  ghost predicate KeysOfRows(entries: seq<Pair>, rows: set<Pair>, cols: seq<nat>) {
    Ascending(entries) && forall e | e in entries :: exists r :: IsRow(rows, r) && KeyedBy(e, r, cols)
  }

  /** Every row has its entry, and no two rows agree in the columns. */
  ghost predicate RowsByKeys(entries: seq<Pair>, rows: set<Pair>, cols: seq<nat>) {
    && (forall r | IsRow(rows, r) :: exists e | e in entries :: KeyedBy(e, r, cols))
    && forall r, r' | IsRow(rows, r) && IsRow(rows, r') && Columns(r, cols) == Columns(r', cols) :: r == r'
  }

  /** The rows the entries stand for, up to the first entry that fails the condition. */
  ghost predicate Fetched(out: seq<Tuple>, from: seq<Pair>, rows: set<Pair>, cols: seq<nat>, whileCond: Cond) {
    && |out| == Reach(from, whileCond)
    && forall i | 0 <= i < |out| :: IsRow(rows, out[i]) && KeyedBy(from[i], out[i], cols)
  }

  lemma KeyedElements(e: Pair, record: Tuple, cols: seq<nat>)
    requires KeyedBy(e, record, cols)
    ensures Elements(e.key) == Columns(record, cols)
  {
    DecodeEncode(Columns(record, cols));
  }

  /** A search for encoded elements reaches the entries of the tuples that are not smaller. */
  lemma EntryReached(entries: seq<Pair>, e: Pair, record: Tuple, cols: seq<nat>, mode: TupleSearchMode)
    requires Ascending(entries) && e in entries && KeyedBy(e, record, cols)
    ensures e in From(entries, mode.Mode()) <==> mode.Reaches(Columns(record, cols))
  {
    hide Lt, EncodeTuple, TupleLt, Columns;
    if mode.Key? {
      var k := EncodeTuple(mode.elems);
      FromIsExact(entries, k, e);
      OrderEmbedding(Columns(record, cols), mode.elems);
      LtTotal(k, e.key);
      LtIrreflexive(k);
      if Lt(k, e.key) { LtAsymmetric(k, e.key); }
    }
  }

  lemma FromAscending(entries: seq<Pair>, mode: SearchMode)
    requires Ascending(entries)
    ensures Ascending(From(entries, mode))
    ensures forall e | e in From(entries, mode) :: e in entries
  {
    hide Lt, LowerBound;
  }

  /** Entries and the tuples they are keyed by are in the same order. */
  lemma SameOrder(from: seq<Pair>, i: nat, j: nat, r: Tuple, r': Tuple, cols: seq<nat>)
    requires Ascending(from) && i < |from| && j < |from| && KeyedBy(from[i], r, cols) && KeyedBy(from[j], r', cols)
    ensures i < j <==> TupleLt(Columns(r, cols), Columns(r', cols))
  {
    hide Lt, EncodeTuple, TupleLt, Columns;
    OrderEmbedding(Columns(r, cols), Columns(r', cols));
    LtIrreflexive(from[i].key);
    if j < i { LtAsymmetric(from[j].key, from[i].key); }
  }

  /** Whatever the index lacks: the rows come in order, are rows that the search reaches, and meet the condition. */
  lemma FetchedWithin(out: seq<Tuple>, entries: seq<Pair>, rows: set<Pair>, cols: seq<nat>, mode: TupleSearchMode,
                      whileCond: Cond)
    requires KeysOfRows(entries, rows, cols) && Fetched(out, From(entries, mode.Mode()), rows, cols, whileCond)
    ensures Ordered(out, cols)
    ensures forall r | r in out :: IsRow(rows, r) && mode.Reaches(Columns(r, cols)) && whileCond(Columns(r, cols))
  {
    hide From, TupleLt, Columns, IsRow, KeyedBy, Ascending, Elements;
    var from := From(entries, mode.Mode());
    FromAscending(entries, mode.Mode());
    forall i, j | 0 <= i < j < |out|
      ensures TupleLt(Columns(out[i], cols), Columns(out[j], cols))
    {
      SameOrder(from, i, j, out[i], out[j], cols);
    }
    forall i | 0 <= i < |out|
      ensures mode.Reaches(Columns(out[i], cols)) && whileCond(Columns(out[i], cols))
    {
      assert from[i] in from;
      EntryReached(entries, from[i], out[i], cols, mode);
      KeyedElements(from[i], out[i], cols);
    }
  }

  /** Where the entry of a row is among those to come. */
  lemma PlaceOf(entries: seq<Pair>, rows: set<Pair>, cols: seq<nat>, mode: TupleSearchMode,
                record: Tuple)
    returns (i: nat)
    requires KeysOfRows(entries, rows, cols) && RowsByKeys(entries, rows, cols)
    requires IsRow(rows, record) && mode.Reaches(Columns(record, cols))
    ensures i < |From(entries, mode.Mode())| && KeyedBy(From(entries, mode.Mode())[i], record, cols)
  {
    hide From, TupleLt, Columns, IsRow, KeyedBy, Ascending;
    var e :| e in entries && KeyedBy(e, record, cols);
    EntryReached(entries, e, record, cols, mode);
    i :| 0 <= i < |From(entries, mode.Mode())| && From(entries, mode.Mode())[i] == e;
  }

  lemma FetchedInRange(out: seq<Tuple>, entries: seq<Pair>, rows: set<Pair>, cols: seq<nat>, mode: TupleSearchMode,
                       whileCond: Cond, i: nat)
    requires KeysOfRows(entries, rows, cols) && RowsByKeys(entries, rows, cols)
    requires Fetched(out, From(entries, mode.Mode()), rows, cols, whileCond) && i < |out|
    ensures InRange(out[i], rows, cols, mode, whileCond)
  {
    hide From, TupleLt, Columns, IsRow, KeyedBy, Ascending, Elements, Ordered;
    var from := From(entries, mode.Mode());
    FromAscending(entries, mode.Mode());
    FetchedWithin(out, entries, rows, cols, mode, whileCond);
    forall r | IsRow(rows, r) && mode.Reaches(Columns(r, cols)) && !TupleLt(Columns(out[i], cols), Columns(r, cols))
      ensures whileCond(Columns(r, cols))
    {
      var j := PlaceOf(entries, rows, cols, mode, r);
      SameOrder(from, i, j, out[i], r, cols);
      KeyedElements(from[j], r, cols);
    }
  }

  lemma InRangeFetched(out: seq<Tuple>, entries: seq<Pair>, rows: set<Pair>, cols: seq<nat>, mode: TupleSearchMode,
                       whileCond: Cond, record: Tuple)
    requires KeysOfRows(entries, rows, cols) && RowsByKeys(entries, rows, cols)
    requires Fetched(out, From(entries, mode.Mode()), rows, cols, whileCond)
    requires InRange(record, rows, cols, mode, whileCond)
    ensures record in out
  {
    hide From, TupleLt, Columns, IsRow, Ascending, Elements, EncodeTuple;
    var from := From(entries, mode.Mode());
    FromAscending(entries, mode.Mode());
    var i := PlaceOf(entries, rows, cols, mode, record);
    var n := Reach(from, whileCond);
    if n <= i {
      assert from[n] in from;
      var r :| IsRow(rows, r) && KeyedBy(from[n], r, cols);
      EntryReached(entries, from[n], r, cols, mode);
      SameOrder(from, i, n, record, r, cols);
      KeyedElements(from[n], r, cols);
      assert false;
    }
    EncodeInjective(Columns(out[i], cols), Columns(record, cols));
  }

  /** With an entry for every row: exactly the rows of the range. */
  lemma FetchedIsRange(out: seq<Tuple>, entries: seq<Pair>, rows: set<Pair>, cols: seq<nat>, mode: TupleSearchMode,
                       whileCond: Cond)
    requires KeysOfRows(entries, rows, cols) && RowsByKeys(entries, rows, cols)
    requires Fetched(out, From(entries, mode.Mode()), rows, cols, whileCond)
    ensures IsRange(out, rows, cols, mode, whileCond)
  {
    hide From, TupleLt, Columns, IsRow, KeyedBy, Ascending, Ordered, InRange;
    FetchedWithin(out, entries, rows, cols, mode, whileCond);
    forall r
      ensures r in out <==> InRange(r, rows, cols, mode, whileCond)
    {
      if r in out {
        var i :| 0 <= i < |out| && out[i] == r;
        FetchedInRange(out, entries, rows, cols, mode, whileCond, i);
      }
      if InRange(r, rows, cols, mode, whileCond) {
        InRangeFetched(out, entries, rows, cols, mode, whileCond, r);
      }
    }
  }

  // ----- scans of the table's own tree -----

  /** The columns of the primary key. */
  ghost function Firsts(n: nat): seq<nat> { seq(n, i requires 0 <= i < n => i) }

  lemma PrimaryColumns(record: Tuple, n: nat)
    requires n <= |record|
    ensures Columns(record, Firsts(n)) == record[..n]
  {
  }

  /** The table's tree is an index of its rows by primary key. */
  lemma TableKeys(rows: seq<Pair>, schema: Schema)
    requires Ascending(rows) && AreRows(rows, schema)
    ensures KeysOfRows(rows, RowSet(rows), Firsts(schema.numKeyElems))
    ensures RowsByKeys(rows, RowSet(rows), Firsts(schema.numKeyElems))
  {
    hide Ascending, RecordOf, Columns, Firsts, EncodeTuple;
    var n, all := schema.numKeyElems, RowSet(rows);
    forall p | p in rows
      ensures IsRow(all, RecordOf(p)) && KeyedBy(p, RecordOf(p), Firsts(n))
    {
      assert p in all;
      PrimaryColumns(RecordOf(p), n);
    }
    forall r, r' | IsRow(all, r) && IsRow(all, r') && Columns(r, Firsts(n)) == Columns(r', Firsts(n))
      ensures r == r'
    {
      var p :| p in all && RecordOf(p) == r;
      var p' :| p' in all && RecordOf(p') == r';
      SameKeySamePair(rows, p, p');
    }
  }

  /** A scan of the table, up to the first None: the rows from the search tuple on, in the order of
      their primary keys, up to the first that fails the condition. */
  lemma SeqScanIsRange(rows: seq<Pair>, schema: Schema, mode: TupleSearchMode, whileCond: Cond)
    requires Ascending(rows) && AreRows(rows, schema)
    ensures IsRange(ScanOf(From(rows, mode.Mode()), whileCond), RowSet(rows), Firsts(schema.numKeyElems), mode,
                    whileCond)
  {
    hide Ascending, RecordOf, Columns, Firsts, EncodeTuple, From, KeysOfRows, RowsByKeys, IsRange;
    var cols, from, all := Firsts(schema.numKeyElems), From(rows, mode.Mode()), RowSet(rows);
    TableKeys(rows, schema);
    FromAscending(rows, mode.Mode());
    forall i | 0 <= i < |from|
      ensures IsRow(all, RecordOf(from[i])) && KeyedBy(from[i], RecordOf(from[i]), cols)
    {
      assert from[i] in from && from[i] in all;
      PrimaryColumns(RecordOf(from[i]), schema.numKeyElems);
    }
    FetchedIsRange(ScanOf(from, whileCond), rows, all, cols, mode, whileCond);
  }

  /** What a filter keeps of a range: the records that meet its condition, still in order. */
  lemma {:induction false} SelectKeeps(ts: seq<Tuple>, cond: Cond, cols: seq<nat>)
    requires Ordered(ts, cols)
    ensures Ordered(Select(ts, cond), cols)
    ensures forall t :: t in Select(ts, cond) <==> t in ts && cond(t)
  {
    hide Columns, TupleLt;
    if ts != [] {
      var kept := Select(ts[1..], cond);
      SelectKeeps(ts[1..], cond, cols);
      assert ts == [ts[0]] + ts[1..];
      forall i | 0 <= i < |kept|
        ensures TupleLt(Columns(ts[0], cols), Columns(kept[i], cols))
      {
        assert kept[i] in ts[1..];
      }
    }
  }

  // ----- scans of an index -----

  /** The row an entry leads to: the first pair from its primary key on. */
  ghost function RowNamed(rows: seq<Pair>, e: Pair): Tuple {
    var found := From(rows, SearchMode.Key(e.value));
    if found == [] then [] else RecordOf(found[0])
  }

  /** The rows the entries lead to, up to the first entry that fails the condition. */
  ghost function LookupsOf(ps: seq<Pair>, whileCond: Cond, rows: seq<Pair>): seq<Tuple> {
    seq(Reach(ps, whileCond), i requires 0 <= i < Reach(ps, whileCond) => RowNamed(rows, ps[i]))
  }

  lemma LookupStep(ps: seq<Pair>, whileCond: Cond, rows: seq<Pair>)
    ensures ps == [] || !whileCond(Elements(ps[0].key)) ==> LookupsOf(ps, whileCond, rows) == []
    ensures ps != [] && whileCond(Elements(ps[0].key)) ==>
              LookupsOf(ps, whileCond, rows) == [RowNamed(rows, ps[0])] + LookupsOf(ps[1..], whileCond, rows)
  {
    hide RowNamed, Elements;
  }

  /** The lookup an entry leads to finds its row, which is the first pair from the primary key on. */
  lemma LookupFinds(rows: seq<Pair>, entries: seq<Pair>, schema: Schema, cols: seq<nat>, e: Pair)
    requires Ascending(rows) && AreRows(rows, schema) && IndexSound(rows, entries, schema.numKeyElems, cols)
    requires e in entries
    ensures From(rows, SearchMode.Key(e.value)) != []
    ensures From(rows, SearchMode.Key(e.value))[0] in rows
    ensures IsEntry(e, From(rows, SearchMode.Key(e.value))[0], schema.numKeyElems, cols)
  {
    hide Lt, RecordOf, SecondaryKey, Covers, EncodeTuple, Wide, LowerBound;
    var p :| p in rows && IsEntry(e, p, schema.numKeyElems, cols);
    var i :| 0 <= i < |rows| && rows[i] == p;
    FoundIsLowerBound(rows, i, e.value);
  }

  lemma EntryKeyed(e: Pair, p: Pair, n: nat, cols: seq<nat>)
    requires IsEntry(e, p, n, cols)
    ensures e.key == EncodeTuple(Columns(RecordOf(p), cols)) && KeyedBy(e, RecordOf(p), cols)
    ensures e.value == EncodeTuple(RecordOf(p)[..n])
  {
  }

  lemma IndexEntries(entries: seq<Pair>, rows: seq<Pair>, n: nat, cols: seq<nat>)
    requires IndexSound(rows, entries, n, cols)
    ensures forall e | e in entries :: exists r :: IsRow(Indexed(rows, entries, n, cols), r) && KeyedBy(e, r, cols)
    ensures forall r | IsRow(Indexed(rows, entries, n, cols), r) :: exists e | e in entries :: KeyedBy(e, r, cols)
  {
    hide RecordOf, EncodeTuple, IsEntry, KeyedBy, Columns;
    var known := Indexed(rows, entries, n, cols);
    forall e | e in entries
      ensures exists r :: IsRow(known, r) && KeyedBy(e, r, cols)
    {
      var p :| p in rows && IsEntry(e, p, n, cols);
      assert p in known;
      EntryKeyed(e, p, n, cols);
      assert IsRow(known, RecordOf(p)) && KeyedBy(e, RecordOf(p), cols);
    }
    forall r | IsRow(known, r)
      ensures exists e | e in entries :: KeyedBy(e, r, cols)
    {
      var p :| p in known && RecordOf(p) == r;
      var e :| e in entries && IsEntry(e, p, n, cols);
      EntryKeyed(e, p, n, cols);
    }
  }

  /** Two rows with an entry in one index do not agree in its columns. */
  lemma IndexedDiffer(entries: seq<Pair>, rows: seq<Pair>, schema: Schema, cols: seq<nat>, p: Pair, p': Pair)
    requires Ascending(entries) && Ascending(rows) && AreRows(rows, schema)
    requires p in Indexed(rows, entries, schema.numKeyElems, cols)
    requires p' in Indexed(rows, entries, schema.numKeyElems, cols)
    requires Columns(RecordOf(p), cols) == Columns(RecordOf(p'), cols)
    ensures p == p'
  {
    hide Ascending, RecordOf, EncodeTuple, IsEntry, KeyedBy, Columns, Wide;
    var n := schema.numKeyElems;
    var e :| e in entries && IsEntry(e, p, n, cols);
    var e' :| e' in entries && IsEntry(e', p', n, cols);
    EntryKeyed(e, p, n, cols);
    EntryKeyed(e', p', n, cols);
    SameKeySamePair(entries, e, e');
    SameKeySamePair(rows, p, p');
  }

  /** Any index whose entries are sound is an index of the rows that have one. */
  lemma IndexKeys(entries: seq<Pair>, rows: seq<Pair>, schema: Schema, cols: seq<nat>)
    requires Ascending(entries) && Ascending(rows) && AreRows(rows, schema)
    requires IndexSound(rows, entries, schema.numKeyElems, cols)
    ensures KeysOfRows(entries, Indexed(rows, entries, schema.numKeyElems, cols), cols)
    ensures RowsByKeys(entries, Indexed(rows, entries, schema.numKeyElems, cols), cols)
  {
    hide Ascending, RecordOf, KeyedBy, Columns, AreRows, IndexSound, Indexed;
    var known := Indexed(rows, entries, schema.numKeyElems, cols);
    IndexEntries(entries, rows, schema.numKeyElems, cols);
    forall r, r' | IsRow(known, r) && IsRow(known, r') && Columns(r, cols) == Columns(r', cols)
      ensures r == r'
    {
      var p :| p in known && RecordOf(p) == r;
      var p' :| p' in known && RecordOf(p') == r';
      IndexedDiffer(entries, rows, schema, cols, p, p');
    }
  }

  /** A scan of an index, up to the first None, whatever the index lacks: of the rows that have an entry
      in it, those from the search tuple on, in the order of the index, up to the first that fails the
      condition. */
  lemma IndexScanIsRange(entries: seq<Pair>, rows: seq<Pair>, schema: Schema, cols: seq<nat>, mode: TupleSearchMode,
                         whileCond: Cond)
    requires Ascending(entries) && Ascending(rows) && AreRows(rows, schema)
    requires IndexSound(rows, entries, schema.numKeyElems, cols)
    ensures IsRange(LookupsOf(From(entries, mode.Mode()), whileCond, rows),
                    Indexed(rows, entries, schema.numKeyElems, cols), cols, mode, whileCond)
  {
    hide Ascending, RecordOf, Columns, EncodeTuple, From, KeysOfRows, RowsByKeys, IsRange, IsEntry, KeyedBy, AreRows,
         IndexSound;
    var from, known := From(entries, mode.Mode()), Indexed(rows, entries, schema.numKeyElems, cols);
    IndexKeys(entries, rows, schema, cols);
    FromAscending(entries, mode.Mode());
    forall i | 0 <= i < |from|
      ensures IsRow(known, RowNamed(rows, from[i])) && KeyedBy(from[i], RowNamed(rows, from[i]), cols)
    {
      assert from[i] in from && from[i] in entries;
      LookupFinds(rows, entries, schema, cols, from[i]);
      var p := From(rows, SearchMode.Key(from[i].value))[0];
      assert p in known;
      EntryKeyed(from[i], p, schema.numKeyElems, cols);
    }
    FetchedIsRange(LookupsOf(from, whileCond, rows), entries, known, cols, mode, whileCond);
  }

  /** The elements of an entry's key and value: the columns of the index and those of the primary key. */
  lemma IndexOnlyRecord(e: Pair, p: Pair, n: nat, cols: seq<nat>)
    requires IsEntry(e, p, n, cols)
    ensures RecordOf(e) == SecondaryKey(RecordOf(p), cols) + RecordOf(p)[..n]
  {
    DecodeEncode(SecondaryKey(RecordOf(p), cols));
    DecodeEncode(RecordOf(p)[..n]);
  }

  /** A scan of the index alone, up to the first None: for each row that a scan with lookups finds, and in
      the same order, the columns of the index and then those of the primary key. */
  lemma IndexOnlyScanIs(entries: seq<Pair>, rows: seq<Pair>, schema: Schema, cols: seq<nat>,
                        mode: TupleSearchMode, whileCond: Cond)
    requires Ascending(entries) && Ascending(rows) && AreRows(rows, schema)
    requires IndexSound(rows, entries, schema.numKeyElems, cols)
    ensures var out := ScanOf(From(entries, mode.Mode()), whileCond);
      var found := LookupsOf(From(entries, mode.Mode()), whileCond, rows);
      && |out| == |found|
      && forall i | 0 <= i < |out| ::
           && schema.numKeyElems <= |found[i]| && Covers(found[i], cols)
           && out[i] == SecondaryKey(found[i], cols) + found[i][..schema.numKeyElems]
  {
    hide Ascending, RecordOf, EncodeTuple, From, AreRows, IndexSound, SecondaryKey, Covers;
    var from, n := From(entries, mode.Mode()), schema.numKeyElems;
    FromAscending(entries, mode.Mode());
    forall i | 0 <= i < Reach(from, whileCond)
      ensures n <= |RowNamed(rows, from[i])| && Covers(RowNamed(rows, from[i]), cols)
      ensures RecordOf(from[i]) == SecondaryKey(RowNamed(rows, from[i]), cols) + RowNamed(rows, from[i])[..n]
    {
      assert from[i] in from;
      LookupFinds(rows, entries, schema, cols, from[i]);
      IndexOnlyRecord(from[i], From(rows, SearchMode.Key(from[i].value))[0], n, cols);
    }
  }
}
