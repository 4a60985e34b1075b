/** src/query.rs: plans and executors. */
module Queries {
  import opened Bytes
  import opened PairCodec
  import opened NodeSpec
  import opened Tree
  import opened PageStore
  import opened InsertSteps
  import opened Iteration
  import opened BTrees
  import opened TupleCodec
  import opened Rows
  import opened Tables
  import opened Ranges

  // ----- pairs that decode -----

  /** Decoding the pair does not panic. */
  ghost predicate Decodes(p: Pair) {
    DecodeTuple(p.key).Some? && DecodeTuple(p.value).Some?
  }

  ghost predicate AllDecode(ps: seq<Pair>) {
    forall p | p in ps :: Decodes(p)
  }

  /** The rows of a table decode, and so do the entries of its indexes. */
  lemma TableDecodes(schema: Schema, states: seq<TreeState>)
    requires |states| == |schema.uniqueIndices| + 1 && TableSound(schema, states)
    ensures AllDecode(RowsIn(states))
    ensures forall i | 0 <= i < |schema.uniqueIndices| :: AllDecode(EntriesIn(states, i))
  {
    hide RecordOf, Contents, SecondaryKey, EncodeTuple, DecodeTuple;
    var n := schema.numKeyElems;
    forall p | p in RowsIn(states)
      ensures Decodes(p)
    {
      DecodeEncode(RecordOf(p)[..n]);
      DecodeEncode(RecordOf(p)[n..]);
    }
    forall i, e | 0 <= i < |schema.uniqueIndices| && e in EntriesIn(states, i)
      ensures Decodes(e)
    {
      var p :| p in RowsIn(states) && IsEntry(e, p, n, schema.uniqueIndices[i].skey);
      DecodeEncode(SecondaryKey(RecordOf(p), schema.uniqueIndices[i].skey));
      DecodeEncode(RecordOf(p)[..n]);
    }
  }

  lemma PairDecodes(e: Pair)
    requires Decodes(e)
    ensures DecodeTuple(e.key) == Some(Elements(e.key)) && DecodeTuple(e.value) == Some(Elements(e.value))
    ensures RecordOf(e) == Elements(e.key) + Elements(e.value)
    ensures [] + Elements(e.key) == Elements(e.key)
  {
  }

  // ----- executors of scans -----

  ghost function Tail(ps: seq<Pair>): seq<Pair> { if ps == [] then [] else ps[1..] }

  /** Also `ExecIndexOnlyScan`, which takes the same steps over an index. */
  class ExecSeqScan {
    const tableIter: Iter
    const whileCond: Cond

    constructor (tableIter: Iter, whileCond: Cond)
      ensures this.tableIter == tableIter && this.whileCond == whileCond
    {
      this.tableIter, this.whileCond := tableIter, whileCond;
    }

    /** The next record; None at the end and when its key fails the condition, in which case the pair
        is passed all the same. */
    method Next(store: Store, ghost ls: seq<LeafRec>, ghost j: nat, ghost rest: multiset<PageId>)
      returns (ok: bool, r: Option<Tuple>, ghost j': nat)
      requires store.Valid() && Readable(store.pages, ls, store.leafCapacity) && tableIter.Normal(ls, j)
      requires store.held == rest + multiset{tableIter.pageId} && AllDecode(Remaining(ls, j, tableIter.slotId))
      modifies tableIter, store`held, store.manager, store.manager.pool, store.manager.disk`heapFile
      ensures store.Valid() && store.held == rest + multiset{tableIter.pageId}
      ensures !ok ==> |rest| + 2 > store.frames
      ensures ok ==> tableIter.Normal(ls, j')
      ensures ok ==> r == FirstOf(Remaining(ls, j, old(tableIter.slotId)), whileCond)
      ensures ok ==> Remaining(ls, j', tableIter.slotId) == Tail(Remaining(ls, j, old(tableIter.slotId)))
    {
      hide Store.Valid, Readable, Remaining, DecodeTuple, Decodes, RecordOf, Elements;
      r := None;
      var pair;
      ok, pair, j' := tableIter.Next(store, ls, j, rest);
      if !ok || pair.None? {
        return;
      }
      assert pair.value in Remaining(ls, j, old(tableIter.slotId));
      PairDecodes(pair.value);
      var pkey := TupleCodec.Decode(pair.value.key, []);
      if !whileCond(pkey.value) {
        return;
      }
      r := TupleCodec.Decode(pair.value.value, pkey.value);
    }
  }

  /** What one call of a scan over an index returns, with `ps` to come. */
  ghost function FirstLookup(ps: seq<Pair>, whileCond: Cond, rows: seq<Pair>): Option<Tuple> {
    if ps == [] || !whileCond(Elements(ps[0].key)) then None else Some(RowNamed(rows, ps[0]))
  }

  class ExecIndexScan {
    const tableTree: BTree
    const indexIter: Iter
    const whileCond: Cond

    constructor (tableTree: BTree, indexIter: Iter, whileCond: Cond)
      ensures this.tableTree == tableTree && this.indexIter == indexIter && this.whileCond == whileCond
    {
      this.tableTree, this.indexIter, this.whileCond := tableTree, indexIter, whileCond;
    }

    /** The row of the next entry of index `k`. The row is always found, also when earlier insertions
        were refused by an index. */
    method Next(store: Store, ghost schema: Schema, ghost k: nat, ghost states: seq<TreeState>, ghost j: nat,
                ghost rest: multiset<PageId>)
      returns (ok: bool, r: Option<Tuple>, ghost j': nat)
      requires store.Valid() && TableValid(store.pages, schema, states, store.Capacities())
      requires k < |schema.uniqueIndices| && tableTree == schema.tree && indexIter.Normal(Leaves(states[k + 1].t), j)
      requires forall e | e in Remaining(Leaves(states[k + 1].t), j, indexIter.slotId) :: e in EntriesIn(states, k)
      requires store.held == rest + multiset{indexIter.pageId}
      modifies indexIter, store`held, store.manager, store.manager.pool, store.manager.disk`heapFile
      ensures store.Valid() && store.held == rest + multiset{indexIter.pageId}
      ensures !ok ==> |rest| + 3 > store.frames
      ensures ok ==> indexIter.Normal(Leaves(states[k + 1].t), j')
      ensures ok ==>
                Remaining(Leaves(states[k + 1].t), j', indexIter.slotId) ==
                    Tail(Remaining(Leaves(states[k + 1].t), j, old(indexIter.slotId)))
      ensures ok ==>
                r ==
                    FirstLookup(Remaining(Leaves(states[k + 1].t), j, old(indexIter.slotId)), whileCond, RowsIn(states))
    {
      hide Store.Valid, Ready, Readable, Remaining, From, Contents, Leaves, Ascending, AreRows, IndexSound, IsEntry,
           DecodeTuple, RecordOf, Decodes, Elements;
      ghost var caps, cols, index := store.Capacities(), schema.uniqueIndices[k].skey, states[k + 1];
      assert Represents(store.pages, Metas(schema)[k + 1], index.t, index.h, caps);
      ReadyReadable(store.pages, index.t, index.h, caps);
      r := None;
      var pair;
      ok, pair, j' := indexIter.Next(store, Leaves(index.t), j, rest);
      if !ok || pair.None? {
        return;
      }
      var e := pair.value;
      assert e in Remaining(Leaves(index.t), j, old(indexIter.slotId));
      TableDecodes(schema, states);
      PairDecodes(e);
      var skey := TupleCodec.Decode(e.key, []);
      if !whileCond(skey.value) {
        return;
      }
      assert Represents(store.pages, Metas(schema)[0], states[0].t, states[0].h, caps);
      ContentsSorted(store.pages, states[0].t, states[0].h, caps);
      LookupFinds(RowsIn(states), EntriesIn(states, k), schema, cols, e);
      var row;
      ok, row := Lookup(store, SearchMode.Key(e.value), states[0].t, states[0].h);
      if !ok {
        return;
      }
      PairDecodes(row.value);
      var pkey := TupleCodec.Decode(row.value.key, []);
      r := TupleCodec.Decode(row.value.value, pkey.value);
    }

    /** A search and the first pair it comes to. */
    method Lookup(store: Store, mode: SearchMode, ghost t: Tree, ghost h: nat) returns (ok: bool, pair: Option<Pair>)
      requires store.Valid() && Represents(store.pages, tableTree.metaPageId, t, h, store.Capacities())
      modifies store`held, store.manager, store.manager.pool, store.manager.disk`heapFile
      ensures store.Valid() && store.held == old(store.held)
      ensures !ok ==> |store.held| + 2 > store.frames
      ensures ok ==> pair == if From(Contents(t), mode) == [] then None else Some(From(Contents(t), mode)[0])
    {
      hide Store.Valid, Ready, Readable, Remaining, From, Contents, Leaves;
      ReadyReadable(store.pages, t, h, store.Capacities());
      var iter, j := tableTree.Search(store, mode, t, h);
      if iter.None? {
        return false, None;
      }
      ok, pair, j := iter.value.Next(store, Leaves(t), j, old(store.held));
      store.Release(iter.value.pageId, old(store.held));
    }
  }

  // ----- any executor -----

  /** What a scan reads: one tree, or an index and the table it is for. */
  datatype Source =
    | OfTree(t: Tree, h: nat)
    | OfIndex(schema: Schema, k: nat, states: seq<TreeState>)
  {
    ghost predicate Proper() {
      OfIndex? ==> k < |schema.uniqueIndices| && |states| == |schema.uniqueIndices| + 1
    }

    /** The tree that is walked. */
    ghost function Walked(): Tree
      requires Proper()
    {
      match this
      case OfTree(t, _) => t
      case OfIndex(_, k, states) => states[k + 1].t
    }

    /** The iterator is in front of pairs of the tree. */
    ghost predicate Before(it: Iter, j: nat)
      requires Proper()
      reads it
    {
      && it.Normal(Leaves(Walked()), j)
      && forall p | p in Remaining(Leaves(Walked()), j, it.slotId) :: p in Contents(Walked())
    }

    /** The pairs that are to come. */
    ghost function Coming(it: Iter, j: nat): seq<Pair>
      requires Proper() && Before(it, j)
      reads it
    {
      Remaining(Leaves(Walked()), j, it.slotId)
    }

    ghost predicate In(pages: Pages, caps: Caps)
      ensures In(pages, caps) ==> Proper()
    {
      && Proper()
      && match this
         case OfTree(t, h) => Ready(pages, t, h, None, None, caps, [], []) && AllDecode(Contents(t))
         case OfIndex(schema, _, states) => TableValid(pages, schema, states, caps)
    }
  }

  lemma SourceReadable(src: Source, pages: Pages, caps: Caps)
    requires src.In(pages, caps)
    ensures Readable(pages, Leaves(src.Walked()), caps.leaf)
  {
    hide Ready, Readable, Leaves, TableSound, Contents;
    match src
    case OfTree(t, h) =>
      ReadyReadable(pages, t, h, caps);
    case OfIndex(schema, k, states) =>
      assert Represents(pages, Metas(schema)[k + 1], states[k + 1].t, states[k + 1].h, caps);
      ReadyReadable(pages, states[k + 1].t, states[k + 1].h, caps);
  }

  ghost predicate IsSuffix(ps': seq<Pair>, ps: seq<Pair>) {
    |ps'| <= |ps| && ps[|ps| - |ps'|..] == ps'
  }

  /** A filter keeps nothing but the executor below it and a condition, whichever executor that is. */
  datatype Executor =
    | Scan(scan: ExecSeqScan)
    | Lookup(lookup: ExecIndexScan)
    | ExecFilter(inner: Executor, cond: Cond)
  {

    /** The iterator at the bottom. */
    ghost function Bottom(): Iter {
      match this
      case Scan(scan) => scan.tableIter
      case Lookup(lookup) => lookup.indexIter
      case ExecFilter(inner, _) => inner.Bottom()
    }

    ghost predicate ReadsFrom(src: Source) {
      match this
      case Scan(_) => src.OfTree?
      case Lookup(lookup) => src.OfIndex? && lookup.tableTree == src.schema.tree
      case ExecFilter(inner, _) => inner.ReadsFrom(src)
    }

    /** The records that come out up to the first None, with the pairs `ps` to come. */
    ghost function Yields(src: Source, ps: seq<Pair>): seq<Tuple>
      requires src.Proper()
    {
      match this
      case Scan(scan) => ScanOf(ps, scan.whileCond)
      case Lookup(lookup) => if src.OfIndex? then LookupsOf(ps, lookup.whileCond, RowsIn(src.states)) else []
      case ExecFilter(inner, cond) => Select(inner.Yields(src, ps), cond)
    }

    /** The next record. */
    method Next(store: Store, ghost src: Source, ghost j: nat, ghost rest: multiset<PageId>)
      returns (ok: bool, r: Option<Tuple>, ghost j': nat)
      requires store.Valid() && src.In(store.pages, store.Capacities()) && ReadsFrom(src) && src.Before(Bottom(), j)
      requires store.held == rest + multiset{Bottom().pageId}
      modifies Bottom(), store`held, store.manager, store.manager.pool, store.manager.disk`heapFile
      ensures store.Valid() && store.held == rest + multiset{Bottom().pageId}
      ensures !ok ==> |rest| + 3 > store.frames
      ensures ok ==> src.Before(Bottom(), j')
      ensures ok ==> Passes(src, r, old(src.Coming(Bottom(), j)), src.Coming(Bottom(), j'))
      decreases this, 1
    {
      hide Store.Valid, Ready, Readable, Remaining, From, Contents, Leaves, TableValid, Select, ScanOf, LookupsOf,
           Decodes;
      ghost var ps := Remaining(Leaves(src.Walked()), j, Bottom().slotId);
      match this
      case Scan(scan) =>
        SourceReadable(src, store.pages, store.Capacities());
        ScanStep(ps, scan.whileCond);
        ok, r, j' := scan.Next(store, Leaves(src.t), j, rest);
      case Lookup(lookup) =>
        LookupStep(ps, lookup.whileCond, RowsIn(src.states));
        ok, r, j' := lookup.Next(store, src.schema, src.k, src.states, j, rest);
      case ExecFilter(inner, cond) =>
        ok, r, j' := NextThat(store, src, j, rest);
    }

    /** What a call has returned, and passed: with a record, the pairs up to its own, and what comes out
        is that record and what comes out of the others. */
    ghost predicate Passes(src: Source, r: Option<Tuple>, ps: seq<Pair>, ps': seq<Pair>)
      requires src.Proper()
    {
      && IsSuffix(ps', ps)
      && Yields(src, ps) == (if r.None? then [] else [r.value] + Yields(src, ps'))
      && (r.Some? ==> |ps'| < |ps|)
    }

    /** `ExecFilter::next`: the loop ends because there is less and less to come. */
    method NextThat(store: Store, ghost src: Source, ghost j: nat, ghost rest: multiset<PageId>)
      returns (ok: bool, r: Option<Tuple>, ghost j': nat)
      requires ExecFilter?
      requires store.Valid() && src.In(store.pages, store.Capacities()) && ReadsFrom(src) && src.Before(Bottom(), j)
      requires store.held == rest + multiset{Bottom().pageId}
      modifies Bottom(), store`held, store.manager, store.manager.pool, store.manager.disk`heapFile
      ensures store.Valid() && store.held == rest + multiset{Bottom().pageId}
      ensures !ok ==> |rest| + 3 > store.frames
      ensures ok ==> src.Before(Bottom(), j')
      ensures ok ==> Passes(src, r, old(src.Coming(Bottom(), j)), src.Coming(Bottom(), j'))
      decreases this, 0
    {
      hide Store.Valid, Source.In, Source.Walked, Source.Before, Source.Coming, ScanOf, LookupsOf;
      j' := j;
      ghost var all := src.Coming(Bottom(), j);
      ghost var ps := all;
      while true
        invariant store.Valid() && src.Before(Bottom(), j') && store.held == rest + multiset{Bottom().pageId}
        invariant store.pages == old(store.pages)
        invariant ps == src.Coming(Bottom(), j') && IsSuffix(ps, all)
        invariant Yields(src, ps) == Yields(src, all)
        decreases |ps|
      {
        ok, r, j' := inner.Next(store, src, j', rest);
        if !ok {
          return;
        }
        ps := src.Coming(Bottom(), j');
        if r.None? {
          return;
        }
        SelectStep(r.value, inner.Yields(src, ps), cond);
        if cond(r.value) {
          return;
        }
      }
    }
  }

  // ----- plans -----

  lemma FromWithin(entries: seq<Pair>, mode: SearchMode)
    ensures forall e | e in From(entries, mode) :: e in entries
  {
  }

  /** The executor is dropped, and with it the buffer its iterator holds. */
  method LetGoOf(store: Store, exec: Executor, ghost rest: multiset<PageId>)
    requires store.Valid() && store.held == rest + multiset{exec.Bottom().pageId}
    modifies store`held, store.manager.pool
    ensures store.Valid() && store.held == rest
  {
    hide Store.Valid;
    match exec
    case Scan(scan) =>
      store.Release(scan.tableIter.pageId, rest);
    case Lookup(lookup) =>
      store.Release(lookup.indexIter.pageId, rest);
    case ExecFilter(inner, _) =>
      LetGoOf(store, inner, rest);
  }

  /** `IndexOnlyScan` is a `SeqScan` of an index. */
  datatype Plan =
    | SeqScan(metaPageId: PageId, searchMode: TupleSearchMode, whileCond: Cond)
    | IndexScan(tableMetaPageId: PageId, indexMetaPageId: PageId, searchMode: TupleSearchMode, whileCond: Cond)
    | Filter(inner: Plan, cond: Cond)
  {
    ghost predicate For(src: Source, pages: Pages, caps: Caps) {
      && src.In(pages, caps)
      && match this
         case SeqScan(meta, _, _) => src.OfTree? && Represents(pages, meta, src.t, src.h, caps)
         case IndexScan(tableMeta, indexMeta, _, _) =>
           src.OfIndex? && tableMeta == src.schema.tree.metaPageId &&
           indexMeta == src.schema.uniqueIndices[src.k].tree.metaPageId
         case Filter(inner, _) => inner.For(src, pages, caps)
    }

    /** The pairs the scan at the bottom is for. */
    ghost function Scanned(src: Source): seq<Pair>
      requires src.Proper()
    {
      match this
      case SeqScan(_, mode, _) => From(Contents(src.Walked()), mode.Mode())
      case IndexScan(_, _, mode, _) => From(Contents(src.Walked()), mode.Mode())
      case Filter(inner, _) => inner.Scanned(src)
    }

    /** What the plan is to yield. */
    ghost function Result(src: Source): seq<Tuple>
      requires src.Proper()
    {
      match this
      case SeqScan(_, _, whileCond) => ScanOf(Scanned(src), whileCond)
      case IndexScan(_, _, _, whileCond) =>
        if src.OfIndex? then LookupsOf(Scanned(src), whileCond, RowsIn(src.states)) else []
      case Filter(inner, cond) => Select(inner.Result(src), cond)
    }

    /** The scan below the filters. */
    ghost function ScanBelow(): (scan: Plan)
      ensures !scan.Filter?
    {
      if Filter? then inner.ScanBelow() else this
    }

    /** The record meets the condition of every filter. */
    ghost predicate LetsThrough(record: Tuple) {
      Filter? ==> cond(record) && inner.LetsThrough(record)
    }

    /** `start`: an executor in front of the pairs to scan, holding one buffer. */
    method Start(store: Store, ghost src: Source) returns (r: Option<Executor>, ghost j: nat)
      requires store.Valid() && For(src, store.pages, store.Capacities())
      modifies store`held, store.manager, store.manager.pool, store.manager.disk`heapFile
      ensures store.Valid()
      ensures store.held == old(store.held) + if r.Some? then multiset{r.value.Bottom().pageId} else multiset{}
      ensures r.None? ==> |store.held| + 2 > store.frames
      ensures r.Some? ==> fresh(r.value.Bottom()) && r.value.ReadsFrom(src) && src.Before(r.value.Bottom(), j)
      ensures r.Some? ==> src.Coming(r.value.Bottom(), j) == Scanned(src)
      ensures r.Some? ==> r.value.Yields(src, Scanned(src)) == Result(src)
    {
      hide Store.Valid, Ready, Remaining, From, Contents, Leaves, TableSound, ScanOf, LookupsOf, Select;
      match this
      case SeqScan(meta, searchMode, whileCond) =>
        var mode := searchMode.Encode();
        var iter;
        iter, j := BTree(meta).Search(store, mode, src.t, src.h);
        if iter.None? {
          return None, j;
        }
        FromWithin(Contents(src.t), mode);
        var scan := new ExecSeqScan(iter.value, whileCond);
        r := Some(Scan(scan));
      case IndexScan(tableMeta, indexMeta, searchMode, whileCond) =>
        assert Metas(src.schema)[src.k + 1] == indexMeta;
        var mode := searchMode.Encode();
        var iter;
        iter, j := BTree(indexMeta).Search(store, mode, src.states[src.k + 1].t, src.states[src.k + 1].h);
        if iter.None? {
          return None, j;
        }
        FromWithin(Contents(src.Walked()), mode);
        var lookup := new ExecIndexScan(BTree(tableMeta), iter.value, whileCond);
        r := Some(Lookup(lookup));
      case Filter(inner, cond) =>
        r, j := inner.Start(store, src);
        if r.Some? { r := Some(ExecFilter(r.value, cond)); }
    }

    /** Starting the plan and reading until the first None: exactly what it is to yield. Three buffers to
        spare are enough for any plan over any table. */
    method Collect(store: Store, ghost src: Source) returns (r: Option<seq<Tuple>>)
      requires store.Valid() && For(src, store.pages, store.Capacities())
      modifies store`held, store.manager, store.manager.pool, store.manager.disk`heapFile
      ensures store.Valid() && store.held == old(store.held)
      ensures r.None? ==> |store.held| + 3 > store.frames
      ensures r.Some? ==> r.value == Result(src)
    {
      hide Store.Valid, Source.In, Source.Walked, Executor.Yields, Executor.ReadsFrom, Source.Before, Source.Coming,
           Executor.Bottom, Result, Scanned, IsSuffix, Ready, Remaining, Leaves, TableValid;
      var started, j := Start(store, src);
      if started.None? {
        return None;
      }
      var exec, out := started.value, [];
      ghost var ps := Scanned(src);
      while true
        invariant fresh(exec.Bottom()) && store.Valid()
        invariant store.held == old(store.held) + multiset{exec.Bottom().pageId}
        invariant store.pages == old(store.pages) && exec.ReadsFrom(src) && src.Before(exec.Bottom(), j)
        invariant ps == src.Coming(exec.Bottom(), j)
        invariant out + exec.Yields(src, ps) == Result(src)
        decreases |ps|
      {
        var ok, tuple;
        ok, tuple, j := exec.Next(store, src, j, old(store.held));
        if !ok || tuple.None? {
          LetGoOf(store, exec, old(store.held));
          return if ok then Some(out) else None;
        }
        ps := src.Coming(exec.Bottom(), j);
        out := out + [tuple.value];
      }
    }
  }

  // ----- what the plans yield of a table -----

  /** A scan of a table's own tree. */
  lemma SeqScanOfTable(plan: Plan, schema: Schema, states: seq<TreeState>, pages: Pages, caps: Caps)
    requires TableValid(pages, schema, states, caps) && plan.SeqScan?
    ensures AllDecode(RowsIn(states))
    ensures IsRange(plan.Result(OfTree(states[0].t, states[0].h)), RowSet(RowsIn(states)), Firsts(schema.numKeyElems),
                    plan.searchMode, plan.whileCond)
  {
    hide AllRepresented, Contents, Ascending, IsRange, From, ScanOf, IndexSound;
    TreesSorted(pages, schema, states, caps);
    TableDecodes(schema, states);
    assert Ascending(RowsIn(states));
    SeqScanIsRange(RowsIn(states), schema, plan.searchMode, plan.whileCond);
  }

  /** A scan of index `k`: the rows of the range among those the index has an entry for, which are all
      the rows as long as no insertion was refused. */
  lemma IndexScanOfTable(plan: Plan, schema: Schema, k: nat, states: seq<TreeState>, pages: Pages, caps: Caps)
    requires TableValid(pages, schema, states, caps) && plan.IndexScan? && k < |schema.uniqueIndices|
    ensures var cols := schema.uniqueIndices[k].skey;
      IsRange(plan.Result(OfIndex(schema, k, states)),
              Indexed(RowsIn(states), EntriesIn(states, k), schema.numKeyElems, cols), cols, plan.searchMode,
              plan.whileCond)
    ensures TableComplete(schema, states) ==>
              IsRange(plan.Result(OfIndex(schema, k, states)), RowSet(RowsIn(states)), schema.uniqueIndices[k].skey,
                      plan.searchMode, plan.whileCond)
  {
    hide AllRepresented, Contents, Ascending, IsRange, From, LookupsOf, IndexSound, IndexComplete, AreRows, Indexed;
    TreesSorted(pages, schema, states, caps);
    var rows, entries, cols := RowsIn(states), EntriesIn(states, k), schema.uniqueIndices[k].skey;
    assert Ascending(rows) && Ascending(entries);
    IndexScanIsRange(entries, rows, schema, cols, plan.searchMode, plan.whileCond);
    if TableComplete(schema, states) {
      IndexedIsAll(rows, entries, schema.numKeyElems, cols);
    }
  }

  /** A scan of index `k` alone: what the same scan with lookups finds, cut down to the columns of the index
      and the primary key. */
  lemma IndexOnlyScanOfTable(plan: Plan, lookups: Plan, schema: Schema, k: nat, states: seq<TreeState>, pages: Pages,
                             caps: Caps)
    requires TableValid(pages, schema, states, caps) && k < |schema.uniqueIndices|
    requires plan.SeqScan? && lookups.IndexScan? && plan.searchMode == lookups.searchMode
    requires plan.whileCond == lookups.whileCond
    ensures AllDecode(EntriesIn(states, k))
    ensures var out := plan.Result(OfTree(states[k + 1].t, states[k + 1].h));
      var found := lookups.Result(OfIndex(schema, k, states));
      var n, cols := schema.numKeyElems, schema.uniqueIndices[k].skey;
      && |out| == |found|
      && forall i | 0 <= i < |out| ::
           n <= |found[i]| && Covers(found[i], cols) && out[i] == SecondaryKey(found[i], cols) + found[i][..n]
  {
    hide AllRepresented, Contents, Ascending, From, LookupsOf, ScanOf, IndexSound, AreRows, SecondaryKey, Covers;
    TreesSorted(pages, schema, states, caps);
    TableDecodes(schema, states);
    var rows, entries, cols := RowsIn(states), EntriesIn(states, k), schema.uniqueIndices[k].skey;
    assert Ascending(rows) && Ascending(entries);
    IndexOnlyScanIs(entries, rows, schema, cols, plan.searchMode, plan.whileCond);
  }

  // ----- what filters yield -----

  /** Filters, however many, take out the records that fail one of their conditions, and no other, and
      leave the order. */
  lemma {:induction false} FiltersKeep(plan: Plan, src: Source, cols: seq<nat>)
    requires src.Proper() && Ordered(plan.ScanBelow().Result(src), cols)
    ensures Ordered(plan.Result(src), cols)
    ensures forall r :: r in plan.Result(src) <==> r in plan.ScanBelow().Result(src) && plan.LetsThrough(r)
    ensures plan.Filter? ==> forall r :: r in plan.Result(src) <==> r in plan.inner.Result(src) && plan.cond(r)
  {
    hide Ordered, Select, ScanOf, LookupsOf;
    if plan.Filter? {
      FiltersKeep(plan.inner, src, cols);
      SelectKeeps(plan.inner.Result(src), plan.cond, cols);
    }
  }

  /** Filters over a scan of a table: the rows of the range that meet every condition, in the order of their
      primary keys. */
  lemma FiltersOverTable(plan: Plan, schema: Schema, states: seq<TreeState>, pages: Pages, caps: Caps)
    requires TableValid(pages, schema, states, caps) && plan.ScanBelow().SeqScan?
    ensures var out, scan := plan.Result(OfTree(states[0].t, states[0].h)), plan.ScanBelow();
      var rows, cols := RowSet(RowsIn(states)), Firsts(schema.numKeyElems);
      && Ordered(out, cols)
      && forall r :: r in out <==> InRange(r, rows, cols, scan.searchMode, scan.whileCond) && plan.LetsThrough(r)
  {
    hide AllRepresented, TableSound, Contents, Ordered, InRange, Plan.Result, Plan.LetsThrough, Firsts;
    SeqScanOfTable(plan.ScanBelow(), schema, states, pages, caps);
    FiltersKeep(plan, OfTree(states[0].t, states[0].h), Firsts(schema.numKeyElems));
  }

  /** Filters over a scan of index `k`: of the rows the index has an entry for, which are all the rows as
      long as no insertion was refused, those of the range that meet every condition, in the order of the
      index. */
  lemma FiltersOverIndex(plan: Plan, schema: Schema, k: nat, states: seq<TreeState>, pages: Pages, caps: Caps)
    requires TableValid(pages, schema, states, caps) && k < |schema.uniqueIndices| && plan.ScanBelow().IndexScan?
    ensures var out, scan := plan.Result(OfIndex(schema, k, states)), plan.ScanBelow();
      var n, cols := schema.numKeyElems, schema.uniqueIndices[k].skey;
      var known := Indexed(RowsIn(states), EntriesIn(states, k), n, cols);
      && Ordered(out, cols)
      && (forall r :: r in out <==> InRange(r, known, cols, scan.searchMode, scan.whileCond) && plan.LetsThrough(r))
      && (TableComplete(schema, states) ==> known == RowSet(RowsIn(states)))
  {
    hide AllRepresented, TableSound, Contents, Ordered, InRange, Plan.Result, Plan.LetsThrough, Indexed, RowSet,
         IndexComplete;
    var n, cols := schema.numKeyElems, schema.uniqueIndices[k].skey;
    IndexScanOfTable(plan.ScanBelow(), schema, k, states, pages, caps);
    FiltersKeep(plan, OfIndex(schema, k, states), cols);
    IndexedIsAll(RowsIn(states), EntriesIn(states, k), n, cols);
  }

  /** What a scan of the index alone makes of a row. */
  ghost predicate CutDown(t: Tuple, record: Tuple, n: nat, cols: seq<nat>) {
    n <= |record| && t == Columns(record, cols) + record[..n]
  }

  /** The order of an index is that of the first elements of what a scan of it alone yields. */
  lemma CutDownOrdered(out: seq<Tuple>, found: seq<Tuple>, n: nat, cols: seq<nat>)
    requires |out| == |found| && Ordered(found, cols)
    requires forall i | 0 <= i < |out| :: Covers(found[i], cols) && CutDown(out[i], found[i], n, cols)
    ensures Ordered(out, Firsts(|cols|))
  {
    hide TupleLt, Columns, Firsts, Covers;
    forall i | 0 <= i < |out|
      ensures Columns(out[i], Firsts(|cols|)) == Columns(found[i], cols)
    {
      ColumnsAre(found[i], cols);
      PrimaryColumns(out[i], |cols|);
      assert out[i][..|cols|] == Columns(found[i], cols);
    }
  }

  /** Filters over a scan of index `k` alone, whose conditions are put to the columns of the index and then
      the primary key: what they make of the rows of the range that the index has an entry for, as far as
      it meets every condition, in the order of the index. */
  lemma FiltersOverIndexOnly(plan: Plan, schema: Schema, k: nat, states: seq<TreeState>, pages: Pages, caps: Caps)
    requires TableValid(pages, schema, states, caps) && k < |schema.uniqueIndices| && plan.ScanBelow().SeqScan?
    ensures var out, scan := plan.Result(OfTree(states[k + 1].t, states[k + 1].h)), plan.ScanBelow();
      var n, cols := schema.numKeyElems, schema.uniqueIndices[k].skey;
      var known := Indexed(RowsIn(states), EntriesIn(states, k), n, cols);
      && Ordered(out, Firsts(|cols|))
      && forall t :: t in out <==>
           && plan.LetsThrough(t)
           && exists r :: InRange(r, known, cols, scan.searchMode, scan.whileCond) && CutDown(t, r, n, cols)
  {
    hide AllRepresented, TableSound, Contents, Ordered, InRange, Plan.Result, Plan.LetsThrough, Indexed, SecondaryKey,
         Covers;
    var src, scan := OfTree(states[k + 1].t, states[k + 1].h), plan.ScanBelow();
    var n, cols := schema.numKeyElems, schema.uniqueIndices[k].skey;
    var lookups := IndexScan(0, 0, scan.searchMode, scan.whileCond);
    var out, found := scan.Result(src), lookups.Result(OfIndex(schema, k, states));
    var known := Indexed(RowsIn(states), EntriesIn(states, k), n, cols);
    IndexOnlyScanOfTable(scan, lookups, schema, k, states, pages, caps);
    IndexScanOfTable(lookups, schema, k, states, pages, caps);
    forall i | 0 <= i < |out|
      ensures CutDown(out[i], found[i], n, cols) && InRange(found[i], known, cols, scan.searchMode, scan.whileCond)
    {
      assert found[i] in found;
    }
    CutDownOrdered(out, found, n, cols);
    FiltersKeep(plan, src, Firsts(|cols|));
    forall t
      ensures t in out <==>
                exists r :: InRange(r, known, cols, scan.searchMode, scan.whileCond) && CutDown(t, r, n, cols)
    {
      if r :| InRange(r, known, cols, scan.searchMode, scan.whileCond) && CutDown(t, r, n, cols) {
        var i :| 0 <= i < |found| && found[i] == r;
        assert out[i] == t;
      }
      if t in out {
        var i :| 0 <= i < |out| && out[i] == t;
        assert CutDown(t, found[i], n, cols);
      }
    }
  }
}
