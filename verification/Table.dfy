/** src/table.rs: a table and its unique indexes, each a B+tree, kept in the same pages. */
module Tables {
  import opened Bytes
  import opened PairCodec
  import opened NodeSpec
  import opened Tree
  import opened PageStore
  import opened InsertSteps
  import opened BTrees
  import opened TupleCodec
  import opened Rows
  import opened TableMaps

  lemma TreeAdded(pages: Pages, pages': Pages, metas: seq<PageId>, states: seq<TreeState>, meta: PageId, s: TreeState,
                  caps: Caps)
    requires AllRepresented(pages, metas, states, caps) && OnlyTouches(pages, pages', {})
    requires Represents(pages', meta, s.t, s.h, caps) && forall p | p in Footprint(meta, s.t) :: p !in pages
    ensures AllRepresented(pages', metas + [meta], states + [s], caps)
  {
    hide Represents, Footprint;
    forall i | 0 <= i < |metas|
      ensures Represents(pages', metas[i], states[i].t, states[i].h, caps)
      ensures Footprint(metas[i], states[i].t) !! Footprint(meta, s.t)
    {
      FootprintStored(pages, metas[i], states[i].t, states[i].h, caps);
      RepresentsFrame(pages, pages', metas[i], states[i].t, states[i].h, caps);
    }
  }

  ghost predicate AllTrue(s: seq<bool>) {
    forall i | 0 <= i < |s| :: s[i]
  }

  lemma AllTrueAppend(s: seq<bool>, b: bool)
    ensures AllTrue(s + [b]) <==> AllTrue(s) && b
  {
    assert (s + [b])[|s|] == b;
    if AllTrue(s + [b]) {
      forall i | 0 <= i < |s| ensures s[i] { assert (s + [b])[i] == s[i]; }
    }
  }

  lemma TreesSorted(pages: Pages, schema: Schema, states: seq<TreeState>, caps: Caps)
    requires TableValid(pages, schema, states, caps)
    ensures AllSorted(states)
  {
    hide Ready, Contents, TableSound, Ascending, Footprint;
    forall i | 0 <= i < |states|
      ensures Ascending(Contents(states[i].t))
    {
      assert Represents(pages, Metas(schema)[i], states[i].t, states[i].h, caps);
      ContentsSorted(pages, states[i].t, states[i].h, caps);
    }
  }

  /** What an insertion that stored its row, and `stage` entries, comes to. */
  lemma StoredMeans(pages: Pages, schema: Schema, record: Tuple, states: seq<TreeState>, states': seq<TreeState>,
                    stage: nat, caps: Caps)
    requires TableValid(pages, schema, states, caps) && RowStored(schema, record, states, states', stage)
    requires stage < |schema.uniqueIndices| ==> HasKey(EntriesIn(states, stage), EntryFor(schema, record, stage).key)
    ensures TableSound(schema, states') && MapsOf(states') == Added(schema, MapsOf(states), record)
    ensures stage == |schema.uniqueIndices| <==> Admits(schema, states, record)
    ensures !HasKey(RowsIn(states), RowFor(schema, record).key)
    ensures TableComplete(schema, states) ==> (TableComplete(schema, states') <==> stage == |schema.uniqueIndices|)
  {
    TreesSorted(pages, schema, states, caps);
    RowStoredAdds(schema, record, states, states', stage);
    RowStoredKeeps(schema, record, states, states', stage);
  }

  lemma KeptMeans(schema: Schema, record: Tuple, states: seq<TreeState>)
    requires |states| == |schema.uniqueIndices| + 1 && Wide(record, schema)
    requires HasKey(RowsIn(states), RowFor(schema, record).key)
    ensures MapsOf(states) == Added(schema, MapsOf(states), record) && !Admits(schema, states, record)
  {
    hide ToMap, HasKey;
    ToMapKeys(RowsIn(states), RowFor(schema, record).key);
  }

  /** No tree has grown by more than `n` pairs. */
  ghost predicate Grown(states: seq<TreeState>, states': seq<TreeState>, n: nat) {
    |states| == |states'| && forall i | 0 <= i < |states| :: |Contents(states'[i].t)| <= |Contents(states[i].t)| + n
  }

  lemma GrownMore(schema: Schema, record: Tuple, states: seq<TreeState>, before: seq<TreeState>, after: seq<TreeState>,
                  stage: nat, n: nat)
    requires Grown(states, before, n) && |before| == |schema.uniqueIndices| + 1
    requires after == before || RowStored(schema, record, before, after, stage)
    ensures Grown(states, after, n + 1)
  {
    hide Contents, SortedInsert, RowPair, IndexPair, HasKey;
    if after != before {
      forall i | 0 <= i < |after|
        ensures |Contents(after[i].t)| <= |Contents(before[i].t)| + 1
      {
        if i == 0 {
          SortedInsertLength(RowsIn(before), RowPair(record, schema.numKeyElems));
          assert Contents(after[0].t) == RowsIn(after);
        } else {
          SortedInsertLength(EntriesIn(before, i - 1), EntryFor(schema, record, i - 1));
          assert Contents(after[i].t) == EntriesIn(after, i - 1) && Contents(before[i].t) == EntriesIn(before, i - 1);
        }
      }
    }
  }

  /** A tree that is higher than `n` has more than `2^n` pairs. */
  lemma TooHigh(pages: Pages, schema: Schema, states: seq<TreeState>, before: seq<TreeState>, n: nat, caps: Caps,
                i: nat, spare: int)
    requires TableValid(pages, schema, before, caps) && Grown(states, before, n) && i < |before|
    ensures 0 <= spare <= before[i].h ==> Pow2(spare) <= 1 + |Contents(states[i].t)| + n
  {
    hide Ready, Contents, TableSound, Footprint, Pow2;
    assert Represents(pages, Metas(schema)[i], before[i].t, before[i].h, caps);
    HeightBound(pages, before[i].t, before[i].h, caps);
    Pow2Grows(spare, before[i].h);
  }

  /** When the indexes know every row after a run. */
  lemma RunMeans(pages: Pages, schema: Schema, states: seq<TreeState>, states': seq<TreeState>, records: seq<Tuple>,
                 caps: Caps)
    requires TableValid(pages, schema, states', caps) && |states| == |schema.uniqueIndices| + 1
    requires AllWide(schema, records)
    requires MapsOf(states') == AddedAll(schema, MapsOf(states), records)
    ensures TableComplete(schema, states') || SomeRefused(schema, states') ==>
              (TableComplete(schema, states') <==>
                 Distinguishes(schema, AddAll(ToMap(RowsIn(states)), RowsFor(schema, records))))
  {
    hide AllRepresented, TableSound, TableComplete, SomeRefused, Distinguishes, ToMap, AddAll, AddedAll, Contents;
    TreesSorted(pages, schema, states', caps);
    AddedRows(schema, MapsOf(states), records);
    if TableComplete(schema, states') { CompleteDistinguishes(schema, states'); }
    if SomeRefused(schema, states') { RefusedAgrees(schema, states'); }
  }

  // ----- runs that stop -----

  /** The insertion of the record has failed in tree `k`. The table is valid; when it was not the first tree,
      the row is stored, and it has its entries in the indexes before that one and in no other. */
  ghost predicate StoppedAt(pages: Pages, schema: Schema, record: Tuple, states: seq<TreeState>,
                            states': seq<TreeState>, k: nat, caps: Caps)
  {
    && k < |states| && TableValid(pages, schema, states', caps)
    && (k == 0 ==> states' == states)
    && (k > 0 ==> RowStored(schema, record, states, states', k - 1))
    && (k > 0 && TableComplete(schema, states) ==> !TableComplete(schema, states'))
  }

  /** The insertion of the record has failed in one of the trees. */
  ghost predicate Stopped(pages: Pages, schema: Schema, record: Tuple, states: seq<TreeState>, caps: Caps) {
    exists states', k :: StoppedAt(pages, schema, record, states, states', k, caps)
  }

  lemma StoppedMeans(pages: Pages, schema: Schema, record: Tuple, states: seq<TreeState>, states': seq<TreeState>,
                     k: nat, caps: Caps)
    requires k < |schema.uniqueIndices| && |states| == |schema.uniqueIndices| + 1 && TableSound(schema, states)
    requires AllRepresented(pages, Metas(schema), states', caps) && RowStored(schema, record, states, states', k)
    ensures k + 1 < |states| && StoppedAt(pages, schema, record, states, states', k + 1, caps)
  {
    hide AllRepresented, RowPair, IndexPair, HasKey, SortedInsert, Contents, TableSound, TableComplete;
    RowStoredKeeps(schema, record, states, states', k);
  }

  /** What the trees hold, as long as a run gets, and which records were accepted. */
  ghost predicate RunSoFar(schema: Schema, m: Maps, records: seq<Tuple>, accepted: seq<bool>, m': Maps)
    requires AllWide(schema, records) && |m.entries| == |schema.uniqueIndices|
  {
    && |accepted| <= |records| && m' == AddedAll(schema, m, records[..|accepted|])
    && forall i | 0 <= i < |accepted| :: accepted[i] <==> Takes(schema, AddedAll(schema, m, records[..i]), records[i])
  }

  /** What a run that stopped early tells: some tree was too high for `spare` buffers. */
  ghost predicate SomeTreeFills(states: seq<TreeState>, n: nat, spare: nat) {
    exists i | 0 <= i < |states| :: Pow2(spare) <= 1 + |Contents(states[i].t)| + n
  }

  // ----- operations -----

  /** `Table`: the meta pages of its trees are fields, which `create` sets. */
  class Table {
    var tree: BTree
    const numKeyElems: nat
    var uniqueIndices: seq<UniqueIndex>

    constructor (tree: BTree, numKeyElems: nat, uniqueIndices: seq<UniqueIndex>)
      ensures Layout() == Schema(tree, numKeyElems, uniqueIndices)
    {
      this.tree, this.numKeyElems, this.uniqueIndices := tree, numKeyElems, uniqueIndices;
    }

    ghost function Layout(): Schema
      reads this
    {
      Schema(tree, numKeyElems, uniqueIndices)
    }

    /** `Table::create`: an empty table with an empty index for each of the column lists, in pages of
        their own. Only then are the meta page ids the ones to use. */
    method Create(store: Store) returns (ok: bool, ghost states: seq<TreeState>)
      requires store.Valid()
      modifies this, store, store.manager, store.manager.pool, store.manager.disk
      ensures store.Valid() && store.held == old(store.held) && (!ok ==> store.Short(|store.held| + 2))
      ensures ok ==> TableValid(store.pages, Layout(), states, store.Capacities()) && TableComplete(Layout(), states)
      ensures |uniqueIndices| == old(|uniqueIndices|)
      ensures forall i | 0 <= i < |uniqueIndices| :: uniqueIndices[i].skey == old(uniqueIndices[i].skey)
      ensures ok ==> forall i | 0 <= i < |states| :: Contents(states[i].t) == []
      ensures ok ==> tree.metaPageId == old(store.nextPageId)
      ensures ok ==>
                forall i | 0 <= i < |uniqueIndices| ::
                  uniqueIndices[i].tree.metaPageId == old(store.nextPageId) + 2 * (i + 1)
    {
      hide Store.Valid, Represents, Footprint, Contents;
      ghost var pages, t := store.pages, Tree.Leaf(0, []);
      states := [];
      var r;
      r, t := BTree.Create(store);
      if r.None? {
        return false, states;
      }
      tree := r.value;
      TreeAdded(pages, store.pages, [], [], tree.metaPageId, TreeState(t, 0), store.Capacities());
      states := [TreeState(t, 0)];
      ghost var metas := [tree.metaPageId];
      for i := 0 to |uniqueIndices|
        invariant store.Valid() && store.held == old(store.held) && |uniqueIndices| == old(|uniqueIndices|)
        invariant |states| == |metas| == i + 1
        invariant metas[0] == tree.metaPageId && forall j | 0 <= j < i ::
                  metas[j + 1] == uniqueIndices[j].tree.metaPageId
        invariant AllRepresented(store.pages, metas, states, store.Capacities())
        invariant forall j | 0 <= j < |uniqueIndices| :: uniqueIndices[j].skey == old(uniqueIndices[j].skey)
        invariant forall j | 0 <= j < |states| :: Contents(states[j].t) == []
        invariant store.nextPageId == old(store.nextPageId) + 2 * (i + 1) && metas[0] == old(store.nextPageId)
        invariant forall j | 0 <= j < i :: uniqueIndices[j].tree.metaPageId == old(store.nextPageId) + 2 * (j + 1)
      {
        pages := store.pages;
        r, t := BTree.Create(store);
        if r.None? {
          return false, states;
        }
        TreeAdded(pages, store.pages, metas, states, r.value.metaPageId, TreeState(t, 0), store.Capacities());
        metas := metas + [r.value.metaPageId];
        uniqueIndices := uniqueIndices[i := uniqueIndices[i].(tree := r.value)];
        states := states + [TreeState(t, 0)];
      }
      assert metas == Metas(Layout());
      ok := true;
    }

    /** `Table::insert`. Where no page operation fails: a record whose primary key is there changes
        nothing. Any other record is stored, and then entered into the indexes in turn until one
        refuses; `stage` says how many took it. Nothing is taken back, so a record that has a new
        primary key, but a secondary key that some index has, is there afterwards although the
        insertion reports a duplicate; and that is when the indexes no longer know every row. After a
        failure `stage` is the tree it came from: in the table's own nothing has changed; in that of an
        index the table is valid, but has a row that index does not know. */
    method Insert(store: Store, record: Tuple, ghost states: seq<TreeState>)
      returns (r: InsertResult, ghost states': seq<TreeState>, ghost stage: nat)
      requires store.Valid() && TableValid(store.pages, Layout(), states, store.Capacities())
      requires Wide(record, Layout()) && RecordFits(Layout(), record, store.Capacities())
      modifies store, store.manager, store.manager.pool, store.manager.disk
      ensures store.Valid() && store.held == old(store.held) && |states'| == |states|
      ensures r.Failed? ==> stage < |states| && store.Short(|store.held| + states[stage].h + 4)
      ensures r.Failed? && store.nextPageId < MAX_PAGE_ID ==>
                StoppedAt(store.pages, Layout(), record, states, states', stage, store.Capacities())
      ensures r.Failed? && store.nextPageId < MAX_PAGE_ID && stage == 0 ==> store.pages == old(store.pages)
      ensures !r.Failed? ==> TableValid(store.pages, Layout(), states', store.Capacities())
      ensures !r.Failed? ==> (r.Accepted? <==> Admits(Layout(), states, record))
      ensures !r.Failed? ==> MapsOf(states') == Added(Layout(), MapsOf(states), record)
      ensures !r.Failed? && HasKey(RowsIn(states), RowPair(record, numKeyElems).key) ==>
                r.Duplicate? && states' == states
      ensures !r.Failed? && !HasKey(RowsIn(states), RowPair(record, numKeyElems).key) ==>
                RowStored(Layout(), record, states, states', stage) && (r.Accepted? <==> stage == |uniqueIndices|)
      ensures r.Duplicate? && !HasKey(RowsIn(states), RowPair(record, numKeyElems).key) ==>
                stage < |uniqueIndices| &&
                HasKey(EntriesIn(states, stage), EncodeTuple(SecondaryKey(record, uniqueIndices[stage].skey)))
      ensures !r.Failed? && TableComplete(Layout(), states) ==>
                (TableComplete(Layout(), states') <==>
                   HasKey(RowsIn(states), RowPair(record, numKeyElems).key) || Admits(Layout(), states, record))
    {
      hide Store.Valid, Contents, HasKey, SortedInsert, EncodeTuple, AreRows, IndexSound, IndexComplete, Represents,
           Footprint, OnlyTouches, Fits, KeyFits, RowStored, TableSound, TableComplete, Admits, MapsOf, Added,
           AllRepresented;
      ghost var pages0 := store.pages;
      var key := TupleCodec.Encode(record[..numKeyElems], []);
      var value := TupleCodec.Encode(record[numKeyElems..], []);
      assert Pair(key, value) == RowPair(record, numKeyElems);
      r, states' := InsertRow(store, key, value, record, states);
      stage := 0;
      if r.Duplicate? { KeptMeans(Layout(), record, states); }
      if r.Accepted? {
        r, states', stage := InsertEntries(store, key, record, states, states');
        if r.Failed? {
          if store.nextPageId < MAX_PAGE_ID {
            StoppedMeans(store.pages, Layout(), record, states, states', stage - 1, store.Capacities());
          }
        } else {
          StoredMeans(pages0, Layout(), record, states, states', stage, store.Capacities());
        }
      }
    }

    /** The record into the table's own tree. */
    method InsertRow(store: Store, key: Bytes, value: Bytes, ghost record: Tuple, ghost states: seq<TreeState>)
      returns (r: InsertResult, ghost states': seq<TreeState>)
      requires store.Valid() && AllRepresented(store.pages, Metas(Layout()), states, store.Capacities())
      requires Wide(record, Layout()) && Pair(key, value) == RowPair(record, numKeyElems)
      requires PairFits(Pair(key, value), store.Capacities())
      modifies store, store.manager, store.manager.pool, store.manager.disk
      ensures store.Valid() && store.held == old(store.held) && |states'| == |states|
      ensures r.Failed? ==> states' == states && store.Short(|store.held| + states[0].h + 4)
      ensures r.Failed? && store.nextPageId < MAX_PAGE_ID ==> store.pages == old(store.pages)
      ensures r.Duplicate? ==> HasKey(RowsIn(states), key) && states' == states
      ensures !r.Failed? ==> AllRepresented(store.pages, Metas(Layout()), states', store.Capacities())
      ensures r.Accepted? ==> RowStored(Layout(), record, states, states', 0)
      ensures r.Accepted? ==> forall i | 0 < i < |states| :: states'[i] == states[i]
    {
      hide Store.Valid, Contents, HasKey, SortedInsert, EncodeTuple, Represents, Footprint, OnlyTouches, Fits, KeyFits,
           RowStored, RowPair;
      states' := states;
      assert Metas(Layout())[0] == tree.metaPageId;
      ghost var pages0 := store.pages;
      ghost var t', h';
      r, t', h' := tree.Insert(store, key, value, states[0].t, states[0].h);
      if r.Accepted? {
        OtherTreesKept(pages0, store.pages, Metas(Layout()), states, 0, TreeState(t', h'), store.Capacities());
        states' := states[0 := TreeState(t', h')];
        RowStoredFirst(Layout(), record, states, TreeState(t', h'));
      }
    }

    /** The loop over the indexes, once the row is stored. */
    method InsertEntries(store: Store, pkey: Bytes, record: Tuple, ghost states: seq<TreeState>,
                         ghost stored: seq<TreeState>)
      returns (r: InsertResult, ghost states': seq<TreeState>, ghost stage: nat)
      requires store.Valid() && AllRepresented(store.pages, Metas(Layout()), stored, store.Capacities())
      requires RowStored(Layout(), record, states, stored, 0) && |stored| == |states|
      requires forall i | 0 < i < |states| :: stored[i] == states[i]
      requires Wide(record, Layout()) && RecordFits(Layout(), record, store.Capacities())
      requires pkey == EncodeTuple(record[..numKeyElems])
      modifies store, store.manager, store.manager.pool, store.manager.disk
      ensures store.Valid() && store.held == old(store.held) && |states'| == |states|
      ensures r.Failed? ==> 0 < stage < |states| && store.Short(|store.held| + states[stage].h + 4)
      ensures r.Failed? ==> RowStored(Layout(), record, states, states', stage - 1)
      ensures !r.Failed? || store.nextPageId < MAX_PAGE_ID ==>
                AllRepresented(store.pages, Metas(Layout()), states', store.Capacities())
      ensures !r.Failed? ==>
                RowStored(Layout(), record, states, states', stage) && (r.Accepted? <==> stage == |uniqueIndices|)
      ensures r.Duplicate? ==>
                stage < |uniqueIndices| &&
                HasKey(EntriesIn(states, stage), EncodeTuple(SecondaryKey(record, uniqueIndices[stage].skey)))
    {
      hide Store.Valid, Contents, HasKey, SortedInsert, EncodeTuple, Represents, Footprint, OnlyTouches, Fits, KeyFits,
           RowStored, AllRepresented;
      r, states', stage := Accepted, stored, 0;
      for i := 0 to |uniqueIndices|
        invariant store.Valid() && store.held == old(store.held) && stage == i && r.Accepted?
        invariant AllRepresented(store.pages, Metas(Layout()), states', store.Capacities())
        invariant RowStored(Layout(), record, states, states', i) && |states'| == |states|
        invariant forall j | i < j < |states| :: states'[j].h == states[j].h
      {
        ghost var before := states';
        RowStoredRest(Layout(), record, states, before, i);
        r, states' := InsertEntry(store, i, pkey, record, states');
        if !r.Accepted? {
          if r.Failed? { stage := i + 1; }
          return;
        }
        RowStoredMore(Layout(), record, states, before, i, states'[i + 1]);
        stage := i + 1;
      }
    }

    /** `UniqueIndex::insert`: the entry of a record into index `i`. */
    method InsertEntry(store: Store, i: nat, pkey: Bytes, record: Tuple, ghost states: seq<TreeState>)
      returns (r: InsertResult, ghost states': seq<TreeState>)
      requires store.Valid() && i < |uniqueIndices|
      requires AllRepresented(store.pages, Metas(Layout()), states, store.Capacities())
      requires numKeyElems <= |record| && pkey == EncodeTuple(record[..numKeyElems])
      requires Covers(record, uniqueIndices[i].skey)
      requires PairFits(IndexPair(record, numKeyElems, uniqueIndices[i].skey), store.Capacities())
      modifies store, store.manager, store.manager.pool, store.manager.disk
      ensures store.Valid() && store.held == old(store.held)
      ensures r.Failed? ==> i + 1 < |states| && store.Short(|store.held| + states[i + 1].h + 4)
      ensures r.Failed? && store.nextPageId < MAX_PAGE_ID ==> store.pages == old(store.pages)
      ensures r.Failed? || r.Duplicate? ==> states' == states
      ensures !r.Failed? ==> AllRepresented(store.pages, Metas(Layout()), states', store.Capacities())
      ensures r.Duplicate? ==> HasKey(EntriesIn(states, i), EncodeTuple(SecondaryKey(record, uniqueIndices[i].skey)))
      ensures r.Accepted? ==> i + 1 < |states| == |states'| && states' == states[i + 1 := states'[i + 1]]
      ensures r.Accepted? ==> !HasKey(EntriesIn(states, i), IndexPair(record, numKeyElems, uniqueIndices[i].skey).key)
      ensures r.Accepted? ==>
                EntriesIn(states', i) ==
                    SortedInsert(EntriesIn(states, i), IndexPair(record, numKeyElems, uniqueIndices[i].skey))
      ensures Names(IndexPair(record, numKeyElems, uniqueIndices[i].skey), record, numKeyElems, uniqueIndices[i].skey)
    {
      hide Store.Valid, Contents, HasKey, SortedInsert, EncodeTuple, Represents, Footprint, OnlyTouches, Fits, KeyFits;
      states' := states;
      var index := uniqueIndices[i];
      IndexPairNames(record, numKeyElems, index.skey);
      var skey := TupleCodec.Encode(SecondaryKey(record, index.skey), []);
      assert Pair(skey, pkey) == IndexPair(record, numKeyElems, index.skey);
      assert Metas(Layout())[i + 1] == index.tree.metaPageId;
      ghost var pages0 := store.pages;
      ghost var t', h';
      r, t', h' := index.tree.Insert(store, skey, pkey, states[i + 1].t, states[i + 1].h);
      if r.Accepted? {
        OtherTreesKept(pages0, store.pages, Metas(Layout()), states, i + 1, TreeState(t', h'), store.Capacities());
        states' := states[i + 1 := TreeState(t', h')];
      }
    }

    /** A run of insertions into a table. Rows and entries are those the run over maps comes to, and a
        record is accepted exactly when its primary key, and its secondary key to every index, is new
        there. If the indexes knew every row before, they do so afterwards exactly when no two of the
        rows that are then there agree in the columns of an index, as when all records were accepted.
        With page ids left, the run only stops early when so many records were inserted that some tree
        is higher than there are buffers to spare, but three; the trees then hold what they are to hold
        up to there, and what the insertion has stored of the next record before it failed. */
    method InsertRecords(store: Store, records: seq<Tuple>, ghost states: seq<TreeState>)
      returns (ok: bool, accepted: seq<bool>, ghost states': seq<TreeState>)
      requires store.Valid() && TableValid(store.pages, Layout(), states, store.Capacities())
      requires AllWide(Layout(), records)
      requires forall i | 0 <= i < |records| :: RecordFits(Layout(), records[i], store.Capacities())
      modifies store, store.manager, store.manager.pool, store.manager.disk
      ensures store.Valid() && store.held == old(store.held)
      ensures states' != [] && RunSoFar(Layout(), MapsOf(states), records, accepted, MapsOf(states'))
      ensures ok <==> |accepted| == |records|
      ensures !ok && store.nextPageId < MAX_PAGE_ID ==>
                Stopped(store.pages, Layout(), records[|accepted|], states', store.Capacities())
      ensures !ok ==> exists k | 0 <= k < |states'| :: store.Short(|store.held| + states'[k].h + 4)
      ensures !ok && store.nextPageId < MAX_PAGE_ID && |store.held| + 3 <= store.frames ==>
                SomeTreeFills(states, |accepted|, store.frames - |store.held| - 3)
      ensures ok ==> TableValid(store.pages, Layout(), states', store.Capacities())
      ensures ok ==> MapsOf(states') == AddedAll(Layout(), MapsOf(states), records)
      ensures ok && TableComplete(Layout(), states) ==>
                (TableComplete(Layout(), states') <==>
                   Distinguishes(Layout(), AddAll(ToMap(RowsIn(states)), RowsFor(Layout(), records))))
      ensures ok && TableComplete(Layout(), states) && AllTrue(accepted) ==> TableComplete(Layout(), states')
    {
      hide Store.Valid, TableSound, RecordFits, Wide, TableComplete, SomeRefused, AllRepresented, SortedInsert, HasKey,
           Contents, RowStored, Admits, Takes, MapsOf, Added, AddedAll, AllTrue, StoppedAt, Distinguishes, Pow2, ToMap,
           AddAll;
      ok, accepted, states' := true, [], states;
      ghost var caps, m := store.Capacities(), MapsOf(states);
      AddedNone(Layout(), m, records);
      for n := 0 to |records|
        invariant store.Valid() && store.held == old(store.held) && |accepted| == n
        invariant TableValid(store.pages, Layout(), states', caps) && Grown(states, states', n)
        invariant RunSoFar(Layout(), m, records, accepted, MapsOf(states'))
        invariant TableComplete(Layout(), states) ==> TableComplete(Layout(), states') || SomeRefused(Layout(), states')
        invariant TableComplete(Layout(), states) && AllTrue(accepted) ==> TableComplete(Layout(), states')
      {
        ghost var before, pages0 := states', store.pages;
        ghost var stage;
        var r;
        AddedOneMore(Layout(), m, records, n);
        AdmitsIsTakes(Layout(), before, records[n]);
        r, states', stage := Insert(store, records[n], states');
        if r.Failed? {
          TooHigh(pages0, Layout(), states, before, n, caps, stage, store.frames - |store.held| - 3);
          assert store.nextPageId < MAX_PAGE_ID ==> Stopped(store.pages, Layout(), records[n], before, caps);
          states' := before;
          ok := false;
          return;
        }
        InsertStep(Layout(), records[n], before, states', r, stage);
        GrownMore(Layout(), records[n], states, before, states', stage, n);
        AllTrueAppend(accepted, r.Accepted?);
        accepted := accepted + [r.Accepted?];
      }
      assert records[..|records|] == records;
      RunMeans(store.pages, Layout(), states, states', records, caps);
    }
  }
}
