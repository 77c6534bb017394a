/** The storages of a database on their table files, with one log on segment files: any upserts,
    flushes and commits, then a crash, then recovery through the bytes of the log. */
module Durability {
  import opened ByteStrings
  import opened Sequences
  import opened Records
  import opened Levels
  import opened SSTables
  import opened Trees
  import opened Lsm
  import opened FileNames
  import opened WalEvents
  import opened WalFiles
  import opened StorageRecovery
  import Cleaning
  import Recovery
  import Pages

  /** Every upsert of the storage in the log fits a page of its tree. */
  ghost predicate FitAll(id: Bytes, events: seq<Event>, pageSize: nat) {
    forall e :: e in events && e.Upsert? && e.storage == id ==> RecordFits(Record(e.key, e.seqNo, e.value), pageSize)
  }

  /** A tree that holds the storage `s`, which its tables and the log together can rebuild. */
  ghost predicate Facts(t: Tree, id: Bytes, s: Recovery.Storage, events: seq<Event>, pageSize: nat) {
    Ok(t, pageSize) && Represents(t, s) && Recovery.Recoverable(id, s, events) && FitAll(id, events, pageSize)
  }

  ghost predicate TreeOk(tree: Lsm, id: Bytes, s: Recovery.Storage, events: seq<Event>)
    reads tree, Caches(tree.ssTables)
  {
    tree.Valid() && tree.OnDisk() && tree.Consecutive() && Facts(tree.Value(), id, s, events, tree.pageSize)
  }

  lemma UpsertRecoverable(id: Bytes, s: Recovery.Storage, events: seq<Event>, key: Bytes, value: Bytes, seqNo: Int64)
    requires Recovery.Recoverable(id, s, events) && seqNo == |s.entries| + 1
    ensures Recovery.Recoverable(id, Recovery.Storage(s.entries + [Recovery.Entry(key, value)], s.persisted),
                                 events + [Upsert(id, seqNo, key, value)])
  {
    hide Recovery.Pending;
    var e, entry := Upsert(id, seqNo, key, value), Recovery.Entry(key, value);
    Recovery.PendingAppend(id, s.persisted, events, e);
    Recovery.LogsSnoc(Recovery.Pending(id, s.persisted, events), e, id, s.entries, entry, s.persisted);
  }

  lemma OtherRecoverable(id: Bytes, s: Recovery.Storage, events: seq<Event>, e: Event)
    requires Recovery.Recoverable(id, s, events) && !(e.Upsert? && e.storage == id)
    ensures Recovery.Recoverable(id, s, events + [e])
  {
    Recovery.PendingAppend(id, s.persisted, events, e);
  }

  /** The log grows by an event of another storage. */
  lemma OtherFacts(t: Tree, id: Bytes, s: Recovery.Storage, events: seq<Event>, pageSize: nat, e: Event)
    requires Facts(t, id, s, events, pageSize) && !(e.Upsert? && e.storage == id)
    ensures Facts(t, id, s, events + [e], pageSize)
  {
    hide Ok, Represents, Recovery.Recoverable, RecordFits;
    OtherRecoverable(id, s, events, e);
  }

  /** The tree takes a put and the log its event. */
  lemma PutFacts(t: Tree, id: Bytes, s: Recovery.Storage, events: seq<Event>, pageSize: nat,
                 key: Bytes, value: Bytes, maxRecords: nat)
    requires Facts(t, id, s, events, pageSize) && MIN_INT64 <= t.next <= MAX_INT64
    requires RecordFits(Record(key, t.next, value), pageSize)
    ensures Facts(PutTree(t, key, value, maxRecords), id,
                  Recovery.Storage(s.entries + [Recovery.Entry(key, value)], s.persisted),
                  events + [Upsert(id, t.next, key, value)], pageSize)
  {
    hide Ok, Represents, Recovery.Recoverable, RecordFits, PutTree;
    PutKeeps(t, key, value, maxRecords, pageSize);
    PutRepresents(t, s, key, value, maxRecords, pageSize);
    NextNumber(t, s);
    UpsertRecoverable(id, s, events, key, value, t.next);
  }

  /** The tree is flushed. */
  lemma FlushFacts(t: Tree, id: Bytes, s: Recovery.Storage, events: seq<Event>, pageSize: nat) returns (p: nat)
    requires Facts(t, id, s, events, pageSize)
    ensures Facts(FlushAll(t), id, s.(persisted := p), events, pageSize)
  {
    hide Represents, Recovery.Pending, FitAll, Ok, FlushAll;
    p := FlushAllRepresents(t, s, pageSize);
    FlushAllOk(t, pageSize);
    Recovery.PendingAbove(id, s.persisted, p, s.entries, events);
  }

  lemma {:induction false} FlushAllOk(t: Tree, pageSize: nat)
    requires Ok(t, pageSize)
    ensures Ok(FlushAll(t), pageSize)
    decreases |t.frozen|
  {
    hide Ok;
    if t.frozen != [] {
      FlushKeeps(t, pageSize);
      FlushAllOk(FlushOne(t), pageSize);
    }
  }

  lemma CommitFits(tx: Int64)
    ensures EventFits(Commit(tx))
  {
    SizesOf([], tx);
  }

  /** Room taken, in records: a table, written or frozen, counts for a full mem table. */
  function Room(tables: nat, records: nat, maxRecords: nat): nat { (maxRecords + 1) * tables + records }

  lemma RoomForOne(tables: nat, records: nat, maxRecords: nat)
    requires records >= maxRecords
    ensures Room(tables + 1, 0, maxRecords) <= Room(tables, records, maxRecords) + 1
  {
    assert (maxRecords + 1) * (tables + 1) == (maxRecords + 1) * tables + (maxRecords + 1);
  }

  /** So many records more make so many tables more. */
  lemma RoomBounds(tables: nat, records: nat, added: nat, maxRecords: nat, more: nat, rest: nat)
    requires Room(more, rest, maxRecords) <= Room(tables, records, maxRecords) + added
    ensures more <= tables + (records + added) / (maxRecords + 1)
  {
    var m, q := maxRecords + 1, (records + added) / (maxRecords + 1);
    assert records + added < m * (q + 1);
    assert m * tables + m * (q + 1) == m * (tables + q + 1);
    if more >= tables + q + 1 { Multiplied(m, tables + q + 1, more); }
  }

  lemma Multiplied(m: nat, a: nat, b: nat)
    requires a <= b
    ensures m * a <= m * b
  {}

  lemma PutTakesOne(t: Tree, key: Bytes, value: Bytes, maxRecords: nat)
    requires MIN_INT64 <= t.next <= MAX_INT64
    ensures var u := PutTree(t, key, value, maxRecords);
            && u.tables == t.tables
            && Room(|u.tables| + |u.frozen|, |u.mem|, maxRecords) <= Room(|t.tables| + |t.frozen|, |t.mem|, maxRecords) + 1
  {
    hide Room;
    if |t.mem| >= maxRecords { RoomForOne(|t.tables| + |t.frozen|, |t.mem|, maxRecords); }
    RoomGrows(|t.tables| + |t.frozen|, |t.mem|, maxRecords);
  }

  lemma RoomGrows(tables: nat, records: nat, maxRecords: nat)
    ensures Room(tables, records + 1, maxRecords) == Room(tables, records, maxRecords) + 1
  {}

  lemma FactsNext(t: Tree, id: Bytes, s: Recovery.Storage, events: seq<Event>, pageSize: nat)
    requires Facts(t, id, s, events, pageSize)
    ensures t.next == |s.entries| + 1 && s.persisted <= |s.entries|
  {}

  /** Reading the segments of earlier lives gives `past`. */
  ghost predicate PastReads(files: map<nat, Bytes>, past: seq<Event>) {
    FourDigits(files.Keys) && forall names :: Listing(names, files.Keys, WAL_SUFFIX) ==> ReadNumbers(files, names) == past
  }

  /** The sets of objects that the trees are made of. */
  ghost function CachesOf(trees: seq<Lsm>): set<object>
    reads trees
  {
    set t, c | t in trees && c in Caches(t.ssTables) :: c as object
  }

  datatype Op = DoUpsert(storage: nat, key: Bytes, value: Bytes) | DoFlush(storage: nat) | DoCommit(tx: Int64)

  /** The entries that a list of operations puts into a storage, in order. */
  function EntriesOf(ops: seq<Op>, i: nat): seq<Recovery.Entry> {
    if ops == [] then []
    else
      var front, op := EntriesOf(ops[..|ops| - 1], i), ops[|ops| - 1];
      if op.DoUpsert? && op.storage == i then front + [Recovery.Entry(op.key, op.value)] else front
  }

  /** How many tables the tree has or will have once it is flushed. */
  function TableCount(tree: Lsm): nat
    reads tree
  {
    |tree.ssTables| + |tree.roMemTables|
  }

  function RoomOf(tree: Lsm): nat
    reads tree
  {
    Room(TableCount(tree), |tree.memTable|, tree.maxRecords)
  }

  lemma RoomOfValue(tree: Lsm)
    ensures var t := tree.Value(); RoomOf(tree) == Room(|t.tables| + |t.frozen|, |t.mem|, tree.maxRecords)
  {
    hide Room;
  }

  /** The most tables that the tree has after `added` more records. */
  function TablesAfter(tree: Lsm, added: nat): nat
    reads tree
  {
    TableCount(tree) + (|tree.memTable| + added) / (tree.maxRecords + 1)
  }

  function Persisted(tree: Lsm): nat
    reads tree
  {
    if tree.maxPersistentSeqNo > 0 then tree.maxPersistentSeqNo else 0
  }

  class Engine {
    const ids: seq<Bytes>
    const trees: seq<Lsm>
    const writer: Writer
    ghost var past: seq<Event>
    ghost var contents: seq<Recovery.Storage>

    ghost function Events(): seq<Event>
      reads this, writer
    {
      past + AllEvents(writer.log)
    }

    ghost predicate Shape()
      reads this
    {
      && |ids| == |trees| == |contents|
      && (forall i, j :: 0 <= i < j < |ids| ==> ids[i] != ids[j] && trees[i] != trees[j])
    }

    ghost predicate Valid()
      reads this, writer, trees, CachesOf(trees)
    {
      && Shape() && writer.Valid() && PastReads(writer.earlier, past)
      && forall i :: 0 <= i < |trees| ==> TreeOk(trees[i], ids[i], contents[i], Events())
    }

    constructor (ids: seq<Bytes>, trees: seq<Lsm>, writer: Writer, ghost past: seq<Event>, ghost contents: seq<Recovery.Storage>)
      requires |ids| == |trees| == |contents|
      requires forall i, j :: 0 <= i < j < |ids| ==> ids[i] != ids[j] && trees[i] != trees[j]
      requires writer.Valid() && PastReads(writer.earlier, past)
      requires forall i :: 0 <= i < |trees| ==> TreeOk(trees[i], ids[i], contents[i], past + AllEvents(writer.log))
      ensures Valid() && this.ids == ids && this.trees == trees && this.writer == writer
      ensures this.past == past && this.contents == contents
    {
      hide Writer.Valid, Facts, PastReads, Lsm.Valid, DiskHolds;
      this.ids, this.trees, this.writer, this.past, this.contents := ids, trees, writer, past, contents;
      new;
      Apart();
      forall i | 0 <= i < |trees| ensures TreeOk(trees[i], ids[i], contents[i], Events()) {
        assert old(TreeOk(trees[i], ids[i], contents[i], past + AllEvents(writer.log)));
        assert trees[i] in trees;
      }
    }

    /** Upsert of a storage engine: the tree first, then the log. */
    method Upsert(i: nat, key: Bytes, value: Bytes)
      requires Valid() && i < |trees| && trees[i].nextSeqNo <= MAX_INT64
      requires RecordFits(Record(key, trees[i].nextSeqNo, value), trees[i].pageSize)
      requires EventFits(WalEvents.Upsert(ids[i], trees[i].nextSeqNo, key, value))
      modifies this`contents, trees[i], writer
      ensures Valid() && writer.first == old(writer.first)
      ensures contents == old(contents)[i := Recovery.Storage(
                old(contents)[i].entries + [Recovery.Entry(key, value)], old(contents)[i].persisted)]
      ensures writer.log == WalFiles.Append(
                old(writer.log), WalEvents.Upsert(ids[i], |old(contents)[i].entries| + 1, key, value))
      ensures forall j :: 0 <= j < |trees| ==> RoomOf(trees[j]) <= old(RoomOf(trees[j])) + if j == i then 1 else 0
    {
      hide Lsm.Valid, Writer.Valid, Trees.Log, Facts, PastReads, RecordFits, EventFits, EventBytes, PutTree, AllEvents,
           WalFiles.Append, DiskHolds, Represents, Recovery.Recoverable, Room, RoomOf, TableCount;
      ghost var events, s, t := Events(), contents[i], trees[i].Value();
      var tree := trees[i];
      assert TreeOk(tree, ids[i], s, events);
      Apart();
      RoomOfValue(tree);
      FactsNext(t, ids[i], s, events, tree.pageSize);
      PutFacts(t, ids[i], s, events, tree.pageSize, key, value, tree.maxRecords);
      PutTakesOne(t, key, value, tree.maxRecords);
      var seqNo := tree.Put(key, value);
      RoomOfValue(tree);
      var e := WalEvents.Upsert(ids[i], seqNo, key, value);
      writer.Write(e);
      contents := contents[i := Recovery.Storage(s.entries + [Recovery.Entry(key, value)], s.persisted)];
      assert Events() == events + [e] by { assert past + (AllEvents(old(writer.log)) + [e]) == past + AllEvents(old(writer.log)) + [e]; }
      forall j | 0 <= j < |trees| ensures TreeOk(trees[j], ids[j], contents[j], Events()) {
        if j != i {
          assert ids[i] != ids[j] && trees[i] != trees[j];
          assert old(TreeOk(trees[j], ids[j], contents[j], events));
          OtherFacts(trees[j].Value(), ids[j], contents[j], events, trees[j].pageSize, e);
        }
      }
    }

    /** The background flush of one storage. */
    method Flush(i: nat)
      requires Valid() && i < |trees|
      modifies this`contents, trees[i]
      ensures Valid() && |contents| == old(|contents|)
      ensures forall j :: 0 <= j < |contents| ==> contents[j].entries == old(contents)[j].entries
      ensures forall t :: t in trees ==> RoomOf(t) <= old(RoomOf(t))
    {
      hide Lsm.Valid, Writer.Valid, Trees.Log, Facts, PastReads, AllEvents, FlushAll, DiskHolds, Represents,
           Recovery.Recoverable, Room;
      ghost var events, s, t := Events(), contents[i], trees[i].Value();
      var tree := trees[i];
      assert TreeOk(tree, ids[i], s, events);
      Apart();
      ghost var p := FlushFacts(t, ids[i], s, events, tree.pageSize);
      tree.Flush();
      contents := contents[i := s.(persisted := p)];
      forall j | 0 <= j < |trees| ensures TreeOk(trees[j], ids[j], contents[j], Events()) {
        if j != i {
          assert trees[i] != trees[j];
          assert old(TreeOk(trees[j], ids[j], contents[j], events));
        }
      }
    }

    /** A commit event. */
    method Commit(tx: Int64)
      requires Valid()
      modifies writer
      ensures Valid() && writer.log == WalFiles.Append(old(writer.log), WalEvents.Commit(tx))
      ensures writer.first == old(writer.first)
    {
      hide Lsm.Valid, Writer.Valid, Facts, PastReads, AllEvents, WalFiles.Append, DiskHolds, EventFits, EventBytes;
      ghost var events := Events();
      var e := WalEvents.Commit(tx);
      Apart();
      CommitFits(tx);
      writer.Write(e);
      assert Events() == events + [e] by { assert past + (AllEvents(old(writer.log)) + [e]) == past + AllEvents(old(writer.log)) + [e]; }
      forall j | 0 <= j < |trees| ensures TreeOk(trees[j], ids[j], contents[j], Events()) {
        assert old(TreeOk(trees[j], ids[j], contents[j], events));
        OtherFacts(trees[j].Value(), ids[j], contents[j], events, trees[j].pageSize, e);
      }
    }

    /** What the trees say is in their table files. */
    function Persistence(): Recovery.Database
      requires |ids| == |trees| && forall i, j :: 0 <= i < j < |ids| ==> ids[i] != ids[j]
      reads trees
    {
      Recovery.Database(map i | 0 <= i < |ids| :: ids[i] := Recovery.Storage([], Persisted(trees[i])), [], 0)
    }

    /** The cleaner, while the segment being written is not obsolete: every storage stays
        recoverable from the files that are left. */
    method Clean(retainFrom: Option<nat>)
      requires Valid() && TailsOk(writer.log) && writer.currentSegmentNo < 10000
      requires !Recovery.Obsolete(Persistence(), Recovery.Segment(writer.currentSegmentNo, writer.log.open), retainFrom)
      modifies this`past, writer
      ensures Valid() && writer.currentSegmentNo == old(writer.currentSegmentNo)
      ensures writer.log == Log([], old(writer.log).open) && |Events()| <= |old(Events())|
      ensures forall n :: n in writer.files <==>
                n in old(writer.files) && !Recovery.Obsolete(
                  Persistence(), Recovery.Segment(n, ReadSegment(old(writer.files)[n]).events), retainFrom)
    {
      hide Lsm.Valid, Writer.Valid, Facts, PastReads, AllEvents, DiskHolds, TailsOk, ReadSegment, Recovery.Obsolete,
           Recovery.Keep, Recovery.Events, FourDigits;
      Apart();
      LogReadsBack(this);
      var d := Persistence();
      ghost var events := Events();
      ghost var wal;
      past, wal := CleanLog(writer, d, retainFrom, events);
      KeepShorter(d, wal, retainFrom);
      forall i | 0 <= i < |trees| ensures TreeOk(trees[i], ids[i], contents[i], Events()) {
        assert old(TreeOk(trees[i], ids[i], contents[i], events));
        PersistedIs(trees[i], ids[i], contents[i], events);
        CleanFacts(trees[i].Value(), ids[i], contents[i], trees[i].pageSize, d, wal, retainFrom);
      }
    }

    /** Trees, caches, the log writer and this object do not overlap. */
    lemma Apart()
      ensures forall t, c :: t in trees && c in Caches(t.ssTables) ==> c as object != writer && c as object != this
      ensures forall t, u, c :: t in trees && u in trees && c in Caches(t.ssTables) ==> c as object != u
      ensures forall t :: t in trees ==> t as object != writer && t as object != this
    {}
  }

  // ----- cleaning

  lemma {:induction false} SegmentsRead(files: map<nat, Bytes>, names: seq<nat>)
    requires forall n :: n in names ==> n in files
    ensures Recovery.Events(Cleaning.Segments(files, names)) == ReadNumbers(files, names)
  {
    hide ReadSegment, Recovery.Events;
    if names == [] {
      NoSegments();
      assert Cleaning.Segments(files, names) == [];
    } else {
      var front, last := names[..|names| - 1], names[|names| - 1];
      assert names == front + [last] && last in names;
      SegmentsRead(files, front);
      Cleaning.SegmentsAppend(files, front, last);
      Recovery.EventsAppend(Cleaning.Segments(files, front), Recovery.Segment(last, ReadSegment(files[last]).events));
    }
  }

  lemma NoSegments()
    ensures Recovery.Events([]) == []
  {}

  lemma KeptActive(w: Writer)
    requires w.Valid()
    ensures w.currentSegmentNo in w.files && ReadSegment(w.files[w.currentSegmentNo]).events == w.log.open
  {
    RunSegment(w, w.currentSegmentNo);
  }

  /** The rest of the log reads back as what is left of the past and what is in the open segment. */
  lemma RestReads(w: Writer, names: seq<nat>) returns (past: seq<Event>)
    requires w.Valid() && w.currentSegmentNo < 10000 && w.log.closed == [] && Listing(names, w.files.Keys, WAL_SUFFIX)
    ensures PastReads(w.earlier, past) && past + AllEvents(w.log) == ReadNumbers(w.files, names)
  {
    hide ReadNumbers, EventsBytes, FileName, Less;
    var some := SomeListing(w.earlier.Keys, WAL_SUFFIX);
    past := ReadNumbers(w.earlier, some);
    forall other | Listing(other, w.earlier.Keys, WAL_SUFFIX) ensures other == some {
      ListingAscends(other, w.earlier.Keys, WAL_SUFFIX);
      ListingAscends(some, w.earlier.Keys, WAL_SUFFIX);
      AscendingUnique(other, some);
    }
    WalRoundTrip(w, names, some);
  }

  /** The cleaner on the writer's directory. `wal` are the segments it found. */
  method CleanLog(w: Writer, d: Recovery.Database, retainFrom: Option<nat>, ghost events: seq<Event>)
    returns (ghost past: seq<Event>, ghost wal: seq<Recovery.Segment>)
    requires w.Valid() && w.currentSegmentNo < 10000 && PastReads(w.files, events)
    requires !Recovery.Obsolete(d, Recovery.Segment(w.currentSegmentNo, w.log.open), retainFrom)
    modifies w`files, w`first, w`earlier, w`log
    ensures w.Valid() && w.log == Log([], old(w.log).open) && PastReads(w.earlier, past)
    ensures forall n :: n in w.files <==>
              n in old(w.files) && !Recovery.Obsolete(d, Recovery.Segment(n, ReadSegment(old(w.files)[n]).events), retainFrom)
    ensures events == Recovery.Events(wal) && past + AllEvents(w.log) == Recovery.Events(Recovery.Keep(d, wal, retainFrom))
  {
    hide Writer.Valid, PastReads, ReadNumbers, ReadSegment, Recovery.Obsolete, Recovery.Keep, Recovery.Events, AllEvents,
         FileName, Less;
    var left, names, kept := Cleaning.CleanFiles(d, w.files, retainFrom);
    PastOf(w.files, events, names);
    SegmentsRead(w.files, names);
    SegmentsRead(left, kept);
    KeptActive(w);
    wal := Cleaning.Segments(w.files, names);
    w.LoseFiles(left);
    past := RestReads(w, kept);
  }

  lemma PersistedIs(tree: Lsm, id: Bytes, s: Recovery.Storage, events: seq<Event>)
    requires TreeOk(tree, id, s, events)
    ensures Persisted(tree) == tree.Value().persisted
  {
    hide Lsm.Valid, Ok, Trees.Log, DiskHolds, Recovery.Recoverable, FitAll;
  }

  lemma {:induction false} KeepShorter(d: Recovery.Database, wal: seq<Recovery.Segment>, retainFrom: Option<nat>)
    ensures |Recovery.Events(Recovery.Keep(d, wal, retainFrom))| <= |Recovery.Events(wal)|
  {
    hide Recovery.Events, Recovery.Obsolete;
    if wal == [] {
      NoSegments();
    } else {
      var front, s := wal[..|wal| - 1], wal[|wal| - 1];
      KeepShorter(d, front, retainFrom);
      assert wal == front + [s];
      Recovery.EventsAppend(front, s);
      Recovery.EventsAppend(Recovery.Keep(d, front, retainFrom), s);
    }
  }

  lemma CleanFacts(
    t: Tree, id: Bytes, s: Recovery.Storage, pageSize: nat, d: Recovery.Database, wal: seq<Recovery.Segment>,
    retainFrom: Option<nat>)
    requires Facts(t, id, s, Recovery.Events(wal), pageSize) && id in d.storages && d.storages[id].persisted == t.persisted
    ensures Facts(t, id, s, Recovery.Events(Recovery.Keep(d, wal, retainFrom)), pageSize)
  {
    hide Ok, Recovery.Pending, Recovery.Keep, Recovery.Events, RecordFits, Trees.Log;
    Recovery.KeepPending(d, wal, retainFrom, id);
    Recovery.KeepEvents(d, wal, retainFrom);
  }

  // ----- runs

  /** Sizes do not depend on the sequence number. */
  lemma EventSize(id: Bytes, a: Int64, b: Int64, key: Bytes, value: Bytes)
    ensures |EventBytes(Upsert(id, a, key, value))| == |EventBytes(Upsert(id, b, key, value))|
  {}

  /** The operation names a storage, and its event and record fit their pages. */
  ghost predicate OpFits(op: Op, ids: seq<Bytes>, trees: seq<Lsm>)
    requires |ids| == |trees|
  {
    match op
    case DoUpsert(i, key, value) =>
      i < |ids| && RecordFits(Record(key, 1, value), trees[i].pageSize) && EventFits(Upsert(ids[i], 1, key, value))
    case DoFlush(i) => i < |ids|
    case DoCommit(_) => true
  }

  lemma {:induction false} EntriesAreFew(ops: seq<Op>, i: nat)
    ensures |EntriesOf(ops, i)| <= |ops|
  {
    if ops != [] { EntriesAreFew(ops[..|ops| - 1], i); }
  }

  /** The log after one operation on storages that have `sizes` entries. */
  function LogStep(log: Log, ids: seq<Bytes>, sizes: seq<nat>, op: Op): Log {
    match op
    case DoUpsert(i, key, value) =>
      if i < |ids| && i < |sizes| && sizes[i] < MAX_INT64 then
        WalFiles.Append(log, Upsert(ids[i], sizes[i] + 1, key, value))
      else log
    case DoFlush(_) => log
    case DoCommit(tx) => WalFiles.Append(log, Commit(tx))
  }

  /** The numbers of entries after some operations. */
  function Grown(sizes: seq<nat>, ops: seq<Op>): (r: seq<nat>)
    ensures |r| == |sizes| && forall i :: 0 <= i < |r| ==> r[i] == sizes[i] + |EntriesOf(ops, i)|
  {
    seq(|sizes|, i requires 0 <= i < |sizes| => sizes[i] + |EntriesOf(ops, i)|)
  }

  /** The log after the events of some operations on storages that had `sizes` entries. */
  function LogAfter(log: Log, ids: seq<Bytes>, sizes: seq<nat>, ops: seq<Op>): Log {
    if ops == [] then log
    else
      var front := ops[..|ops| - 1];
      LogStep(LogAfter(log, ids, sizes, front), ids, Grown(sizes, front), ops[|ops| - 1])
  }

  function Sizes(contents: seq<Recovery.Storage>): (r: seq<nat>)
    ensures |r| == |contents| && forall i :: 0 <= i < |r| ==> r[i] == |contents[i].entries|
  {
    seq(|contents|, i requires 0 <= i < |contents| => |contents[i].entries|)
  }

  method ExecuteOne(engine: Engine, op: Op)
    requires engine.Valid() && OpFits(op, engine.ids, engine.trees)
    requires forall n :: n in Sizes(engine.contents) ==> n < MAX_INT64
    modifies engine`contents, engine.trees, engine.writer
    ensures engine.Valid() && |engine.contents| == old(|engine.contents|) && engine.writer.first == old(engine.writer.first)
    ensures forall i :: 0 <= i < |engine.contents| ==>
              engine.contents[i].entries == old(engine.contents)[i].entries + EntriesOf([op], i)
    ensures engine.writer.log == LogStep(old(engine.writer.log), engine.ids, Sizes(old(engine.contents)), op)
    ensures forall i :: 0 <= i < |engine.trees| ==>
              RoomOf(engine.trees[i]) <= old(RoomOf(engine.trees[i])) + |EntriesOf([op], i)|
  {
    hide Engine.Valid, RecordFits, EventFits, WalFiles.Append, Room;
    EngineShape(engine);
    ghost var sizes := Sizes(engine.contents);
    forall i ensures EntriesOf([op], i) == if op.DoUpsert? && op.storage == i then [Recovery.Entry(op.key, op.value)] else [] {
      assert [op][..0] == [];
    }
    match op {
      case DoUpsert(i, key, value) =>
        assert sizes[i] in sizes;
        UpsertFits(engine, i, key, value);
        engine.Upsert(i, key, value);
      case DoFlush(i) =>
        engine.Flush(i);
      case DoCommit(tx) =>
        engine.Commit(tx);
    }
  }

  lemma EntriesSnoc(was: seq<Recovery.Entry>, ops: seq<Op>, op: Op, i: nat)
    ensures was + EntriesOf(ops, i) + EntriesOf([op], i) == was + EntriesOf(ops + [op], i)
    ensures |EntriesOf(ops + [op], i)| == |EntriesOf(ops, i)| + |EntriesOf([op], i)|
  {
    assert (ops + [op])[..|ops|] == ops && [op][..0] == [];
  }

  lemma LogSnoc(log: Log, ids: seq<Bytes>, sizes: seq<nat>, ops: seq<Op>, op: Op)
    ensures LogAfter(log, ids, sizes, ops + [op]) == LogStep(LogAfter(log, ids, sizes, ops), ids, Grown(sizes, ops), op)
  {
    assert (ops + [op])[..|ops|] == ops;
  }

  /** Any upserts, flushes and commits, one after the other. */
  method Execute(engine: Engine, ops: seq<Op>)
    requires engine.Valid() && forall op :: op in ops ==> OpFits(op, engine.ids, engine.trees)
    requires forall n :: n in Sizes(engine.contents) ==> n + |ops| < MAX_INT64
    modifies engine`contents, engine.trees, engine.writer
    ensures engine.Valid() && |engine.contents| == old(|engine.contents|) && engine.writer.first == old(engine.writer.first)
    ensures forall i :: 0 <= i < |engine.contents| ==>
              engine.contents[i].entries == old(engine.contents)[i].entries + EntriesOf(ops, i)
    ensures engine.writer.log == LogAfter(old(engine.writer.log), engine.ids, Sizes(old(engine.contents)), ops)
    ensures forall i :: 0 <= i < |engine.trees| ==>
              RoomOf(engine.trees[i]) <= old(RoomOf(engine.trees[i])) + |EntriesOf(ops, i)|
  {
    hide Engine.Valid, RecordFits, EventFits, LogStep, LogAfter, EntriesOf, OpFits, RoomOf;
    var k := 0;
    EngineShape(engine);
    ghost var sizes := Sizes(engine.contents);
    ghost var was := engine.contents;
    forall i ensures EntriesOf([], i) == [] { NoEntries(i); }
    NoEvents(engine.writer.log, engine.ids, sizes);
    while k < |ops|
      invariant 0 <= k <= |ops| && engine.Valid() && |engine.contents| == |was| == |engine.trees|
      invariant forall i :: 0 <= i < |was| ==> engine.contents[i].entries == was[i].entries + EntriesOf(ops[..k], i)
      invariant engine.writer.first == old(engine.writer.first)
      invariant engine.writer.log == LogAfter(old(engine.writer.log), engine.ids, sizes, ops[..k])
      invariant forall i :: 0 <= i < |engine.trees| ==>
                  RoomOf(engine.trees[i]) <= old(RoomOf(engine.trees[i])) + |EntriesOf(ops[..k], i)|
    {
      var op := ops[k];
      assert op in ops && ops[..k + 1] == ops[..k] + [op];
      LogSnoc(old(engine.writer.log), engine.ids, sizes, ops[..k], op);
      ghost var now := engine.contents;
      assert Sizes(now) == Grown(sizes, ops[..k]);
      forall i | 0 <= i < |was| ensures |now[i].entries| < MAX_INT64 {
        EntriesAreFew(ops[..k], i);
        assert sizes[i] in sizes;
      }
      ExecuteOne(engine, op);
      forall i | 0 <= i < |was|
        ensures engine.contents[i].entries == was[i].entries + EntriesOf(ops[..k + 1], i)
        ensures |EntriesOf(ops[..k + 1], i)| == |EntriesOf(ops[..k], i)| + |EntriesOf([op], i)|
      {
        EntriesSnoc(was[i].entries, ops[..k], op, i);
      }
      k := k + 1;
    }
    assert ops[..k] == ops;
  }

  lemma NoEvents(log: Log, ids: seq<Bytes>, sizes: seq<nat>)
    ensures LogAfter(log, ids, sizes, []) == log
  {}

  lemma NoEntries(i: nat)
    ensures EntriesOf([], i) == []
  {}

  lemma EngineShape(engine: Engine)
    requires engine.Valid()
    ensures |engine.contents| == |engine.trees| == |engine.ids|
  {}

  lemma UpsertFits(engine: Engine, i: nat, key: Bytes, value: Bytes)
    requires engine.Valid() && i < |engine.trees| && |engine.contents[i].entries| < MAX_INT64
    requires RecordFits(Record(key, 1, value), engine.trees[i].pageSize) && EventFits(Upsert(engine.ids[i], 1, key, value))
    ensures 1 <= engine.trees[i].nextSeqNo <= MAX_INT64
    ensures RecordFits(Record(key, engine.trees[i].nextSeqNo, value), engine.trees[i].pageSize)
    ensures EventFits(Upsert(engine.ids[i], engine.trees[i].nextSeqNo, key, value))
  {
    hide Lsm.Valid, Writer.Valid, Represents, Recovery.Recoverable, EventBytes, DiskHolds, Ok, PastReads;
    assert TreeOk(engine.trees[i], engine.ids[i], engine.contents[i], engine.Events());
    NextNumber(engine.trees[i].Value(), engine.contents[i]);
    EventSize(engine.ids[i], 1, engine.trees[i].nextSeqNo, key, value);
  }

  // ----- crash and recovery

  /** Whatever way the directory is listed, the log reads back as everything ever logged. */
  lemma LogReadsBack(engine: Engine)
    requires engine.Valid() && TailsOk(engine.writer.log) && engine.writer.currentSegmentNo < 10000
    ensures PastReads(engine.writer.files, engine.Events()) && FourDigits(engine.writer.files.Keys)
  {
    hide TreeOk, ReadNumbers, EventsBytes, ClosedSegment, FileName, Less, Tail;
    var w := engine.writer;
    var earlier := SomeListing(w.earlier.Keys, WAL_SUFFIX);
    forall names | Listing(names, w.files.Keys, WAL_SUFFIX) ensures ReadNumbers(w.files, names) == engine.Events() {
      WalRoundTrip(w, names, earlier);
    }
  }

  lemma LogsAgree(t: Tree, u: Tree, s: Recovery.Storage)
    requires Represents(t, s) && Represents(u, s)
    ensures Trees.Log(t) == Trees.Log(u) && t.next == u.next
  {
    hide Trees.Log;
    var a, b := Trees.Log(t), Trees.Log(u);
    assert |a| == |b| == |s.entries|;
    forall i | 0 <= i < |a| ensures a[i] == b[i] {
      assert s.entries[i] == Recovery.Entry(a[i].key, a[i].value) == Recovery.Entry(b[i].key, b[i].value);
    }
  }

  method RecoverTree(before: Lsm, id: Bytes, events: seq<Event>, ghost s: Recovery.Storage) returns (after: Lsm)
    requires TreeOk(before, id, s, events) && FourDigits(before.files.Keys) && before.nextSeqNo + |events| <= MAX_INT64
    ensures fresh(after) && TreeOk(after, id, s, events)
    ensures Trees.Log(after.Value()) == Trees.Log(before.Value()) && after.nextSeqNo == before.nextSeqNo
  {
    hide Lsm.Valid, Ok, Trees.Log, Represents, Recovery.Recoverable, DiskHolds, RecordFits;
    after := CrashAndRecover(before, id, events, s);
    ValidOk(after);
    LogsAgree(before.Value(), after.Value(), s);
  }

  method RecoverTrees(before: seq<Lsm>, ids: seq<Bytes>, events: seq<Event>, ghost contents: seq<Recovery.Storage>)
    returns (after: seq<Lsm>)
    requires |before| == |ids| == |contents|
    requires forall i :: 0 <= i < |before| ==> TreeOk(before[i], ids[i], contents[i], events)
    requires forall t :: t in before ==> FourDigits(t.files.Keys) && t.nextSeqNo + |events| <= MAX_INT64
    ensures |after| == |before| && forall i :: 0 <= i < |after| ==> fresh(after[i])
    ensures forall i, j :: 0 <= i < j < |after| ==> after[i] != after[j]
    ensures forall i :: 0 <= i < |after| ==> TreeOk(after[i], ids[i], contents[i], events)
    ensures forall i :: 0 <= i < |after| ==>
              && Trees.Log(after[i].Value()) == Trees.Log(before[i].Value())
              && after[i].nextSeqNo == before[i].nextSeqNo
  {
    hide Lsm.Valid, Facts, DiskHolds, Trees.Log;
    after := [];
    var i := 0;
    while i < |before|
      invariant 0 <= i == |after| <= |before|
      invariant forall k :: 0 <= k < |before| ==> TreeOk(before[k], ids[k], contents[k], events)
      invariant forall k :: 0 <= k < i ==> fresh(after[k])
      invariant forall k, l :: 0 <= k < l < i ==> after[k] != after[l]
      invariant forall k :: 0 <= k < i ==> TreeOk(after[k], ids[k], contents[k], events)
      invariant forall k :: 0 <= k < i ==>
                  && Trees.Log(after[k].Value()) == Trees.Log(before[k].Value())
                  && after[k].nextSeqNo == before[k].nextSeqNo
    {
      assert before[i] in before;
      label Last:
      var tree := RecoverTree(before[i], ids[i], events, contents[i]);
      forall k | 0 <= k < |before| ensures TreeOk(before[k], ids[k], contents[k], events) {
        assert old@Last(TreeOk(before[k], ids[k], contents[k], events));
        assert unchanged@Last(before[k]) && unchanged@Last(Caches(before[k].ssTables));
      }
      forall k | 0 <= k < i ensures TreeOk(after[k], ids[k], contents[k], events) {
        assert old@Last(TreeOk(after[k], ids[k], contents[k], events));
        assert unchanged@Last(after[k]) && unchanged@Last(Caches(after[k].ssTables));
      }
      after := after + [tree];
      i := i + 1;
    }
  }

  lemma NothingLogged(events: seq<Event>)
    ensures events + AllEvents(Log([], [])) == events
  {}

  /** A crash loses every mem table. Opening the table files of every storage and replaying the
      log, read from its bytes, brings back all trees as they were, and the database goes on. */
  method Recover(before: Engine) returns (after: Engine)
    requires before.Valid() && TailsOk(before.writer.log) && before.writer.currentSegmentNo < 10000
    requires forall t :: t in before.trees ==> FourDigits(t.files.Keys)
    requires forall t :: t in before.trees ==> t.nextSeqNo + |before.Events()| <= MAX_INT64
    ensures fresh(after) && (forall t :: t in after.trees ==> fresh(t)) && after.Valid()
    ensures after.ids == before.ids && after.contents == before.contents && |after.trees| == |before.trees|
    ensures forall i :: 0 <= i < |before.trees| ==>
              && Trees.Log(after.trees[i].Value()) == Trees.Log(before.trees[i].Value())
              && after.trees[i].nextSeqNo == before.trees[i].nextSeqNo
  {
    hide Lsm.Valid, Facts, DiskHolds, Writer.Valid, Trees.Log, PastReads, AllEvents, ReadNumbers, ReadPage,
         ReadSegment, TailsOk, FourDigits;
    LogReadsBack(before);
    var names, events := ReadLog(before.writer.files);
    PastOf(before.writer.files, before.Events(), names);
    var writer := new Writer(before.writer.files);
    forall i | 0 <= i < |before.trees| ensures TreeOk(before.trees[i], before.ids[i], before.contents[i], events) {
      assert old(TreeOk(before.trees[i], before.ids[i], before.contents[i], before.Events()));
      assert unchanged(before.trees[i]) && unchanged(Caches(before.trees[i].ssTables));
    }
    label Opened:
    var trees := RecoverTrees(before.trees, before.ids, events, before.contents);
    assert unchanged@Opened(writer);
    NothingLogged(events);
    after := new Engine(before.ids, trees, writer, events, before.contents);
  }

  /** Cleaning, then a crash, then recovery: all trees come back as they were. */
  method CleanAndRecover(before: Engine, retainFrom: Option<nat>) returns (after: Engine)
    requires before.Valid() && TailsOk(before.writer.log) && before.writer.currentSegmentNo < 10000
    requires !Recovery.Obsolete(
               before.Persistence(), Recovery.Segment(before.writer.currentSegmentNo, before.writer.log.open), retainFrom)
    requires forall t :: t in before.trees ==> FourDigits(t.files.Keys)
    requires forall t :: t in before.trees ==> t.nextSeqNo + |before.Events()| <= MAX_INT64
    modifies before`past, before.writer
    ensures fresh(after) && (forall t :: t in after.trees ==> fresh(t)) && after.Valid()
    ensures after.ids == before.ids && after.contents == old(before.contents) && |after.trees| == |before.trees|
    ensures forall i :: 0 <= i < |before.trees| ==>
              && Trees.Log(after.trees[i].Value()) == old(Trees.Log(before.trees[i].Value()))
              && after.trees[i].nextSeqNo == old(before.trees[i].nextSeqNo)
  {
    hide Engine.Valid, Trees.Log, AllEvents, Recovery.Obsolete, FourDigits, ReadSegment, EventsBytes;
    EngineShape(before);
    before.Clean(retainFrom);
    after := Recover(before);
  }

  lemma PastOf(files: map<nat, Bytes>, past: seq<Event>, names: seq<nat>)
    requires PastReads(files, past) && Listing(names, files.Keys, WAL_SUFFIX)
    ensures ReadNumbers(files, names) == past
  {}

  /** The directory of a tree whose files are numbered by age. */
  lemma CountedFiles(tree: Lsm, id: Bytes, s: Recovery.Storage, events: seq<Event>)
    requires TreeOk(tree, id, s, events) && |tree.ssTables| <= 10000
    ensures FourDigits(tree.files.Keys) && tree.nextSeqNo == |s.entries| + 1
    ensures Entries(Trees.Log(tree.Value())) == s.entries
  {
    hide Lsm.Valid, Ok, Trees.Log, Recovery.Recoverable, FitAll;
  }

  lemma EngineHolds(engine: Engine, i: nat)
    requires engine.Valid() && i < |engine.trees| && |engine.trees[i].ssTables| <= 10000
    ensures FourDigits(engine.trees[i].files.Keys)
    ensures engine.trees[i].nextSeqNo == |engine.contents[i].entries| + 1
    ensures Entries(Trees.Log(engine.trees[i].Value())) == engine.contents[i].entries
  {
    hide TreeOk, Writer.Valid, PastReads, Trees.Log, FourDigits;
    CountedFiles(engine.trees[i], engine.ids[i], engine.contents[i], engine.Events());
  }

  lemma ReadyToRecover(engine: Engine)
    requires engine.Valid() && forall t :: t in engine.trees ==> TableCount(t) <= 10000
    requires forall i :: 0 <= i < |engine.contents| ==> |engine.contents[i].entries| + 1 + |engine.Events()| <= MAX_INT64
    ensures forall t :: t in engine.trees ==> FourDigits(t.files.Keys) && t.nextSeqNo + |engine.Events()| <= MAX_INT64
  {
    hide Engine.Valid, FourDigits, Trees.Log, AllEvents;
    EngineShape(engine);
    forall t | t in engine.trees ensures FourDigits(t.files.Keys) && t.nextSeqNo + |engine.Events()| <= MAX_INT64 {
      var i :| 0 <= i < |engine.trees| && engine.trees[i] == t;
      EngineHolds(engine, i);
    }
  }

  lemma AppendCounts(log: Log, e: Event)
    ensures |AllEvents(WalFiles.Append(log, e))| == |AllEvents(log)| + 1
  {
    hide EventsBytes, EventBytes;
    FlattenAppend(log.closed, log.open);
  }

  lemma {:induction false} LogAfterCounts(log: Log, ids: seq<Bytes>, sizes: seq<nat>, ops: seq<Op>)
    ensures |AllEvents(LogAfter(log, ids, sizes, ops))| <= |AllEvents(log)| + |ops|
  {
    hide WalFiles.Append, AllEvents;
    if ops != [] {
      var front := ops[..|ops| - 1];
      LogAfterCounts(log, ids, sizes, front);
      var was := LogAfter(log, ids, sizes, front);
      forall e ensures |AllEvents(WalFiles.Append(was, e))| == |AllEvents(was)| + 1 { AppendCounts(was, e); }
    }
  }

  lemma WriterAt(w: Writer)
    requires w.Valid()
    ensures w.currentSegmentNo == w.first + |w.log.closed|
  {}

  lemma EngineWriter(engine: Engine)
    requires engine.Valid()
    ensures engine.writer.Valid()
  {}

  /** Any operations on any number of storages, then a crash, then recovery from the table files and
      the bytes of the log: every storage comes back with its old entries and the new ones, each
      once and in order, and its next sequence number is one past the last. */
  method ExecuteAndRecover(engine: Engine, ops: seq<Op>) returns (after: Engine)
    requires engine.Valid() && forall op :: op in ops ==> OpFits(op, engine.ids, engine.trees)
    requires forall i :: 0 <= i < |engine.trees| ==> TablesAfter(engine.trees[i], |EntriesOf(ops, i)|) <= 10000
    requires forall n :: n in Sizes(engine.contents) ==> n + |ops| + |engine.Events()| + |ops| < MAX_INT64
    requires var log := LogAfter(engine.writer.log, engine.ids, Sizes(engine.contents), ops);
             TailsOk(log) && engine.writer.first + |log.closed| < 10000
    modifies engine`contents, engine.trees, engine.writer
    ensures fresh(after) && after.Valid() && after.ids == engine.ids && |after.trees| == |engine.trees|
    ensures forall i :: 0 <= i < |after.trees| ==>
              var entries := old(engine.contents)[i].entries + EntriesOf(ops, i);
              Entries(Trees.Log(after.trees[i].Value())) == entries && after.trees[i].nextSeqNo == |entries| + 1
  {
    hide Engine.Valid, Writer.Valid, RecordFits, EventFits, TailsOk, LogAfter, FourDigits, Trees.Log, AllEvents,
         EntriesOf, Entries, Room;
    EngineShape(engine);
    ghost var sizes := Sizes(engine.contents);
    LogAfterCounts(engine.writer.log, engine.ids, sizes, ops);
    Execute(engine, ops);
    forall i | 0 <= i < |engine.contents| ensures |engine.contents[i].entries| + 1 + |engine.Events()| <= MAX_INT64 {
      EntriesAreFew(ops, i);
      assert sizes[i] in sizes;
    }
    forall i | 0 <= i < |engine.trees| ensures TableCount(engine.trees[i]) <= 10000 {
      var tree := engine.trees[i];
      RoomBounds(old(TableCount(tree)), old(|tree.memTable|), |EntriesOf(ops, i)|, tree.maxRecords,
                 TableCount(tree), |tree.memTable|);
    }
    ReadyToRecover(engine);
    EngineWriter(engine);
    WriterAt(engine.writer);
    after := Recover(engine);
    EngineShape(after);
    forall i | 0 <= i < |after.trees|
      ensures Entries(Trees.Log(after.trees[i].Value())) == after.contents[i].entries
      ensures after.trees[i].nextSeqNo == |after.contents[i].entries| + 1
    {
      EngineRepresents(after, i);
    }
  }

  lemma EngineRepresents(engine: Engine, i: nat)
    requires engine.Valid() && i < |engine.trees|
    ensures engine.trees[i].nextSeqNo == |engine.contents[i].entries| + 1
    ensures Entries(Trees.Log(engine.trees[i].Value())) == engine.contents[i].entries
  {
    hide Lsm.Valid, Ok, Writer.Valid, PastReads, Trees.Log, Recovery.Recoverable, FitAll, DiskHolds;
    assert TreeOk(engine.trees[i], engine.ids[i], engine.contents[i], engine.Events());
  }

  method NewTrees(ids: seq<Bytes>, pageSize: nat, crc: Pages.Checksum, cacheCapacity: nat, maxRecords: nat)
    returns (trees: seq<Lsm>)
    requires pageSize <= MAX_INT64
    ensures |trees| == |ids| && forall i, j :: 0 <= i < j < |trees| ==> trees[i] != trees[j]
    ensures forall i :: 0 <= i < |trees| ==> fresh(trees[i]) && TreeOk(trees[i], ids[i], Recovery.Storage([], 0), [])
  {
    hide Lsm.Valid, Facts, DiskHolds, Ok;
    ghost var nothing := Recovery.Storage([], 0);
    trees := [];
    var i := 0;
    while i < |ids|
      invariant 0 <= i == |trees| <= |ids|
      invariant forall k :: 0 <= k < i ==> fresh(trees[k]) && TreeOk(trees[k], ids[k], nothing, [])
      invariant forall k, l :: 0 <= k < l < i ==> trees[k] != trees[l]
    {
      label Last:
      var tree := new Lsm(pageSize, crc, cacheCapacity, maxRecords);
      EmptyFacts(ids[i], pageSize);
      forall k | 0 <= k < i ensures TreeOk(trees[k], ids[k], nothing, []) {
        assert old@Last(TreeOk(trees[k], ids[k], nothing, []));
        assert unchanged@Last(trees[k]) && unchanged@Last(Caches(trees[k].ssTables));
      }
      trees := trees + [tree];
      i := i + 1;
    }
  }

  /** A new database: empty trees and an empty log. */
  method NewEngine(ids: seq<Bytes>, pageSize: nat, crc: Pages.Checksum, cacheCapacity: nat, maxRecords: nat)
    returns (engine: Engine)
    requires pageSize <= MAX_INT64 && forall i, j :: 0 <= i < j < |ids| ==> ids[i] != ids[j]
    ensures fresh(engine) && engine.Valid() && engine.ids == ids && |engine.contents| == |ids|
    ensures forall i :: 0 <= i < |ids| ==> engine.contents[i].entries == []
  {
    hide Writer.Valid, TreeOk, PastReads, AllEvents;
    var writer := new Writer(map[]);
    EmptyPast();
    NothingLogged([]);
    label Opened:
    var trees := NewTrees(ids, pageSize, crc, cacheCapacity, maxRecords);
    assert unchanged@Opened(writer);
    ghost var contents := seq(|ids|, _ => Recovery.Storage([], 0));
    assert [] + AllEvents(writer.log) == [];
    engine := new Engine(ids, trees, writer, [], contents);
  }

  lemma EmptyPast()
    ensures PastReads(map[], [])
  {
    hide FileName, Less, ReadSegment;
    var files: map<nat, Bytes> := map[];
    forall names | Listing(names, files.Keys, WAL_SUFFIX) ensures ReadNumbers(files, names) == [] {
      ListingAscends(names, files.Keys, WAL_SUFFIX);
      AscendingUnique(names, []);
    }
  }

  lemma EmptyFacts(id: Bytes, pageSize: nat)
    ensures Facts(Tree([], [], [], 1, 0), id, Recovery.Storage([], 0), [], pageSize)
  {
    hide Represents, Ok;
    EmptyRepresents();
    EmptyOk(pageSize);
  }
}
