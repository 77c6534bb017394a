/** Whole runs of a tree: any sequence of operations answers like a plain map, and a
    restart from the directory brings back exactly the persisted part of the log. */
module LsmRuns {
  import opened ByteStrings
  import opened Sequences
  import opened Records
  import opened Pages
  import opened SSTables
  import opened TableIterators
  import opened Levels
  import opened Trees
  import opened Lsm
  import TableNumbers
  import opened FileNames

  // ----- runs refine a map

  datatype Op = Put(key: Bytes, value: Bytes) | Flush | Compact | Get(key: Bytes)

  function Lookup(m: map<Bytes, Bytes>, key: Bytes): Option<Bytes> {
    if key in m then Some(m[key]) else None
  }

  /** What a plain map answers to the Gets of a run. */
  function Answers(m: map<Bytes, Bytes>, ops: seq<Op>): seq<Option<Bytes>>
    decreases |ops|
  {
    if ops == [] then []
    else match ops[0]
      case Put(k, v) => Answers(m[k := v], ops[1..])
      case Get(k) => [Lookup(m, k)] + Answers(m, ops[1..])
      case Flush => Answers(m, ops[1..])
      case Compact => Answers(m, ops[1..])
  }

  function MapOf(log: seq<Record>): map<Bytes, Bytes> {
    if log == [] then map[] else MapOf(log[..|log| - 1])[log[|log| - 1].key := log[|log| - 1].value]
  }

  lemma {:induction false} LastValueIsLookup(log: seq<Record>, key: Bytes)
    ensures LastValue(log, key) == Lookup(MapOf(log), key)
  {
    if log != [] { LastValueIsLookup(log[..|log| - 1], key); }
  }

  lemma MapOfAppend(log: seq<Record>, r: Record)
    ensures MapOf(log + [r]) == MapOf(log)[r.key := r.value]
  {
    assert (log + [r])[..|log|] == log;
  }

  function KeepAll(rs: seq<Record>): seq<Record> { rs }

  lemma {:induction false} ThinsItself(rs: seq<Record>)
    ensures Thins(rs, rs)
  {
    if rs != [] { ThinsItself(rs[1..]); }
  }

  lemma KeepAllThins(pageSize: nat)
    ensures Thinning(KeepAll, pageSize)
  {
    forall rs | Sorted(rs) && AllFit(rs, pageSize) ensures Thins(rs, KeepAll(rs)) && AllFit(KeepAll(rs), pageSize) {
      ThinsItself(rs);
    }
  }

  ghost predicate PutsFit(ops: seq<Op>, pageSize: nat) {
    forall op :: op in ops && op.Put? ==> RecordFits(Record(op.key, 0, op.value), pageSize)
  }

  /** The concatenation of answers given and answers to come. */
  lemma AnswersStep(m: map<Bytes, Bytes>, ops: seq<Op>, i: nat)
    requires i < |ops|
    ensures ops[i].Put? ==> Answers(m, ops[i..]) == Answers(m[ops[i].key := ops[i].value], ops[i + 1..])
    ensures ops[i].Get? ==> Answers(m, ops[i..]) == [Lookup(m, ops[i].key)] + Answers(m, ops[i + 1..])
    ensures ops[i].Flush? || ops[i].Compact? ==> Answers(m, ops[i..]) == Answers(m, ops[i + 1..])
  {
    assert ops[i..][1..] == ops[i + 1..];
  }

  /** A tree on files, driven by any operations, answers every Get like a plain map. */
  method Execute(lsm: Lsm, ops: seq<Op>) returns (answers: seq<Option<Bytes>>)
    requires lsm.Valid() && PutsFit(ops, lsm.pageSize) && lsm.nextSeqNo + |ops| <= MAX_INT64
    modifies lsm, Caches(lsm.ssTables)
    ensures lsm.Valid() && answers == Answers(old(MapOf(Log(lsm.Value()))), ops)
  {
    hide Lsm.Valid, Log, LastValue, Answers, MapOf, Lookup, RecordFits, PutsFit;
    answers := [];
    var i := 0;
    ghost var start := MapOf(Log(lsm.Value()));
    assert ops[0..] == ops;
    ValidNext(lsm);
    while i < |ops|
      invariant 0 <= i <= |ops| && lsm.Valid() && 1 <= lsm.nextSeqNo <= old(lsm.nextSeqNo) + i
      invariant fresh(Caches(lsm.ssTables) - old(Caches(lsm.ssTables)))
      invariant answers + Answers(MapOf(Log(lsm.Value())), ops[i..]) == Answers(start, ops)
    {
      ghost var m := MapOf(Log(lsm.Value()));
      AnswersStep(m, ops, i);
      match ops[i] {
        case Put(k, v) =>
          PutFits(ops, i, lsm.pageSize, lsm.nextSeqNo);
          ghost var log := Log(lsm.Value());
          var s := lsm.Put(k, v);
          MapOfAppend(log, Record(k, s, v));
        case Flush =>
          lsm.Flush();
        case Compact =>
          KeepAllThins(lsm.pageSize);
          lsm.Compact(KeepAll);
        case Get(k) =>
          LastValueIsLookup(Log(lsm.Value()), k);
          var r := lsm.Get(k);
          assert answers + ([r] + Answers(m, ops[i + 1..])) == answers + [r] + Answers(m, ops[i + 1..]);
          answers := answers + [r];
      }
      i := i + 1;
    }
    NoAnswers(MapOf(Log(lsm.Value())));
    assert ops[i..] == [] && answers + [] == answers;
  }

  lemma ValidNext(lsm: Lsm)
    requires lsm.Valid()
    ensures lsm.nextSeqNo >= 1
  {}

  lemma NoAnswers(m: map<Bytes, Bytes>)
    ensures Answers(m, []) == []
  {}

  lemma PutFits(ops: seq<Op>, i: nat, pageSize: nat, seqNo: int)
    requires i < |ops| && ops[i].Put? && PutsFit(ops, pageSize) && MIN_INT64 <= seqNo <= MAX_INT64
    ensures RecordFits(Record(ops[i].key, seqNo, ops[i].value), pageSize)
  {
    assert RecordFits(Record(ops[i].key, 0, ops[i].value), pageSize);
  }

  /** The fast key iterator returns what a merge over all levels returns for that key. */
  lemma KeyScanIsRangeScan(t: Tree, key: Bytes, pageSize: nat, merged: seq<Record>)
    requires Ok(t, pageSize) && Sorted(merged)
    requires multiset(merged) == multiset(Select(Contents(t), KeyRange(key)))
    ensures merged == KeyWalk(AllLevels(t), key) == Versions(Log(t), key)
  {
    VersionsWalk(t, key, pageSize);
    KeyWalkSorted(AllLevels(t), key);
    KeyWalkContents(AllLevels(t), key);
    SortedUnique(merged, KeyWalk(AllLevels(t), key));
  }

  // ----- restart

  function MaxOf(a: int, b: int): int { if a < b then b else a }

  /** Init takes the largest sequence number over all table headers. */
  function MaxTables(tables: seq<seq<Record>>): Int64 {
    if tables == [] then 0 else MaxOf(MaxTables(tables[..|tables| - 1]), MaxSeq(tables[|tables| - 1]))
  }

  function OpenTree(tables: seq<seq<Record>>): Tree {
    Tree(tables, [], [], MaxTables(tables) + 1, MaxTables(tables))
  }

  lemma {:induction false} MaxTablesIsMax(tables: seq<seq<Record>>)
    ensures MaxTables(tables) == MaxSeq(Flatten(tables)) && MaxTables(tables) >= 0
  {
    if tables != [] {
      var front, last := tables[..|tables| - 1], tables[|tables| - 1];
      MaxTablesIsMax(front);
      MaxSeqConcat(Flatten(front), last);
      MaxSeqIsMax(Flatten(tables));
    }
  }

  lemma {:induction false} MaxSeqConcat(a: seq<Record>, b: seq<Record>)
    ensures MaxSeq(a + b) == MaxOf(MaxSeq(a), MaxSeq(b))
  {
    if b == [] {
      assert a + b == a;
      MaxSeqIsMax(a);
    } else {
      var front, last := b[..|b| - 1], b[|b| - 1];
      assert a + b == (a + front) + [last] && b == front + [last];
      MaxSeqConcat(a, front);
      MaxSeqAppend(a + front, last);
      MaxSeqAppend(front, last);
    }
  }

  /** Opening the tables of a tree gives a tree again, whose log is the part of the old
      log that was in tables: all of it up to `persisted`. */
  lemma OpenKeeps(t: Tree, pageSize: nat)
    requires Ok(t, pageSize)
    ensures Ok(OpenTree(t.tables), pageSize)
    ensures Log(OpenTree(t.tables)) == Chronicle(Flatten(t.tables))
    ensures Log(t) == Chronicle(Flatten(t.tables)) + Chronicle(Flatten(t.frozen + [t.mem]))
  {
    hide Flatten, Chronicle, MaxSeq;
    var u, newer := OpenTree(t.tables), Flatten(t.frozen + [t.mem]);
    ContentsSplit(t);
    ContentsSplit(u);
    FlattenNothing();
    FlattenAppend<Record>([], []);
    assert Contents(u) == Flatten(t.tables);
    UniqueParts(Flatten(t.tables), newer);
    ChronicleConcat(Flatten(t.tables), newer);
    MaxTablesIsMax(t.tables);
    MaxSeqIsMax(Flatten(t.tables));
    assert Ordered(AllLevels(u)) by { TablesOrdered(t); }
  }

  lemma TablesOrdered(t: Tree)
    requires Ordered(AllLevels(t))
    ensures Ordered(AllLevels(OpenTree(t.tables)))
  {
    var all := AllLevels(t);
    assert forall i :: 0 <= i < |t.tables| ==> all[i] == t.tables[i];
    OrderedAppend(t.tables, []);
    assert AllLevels(OpenTree(t.tables)) == t.tables + [[]];
  }

  /** Lsm::Init over a directory that holds the tables of `before`: the new tree has the
      same tables in the same order, and numbering continues after the largest. The files are
      opened in the order of their names. */
  method Restart(before: Lsm) returns (after: Lsm)
    requires before.Valid() && before.OnDisk() && FourDigits(before.files.Keys)
    ensures fresh(after) && after.Valid() && after.OnDisk()
    ensures after.Value() == OpenTree(before.Value().tables)
    ensures after.files == before.files && after.pageSize == before.pageSize
    ensures FileNos(after.ssTables) == FileNos(before.ssTables)
  {
    hide Lsm.Valid, Ok, TablesValid, MaxTables, DiskHolds;
    var sources := before.ssTables;
    RestartFacts(before);
    var names := SortedNumbers(before.files.Keys, SST_SUFFIX);
    AscendingUnique(names, FileNos(sources));
    var tables, maxSeqNo := OpenAll(before, sources, names);
    assert TableRecords(tables) == TableRecords(sources);
    assert FileNos(tables) == FileNos(sources);
    ghost var max: int := maxSeqNo;
    assert Tree(TableRecords(tables), [], [], max + 1, max) == OpenTree(before.Value().tables);
    after := new Lsm.Opened(before, tables, maxSeqNo);
    SameDisk(sources, tables, before.files);
  }

  lemma RestartFacts(before: Lsm)
    requires before.Valid() && before.OnDisk()
    ensures before.pageSize <= MAX_INT64
    ensures Ok(OpenTree(before.Value().tables), before.pageSize)
    ensures forall k :: 0 <= k < |before.ssTables| ==> Reopenable(before.ssTables[k], before)
    ensures FileNames.Ascending(FileNos(before.ssTables))
    ensures forall x :: x in FileNos(before.ssTables) <==> x in before.files.Keys
  {
    hide Ok;
    OpenKeeps(before.Value(), before.pageSize);
    forall k | 0 <= k < |before.ssTables| ensures Reopenable(before.ssTables[k], before) {
      assert before.ssTables[k] in before.ssTables && before.ssTables[k].Valid();
    }
  }

  lemma SameDisk(sources: seq<SSTable>, tables: seq<SSTable>, files: map<nat, Bytes>)
    requires DiskHolds(sources, files) && |tables| == |sources|
    requires forall k :: 0 <= k < |tables| ==> Reopens(tables[k], sources[k])
    ensures DiskHolds(tables, files)
  {
    assert FileNos(tables) == FileNos(sources);
  }

  /** The file of a table is in the directory and can be opened again. */
  ghost predicate Reopenable(table: SSTable, lsm: Lsm)
    reads lsm
  {
    && table.crc == lsm.crc && table.fileNo in lsm.files && lsm.files[table.fileNo] == table.file
    && table.file == TableFile(table.records, lsm.pageSize, lsm.crc)
    && AllFit(table.records, lsm.pageSize) && |PagesOf(table.records, lsm.pageSize)| <= MAX_INT64
  }

  method OpenAll(options: Lsm, ghost sources: seq<SSTable>, names: seq<nat>)
    returns (tables: seq<SSTable>, maxSeqNo: Int64)
    requires options.pageSize <= MAX_INT64 && names == FileNos(sources)
    requires forall k :: 0 <= k < |sources| ==> Reopenable(sources[k], options)
    ensures TablesValid(tables, options.pageSize) && fresh(Caches(tables)) && |tables| == |sources|
    ensures forall k :: 0 <= k < |tables| ==> Reopens(tables[k], sources[k])
    ensures forall t :: t in tables ==> t.crc == options.crc
    ensures maxSeqNo == MaxTables(TableRecords(sources))
  {
    hide TablesValid, SSTable.Valid, TableFile, PagesOf, MaxSeq, MaxTables, AllFit;
    tables := [];
    maxSeqNo := 0;
    var i := 0;
    EmptyTables(options.pageSize);
    while i < |names|
      invariant 0 <= i == |tables| <= |names|
      invariant TablesValid(tables, options.pageSize) && fresh(Caches(tables))
      invariant forall k :: 0 <= k < i ==> Reopens(tables[k], sources[k])
      invariant forall t :: t in tables ==> t.crc == options.crc
      invariant maxSeqNo == MaxTables(TableRecords(sources)[..i])
    {
      assert Reopenable(sources[i], options);
      var table := new SSTable(names[i], options.files[names[i]], options.crc, options.cacheCapacity,
                               sources[i].records, options.pageSize);
      HeaderMax(table);
      AddTable(tables, table, options.pageSize);
      maxSeqNo := MaxOf(maxSeqNo, table.header.maxSeqNo);
      MaxTablesStep(TableRecords(sources), i);
      assert Reopens(table, sources[i]);
      tables := tables + [table];
      i := i + 1;
    }
    assert TableRecords(sources)[..i] == TableRecords(sources);
  }

  ghost predicate Reopens(table: SSTable, source: SSTable) {
    table.fileNo == source.fileNo && table.file == source.file && table.crc == source.crc && table.records == source.records
  }

  lemma HeaderMax(table: SSTable)
    requires table.Valid()
    ensures table.header.maxSeqNo == MaxSeq(table.records)
  {}

  lemma MaxTablesStep(tables: seq<seq<Record>>, i: nat)
    requires i < |tables|
    ensures MaxTables(tables[..i + 1]) == MaxOf(MaxTables(tables[..i]), MaxSeq(tables[i]))
  {
    assert tables[..i + 1][..i] == tables[..i];
  }

  lemma EmptyTables(pageSize: nat)
    ensures TablesValid([], pageSize) && Caches([]) == {} && MaxTables([]) == 0
  {}
}
