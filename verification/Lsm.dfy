/** The tree over real table files: mem tables, SSTables, the directory and its file
    numbers. Every operation is proved against the tree value of module Trees. */
module Lsm {
  import opened ByteStrings
  import opened Sequences
  import opened Records
  import opened Pages
  import opened LruCaches
  import opened SSTables
  import opened TableIterators
  import opened Merging
  import opened Levels
  import opened Trees
  import TableNumbers

  ghost function TableRecords(tables: seq<SSTable>): (r: seq<seq<Record>>)
    ensures |r| == |tables| && forall i :: 0 <= i < |r| ==> r[i] == tables[i].records
  {
    seq(|tables|, i requires 0 <= i < |tables| => tables[i].records)
  }

  ghost function FileNos(tables: seq<SSTable>): (r: seq<nat>)
    ensures |r| == |tables| && forall i :: 0 <= i < |r| ==> r[i] == tables[i].fileNo
  {
    seq(|tables|, i requires 0 <= i < |tables| => tables[i].fileNo)
  }

  ghost function Caches(tables: seq<SSTable>): set<LruCache<int, seq<Record>>> {
    set t | t in tables :: t.cache
  }

  /** A restart would open exactly these tables in this order. */
  ghost predicate DiskHolds(tables: seq<SSTable>, files: map<nat, Bytes>) {
    && TableNumbers.ByNumber(TableNumbers.Directory(FileNos(tables), files.Keys))
    && forall i :: 0 <= i < |tables| ==> tables[i].fileNo in files && files[tables[i].fileNo] == tables[i].file
  }

  /** A new number, the count of tables, leaves the numbers of the others alone. */
  lemma DiskGrows(tables: seq<SSTable>, files: map<nat, Bytes>, table: SSTable)
    requires DiskHolds(tables, files) && FileNos(tables) == TableNumbers.UpTo(|tables|) && table.fileNo == |tables|
    ensures DiskHolds(tables + [table], files[table.fileNo := table.file])
    ensures FileNos(tables + [table]) == TableNumbers.UpTo(|tables| + 1)
  {
    TableNumbers.FlushFromConsecutive(TableNumbers.Directory(FileNos(tables), files.Keys));
    assert FileNos(tables + [table]) == FileNos(tables) + [table.fileNo];
    forall i | 0 <= i < |tables| ensures tables[i].fileNo != table.fileNo { assert FileNos(tables)[i] == i; }
  }

  lemma DiskCompacts(tables: seq<SSTable>, files: map<nat, Bytes>, table: SSTable)
    requires DiskHolds(tables, files) && table.fileNo == TableNumbers.CompactNumber(FileNos(tables))
    ensures DiskHolds([table], files[table.fileNo := table.file] - (set x | x in FileNos(tables)))
  {
    TableNumbers.CompactKeepsFileExactly(TableNumbers.Directory(FileNos(tables), files.Keys));
    assert FileNos([table]) == [table.fileNo];
  }

  /** Every table reads its own file through its own cache. */
  ghost predicate TablesValid(tables: seq<SSTable>, pageSize: nat)
    reads Caches(tables)
  {
    && (forall i :: 0 <= i < |tables| ==> tables[i].Valid() && tables[i].header.pageSize == pageSize)
    && (forall i, j :: 0 <= i < j < |tables| ==> tables[i].cache != tables[j].cache)
  }

  method ScanOne(tables: seq<SSTable>, ghost pageSize: nat, i: nat, range: Range) returns (out: seq<Record>)
    requires TablesValid(tables, pageSize) && i < |tables| && Sorted(tables[i].records)
    modifies Caches(tables)
    ensures TablesValid(tables, pageSize) && out == Select(tables[i].records, range)
  {
    hide SSTable.Valid, Select;
    out := ScanTable(tables[i], range);
  }

  method ScanMem(impl: seq<Record>, range: Range) returns (out: seq<Record>)
    requires Sorted(impl)
    ensures out == Select(impl, range)
  {
    hide Select;
    var scan := new MemTableIterator(impl, range);
    out := [];
    while scan.HasMore()
      invariant fresh(scan) && scan.impl == impl && scan.range == range && scan.Valid()
      invariant out + scan.Remaining() == Select(impl, range)
      decreases |scan.Remaining()|
    {
      ghost var before := scan.Remaining();
      var r := scan.Next();
      assert out + before == out + [r] + scan.Remaining();
      out := out + [r];
    }
    scan.HasMoreIsExact();
  }

  class Lsm {
    const pageSize: nat
    const crc: Checksum
    const cacheCapacity: nat
    const maxRecords: nat

    var memTable: seq<Record>
    var roMemTables: seq<seq<Record>>
    var ssTables: seq<SSTable>
    var maxPersistentSeqNo: Int64
    var nextSeqNo: int
    // the directory of the tree: file number to file contents
    var files: map<nat, Bytes>

    ghost function Value(): Tree
      reads this
    {
      Tree(TableRecords(ssTables), roMemTables, memTable, nextSeqNo, maxPersistentSeqNo)
    }

    ghost predicate Valid()
      reads this, Caches(ssTables)
    {
      && pageSize <= MAX_INT64 && TablesValid(ssTables, pageSize) && Ok(Value(), pageSize)
      && forall t :: t in ssTables ==> t.crc == crc
    }

    ghost function Numbers(): TableNumbers.Directory
      reads this
    {
      TableNumbers.Directory(FileNos(ssTables), files.Keys)
    }

    ghost predicate OnDisk()
      reads this
    {
      DiskHolds(ssTables, files)
    }

    /** Files numbered by age: true until a Compact. */
    ghost predicate Consecutive()
      reads this
    {
      FileNos(ssTables) == TableNumbers.UpTo(|ssTables|)
    }

    constructor (pageSize: nat, crc: Checksum, cacheCapacity: nat, maxRecords: nat)
      requires pageSize <= MAX_INT64
      ensures Valid() && OnDisk() && Consecutive() && Value() == Tree([], [], [], 1, 0)
      ensures this.pageSize == pageSize && this.crc == crc
      ensures this.cacheCapacity == cacheCapacity && this.maxRecords == maxRecords && ssTables == []
    {
      hide Ok;
      EmptyOk(pageSize);
      this.pageSize, this.crc, this.cacheCapacity, this.maxRecords := pageSize, crc, cacheCapacity, maxRecords;
      memTable, roMemTables, ssTables, maxPersistentSeqNo, nextSeqNo, files := [], [], [], 0, 1, map[];
    }

    /** The state in which Init leaves a tree whose directory holds the given tables. */
    constructor Opened(options: Lsm, tables: seq<SSTable>, maxSeqNo: Int64)
      requires TablesValid(tables, options.pageSize) && options.pageSize <= MAX_INT64
      requires forall t :: t in tables ==> t.crc == options.crc
      requires Ok(Tree(TableRecords(tables), [], [], maxSeqNo + 1, maxSeqNo), options.pageSize)
      ensures Valid() && ssTables == tables && files == options.files
      ensures Value() == Tree(TableRecords(tables), [], [], maxSeqNo + 1, maxSeqNo)
      ensures pageSize == options.pageSize
    {
      hide Ok, SSTable.Valid;
      pageSize, crc := options.pageSize, options.crc;
      cacheCapacity, maxRecords := options.cacheCapacity, options.maxRecords;
      memTable, roMemTables, ssTables, files := [], [], tables, options.files;
      maxPersistentSeqNo, nextSeqNo := maxSeqNo, maxSeqNo + 1;
    }

    method Put(key: Bytes, value: Bytes) returns (seqNo: Int64)
      requires Valid() && nextSeqNo <= MAX_INT64 && RecordFits(Record(key, nextSeqNo, value), pageSize)
      modifies this`memTable, this`roMemTables, this`nextSeqNo
      ensures Valid() && seqNo == old(nextSeqNo) && nextSeqNo == old(nextSeqNo) + 1
      ensures Value() == PutTree(old(Value()), key, value, maxRecords)
      ensures Log(Value()) == old(Log(Value())) + [Record(key, seqNo, value)]
      ensures old(|memTable|) < maxRecords ==> |memTable| == old(|memTable|) + 1 && roMemTables == old(roMemTables)
      ensures old(|memTable|) >= maxRecords ==>
                && memTable == [] && |roMemTables| == old(|roMemTables|) + 1 && old(roMemTables) <= roMemTables
                && |roMemTables[|roMemTables| - 1]| == old(|memTable|) + 1
    {
      hide Ok, Log, Insert;
      PutKeeps(Value(), key, value, maxRecords, pageSize);
      NextIsPositive(Value(), pageSize);
      seqNo := nextSeqNo;
      nextSeqNo := nextSeqNo + 1;
      DoPut(seqNo, key, value);
    }

    /** The replaying Put: a record out of order is ignored. */
    method PutAt(seqNo: Int64, key: Bytes, value: Bytes) returns (applied: bool)
      requires Valid() && nextSeqNo <= MAX_INT64 && RecordFits(Record(key, seqNo, value), pageSize)
      modifies this`memTable, this`roMemTables, this`nextSeqNo
      ensures Valid() && applied == (seqNo == old(nextSeqNo))
      ensures applied ==> Value() == PutTree(old(Value()), key, value, maxRecords)
      ensures applied ==> Log(Value()) == old(Log(Value())) + [Record(key, seqNo, value)]
      ensures !applied ==> Value() == old(Value())
    {
      hide Ok, Log, Insert;
      if seqNo != nextSeqNo { return false; }
      PutKeeps(Value(), key, value, maxRecords, pageSize);
      DoPut(seqNo, key, value);
      nextSeqNo := nextSeqNo + 1;
      return true;
    }

    method DoPut(seqNo: Int64, key: Bytes, value: Bytes)
      modifies this`memTable, this`roMemTables
      ensures var mem := Insert(old(memTable), Record(key, seqNo, value));
              if |mem| > maxRecords then memTable == [] && roMemTables == old(roMemTables) + [mem]
              else memTable == mem && roMemTables == old(roMemTables)
    {
      memTable := Insert(memTable, Record(key, seqNo, value));
      if |memTable| > maxRecords {
        roMemTables := roMemTables + [memTable];
        memTable := [];
      }
    }

    /** Writes every mem table frozen so far to a table file, oldest first. */
    method Flush()
      requires Valid()
      modifies this`ssTables, this`roMemTables, this`maxPersistentSeqNo, this`files
      ensures Valid() && AllLevels(Value()) == old(AllLevels(Value())) && Log(Value()) == old(Log(Value()))
      ensures Value() == FlushAll(old(Value()))
      ensures roMemTables == [] && TableRecords(ssTables) == old(TableRecords(ssTables) + roMemTables)
      ensures fresh(Caches(ssTables) - old(Caches(ssTables)))
      ensures Numbers() == TableNumbers.AfterFlushes(old(Numbers()), old(|roMemTables|))
      ensures old(OnDisk() && Consecutive()) ==> OnDisk() && Consecutive()
    {
      hide Ok, Log, MaxSeq, TablesValid, DiskHolds, FlushOne, TableNumbers.AfterFlush;
      var pending := |roMemTables|;
      ghost var frozen := roMemTables;
      while pending > 0
        invariant 0 <= pending <= |frozen| && roMemTables == frozen[|frozen| - pending..]
        invariant Valid() && AllLevels(Value()) == old(AllLevels(Value())) && Log(Value()) == old(Log(Value()))
        invariant FlushAll(Value()) == old(FlushAll(Value()))
        invariant TableRecords(ssTables) == old(TableRecords(ssTables)) + frozen[..|frozen| - pending]
        invariant fresh(Caches(ssTables) - old(Caches(ssTables)))
        invariant Numbers() == TableNumbers.AfterFlushes(old(Numbers()), |frozen| - pending)
        invariant old(OnDisk() && Consecutive()) ==> OnDisk() && Consecutive()
      {
        FlushFront();
        pending := pending - 1;
      }
    }

    method FlushFront()
      requires Valid() && roMemTables != []
      modifies this`ssTables, this`roMemTables, this`maxPersistentSeqNo, this`files
      ensures Valid() && Value() == FlushOne(old(Value()))
      ensures AllLevels(Value()) == old(AllLevels(Value())) && Log(Value()) == old(Log(Value()))
      ensures roMemTables == old(roMemTables)[1..]
      ensures TableRecords(ssTables) == old(TableRecords(ssTables)) + [old(roMemTables)[0]]
      ensures fresh(Caches(ssTables) - old(Caches(ssTables)))
      ensures Numbers() == TableNumbers.AfterFlush(old(Numbers()))
      ensures old(OnDisk() && Consecutive()) ==> OnDisk() && Consecutive()
    {
      hide Ok, Chronicle, MaxSeq, TableFile, TablesValid, AllFit, SSTable.Valid, DiskHolds;
      FrontFits(Value(), pageSize);
      assert forall c :: c in Caches(ssTables) ==> c as object != this;
      var table := WriteTable(roMemTables[0], |ssTables|);
      assert TablesValid(ssTables, pageSize);
      if old(OnDisk() && Consecutive()) { DiskGrows(ssTables, old(files), table); }
      Publish(table);
    }

    /** The new table appears and the mem table it holds disappears in one step. */
    method Publish(table: SSTable)
      requires Valid() && roMemTables != [] && table.Valid() && table.header.pageSize == pageSize
      requires table.crc == crc && table.records == roMemTables[0] && table.cache !in Caches(ssTables)
      modifies this`ssTables, this`roMemTables, this`maxPersistentSeqNo
      ensures Valid() && Value() == FlushOne(old(Value()))
      ensures AllLevels(Value()) == old(AllLevels(Value())) && Log(Value()) == old(Log(Value()))
      ensures roMemTables == old(roMemTables)[1..] && ssTables == old(ssTables) + [table]
      ensures TableRecords(ssTables) == old(TableRecords(ssTables)) + [old(roMemTables)[0]]
      ensures FileNos(ssTables) == old(FileNos(ssTables)) + [table.fileNo]
      ensures Caches(ssTables) == old(Caches(ssTables)) + {table.cache}
    {
      hide Ok, Chronicle, MaxSeq, TableFile, TablesValid, AllFit;
      FlushKeeps(Value(), pageSize);
      AddTable(ssTables, table, pageSize);
      var front, tables := roMemTables[0], ssTables;
      maxPersistentSeqNo := if maxPersistentSeqNo < table.header.maxSeqNo then table.header.maxSeqNo else maxPersistentSeqNo;
      ssTables := tables + [table];
      roMemTables := roMemTables[1..];
      assert TableRecords(ssTables) == TableRecords(tables) + [front];
      assert FileNos(ssTables) == FileNos(tables) + [table.fileNo];
    }

    /** Creates file number `fileNo`, replacing any file of that name, and opens it. */
    method WriteTable(records: seq<Record>, fileNo: nat) returns (table: SSTable)
      requires pageSize <= MAX_INT64 && AllFit(records, pageSize) && |records| <= MAX_INT64
      modifies this`files
      ensures fresh(table) && fresh(table.cache) && table.Valid() && table.header.pageSize == pageSize
      ensures table.records == records && table.header.maxSeqNo == MaxSeq(records)
      ensures table.fileNo == fileNo && table.crc == crc && files == old(files)[fileNo := table.file]
    {
      hide TableFile, PagesOf, AllFit;
      var file := BuildTable(records, pageSize, crc);
      files := files[fileNo := file];
      PackedPages(records, pageSize);
      PagesAtMostRecords(PagesOf(records, pageSize));
      table := new SSTable(fileNo, file, crc, cacheCapacity, records, pageSize);
    }

    /** The value last put for the key. */
    method Get(key: Bytes) returns (r: Option<Bytes>)
      requires Valid()
      modifies Caches(ssTables)
      ensures Valid() && r == LastValue(Log(Value()), key)
    {
      hide Ok, TablesValid, Log, Versions, KeyWalk;
      VersionsWalk(Value(), key, pageSize);
      assert forall c :: c in Caches(ssTables) ==> c as object != this;
      var scan := LsmKeyIterator.Create(this, key);
      if scan.HasMore() {
        var record := scan.Next();
        return Some(record.value);
      }
      return None;
    }

    /** All versions of a key, newest first. */
    method ScanKey(key: Bytes) returns (out: seq<Record>)
      requires Valid()
      modifies Caches(ssTables)
      ensures Valid() && out == Versions(Log(Value()), key)
    {
      hide Ok, TablesValid, Log, Versions, KeyWalk;
      VersionsWalk(Value(), key, pageSize);
      assert forall c :: c in Caches(ssTables) ==> c as object != this;
      var scan := LsmKeyIterator.Create(this, key);
      out := scan.Drain();
    }

    /** LsmRangeIterator, drained: a merge of every level. */
    method ScanRange(range: Range) returns (out: seq<Record>)
      requires Valid()
      modifies Caches(ssTables)
      ensures Valid() && Sorted(out) && multiset(out) == multiset(Select(Contents(Value()), range))
      ensures forall r :: (r in out <==> r in Contents(Value()) && (range.lower.None? || !Less(r.key, range.lower.value))
                                         && (range.upper.None? || !Less(range.upper.value, r.key)))
    {
      hide TablesValid, Chronicle, Flatten, Select, UniqueSeqs, AllFit, Sorted, Less, Contents;
      LevelsSorted(Value());
      var mem := ScanMem(memTable, range);
      var ro := ScanFrozen(roMemTables, range);
      var ss := ScanTables(range);
      var lists := [mem] + ro + ss;
      RangeLists(Value(), range, mem, ro, ss);
      forall i | 0 <= i < |lists| ensures Sorted(lists[i]) { ListSorted(Value(), range, mem, ro, ss, i); }
      out := Merge(lists);
      forall r: Record
        ensures r in out <==> r in Contents(Value()) && InRange(range, r.key)
      {
        assert r in out <==> r in multiset(out);
        assert r in Select(Contents(Value()), range) <==> r in multiset(Select(Contents(Value()), range));
      }
      forall r: Record { InRangeExactly(range, r.key); }
    }

    /** Scans every table, oldest first. */
    method ScanTables(range: Range) returns (lists: seq<seq<Record>>)
      requires TablesValid(ssTables, pageSize)
      requires forall i :: 0 <= i < |ssTables| ==> Sorted(ssTables[i].records)
      modifies Caches(ssTables)
      ensures TablesValid(ssTables, pageSize) && lists == SelectEach(TableRecords(ssTables), range)
    {
      hide TablesValid, Select;
      lists := [];
      var i := 0;
      while i < |ssTables|
        invariant 0 <= i == |lists| <= |ssTables| && TablesValid(ssTables, pageSize)
        invariant forall k :: 0 <= k < i ==> lists[k] == Select(ssTables[k].records, range)
      {
        var list := ScanOne(ssTables, pageSize, i, range);
        lists := lists + [list];
        i := i + 1;
      }
    }

    /** Replaces all tables by one that holds what the strategy keeps of their merge. */
    method Compact(strategy: seq<Record> -> seq<Record>)
      requires Valid() && Thinning(strategy, pageSize)
      modifies this`ssTables, this`files, Caches(ssTables)
      ensures Valid() && fresh(Caches(ssTables))
      ensures exists merged :: Sorted(merged) && multiset(merged) == multiset(Flatten(old(Value()).tables))
                && Value() == CompactTree(old(Value()), strategy(merged))
                && (strategy(merged) == merged ==> Log(Value()) == old(Log(Value())))
      ensures Numbers() == TableNumbers.AfterCompact(old(Numbers()))
      ensures old(OnDisk()) ==> OnDisk()
    {
      hide TablesValid, Ok, Log, Sorted, AllFit, Thins, DiskHolds, Flatten;
      assert forall c :: c in Caches(ssTables) ==> c as object != this;
      var merged := MergeTables();
      InstallTable(merged, strategy(merged));
    }

    /** Reads all tables, merged. */
    method MergeTables() returns (merged: seq<Record>)
      requires Valid()
      modifies Caches(ssTables)
      ensures Valid() && Sorted(merged) && multiset(merged) == multiset(Flatten(Value().tables))
      ensures AllFit(merged, pageSize)
    {
      hide TablesValid, Ok, Log, Sorted, AllFit, Select;
      ghost var t := Value();
      LevelsSortedWhenOk(t, pageSize);
      var lists := ScanTables(FULL_SCAN);
      SelectEachAll(t.tables);
      merged := Merge(lists);
      MergedFits(t, merged, pageSize);
    }

    /** The table written from the merge takes the place of all tables. */
    method InstallTable(ghost merged: seq<Record>, out: seq<Record>)
      requires Valid() && Sorted(merged) && multiset(merged) == multiset(Flatten(Value().tables))
      requires Thins(merged, out) && AllFit(out, pageSize)
      modifies this`ssTables, this`files
      ensures Valid() && fresh(Caches(ssTables)) && Value() == CompactTree(old(Value()), out)
      ensures out == merged ==> Log(Value()) == old(Log(Value()))
      ensures Numbers() == TableNumbers.AfterCompact(old(Numbers()))
      ensures old(OnDisk()) ==> OnDisk()
    {
      hide TablesValid, Ok, Log, Sorted, AllFit, MaxSeq, TableFile, SSTable.Valid, Thins, DiskHolds, Select;
      ghost var t := Value();
      CompactKeeps(t, merged, out, pageSize);
      MergedFits(t, merged, pageSize);
      ThinsShorter(merged, out);
      ReplaceTables(out);
      assert Value() == CompactTree(t, out);
    }

    /** Writes one new table, makes it the only one and removes the old files. */
    method ReplaceTables(out: seq<Record>)
      requires pageSize <= MAX_INT64 && AllFit(out, pageSize) && |out| <= MAX_INT64
      modifies this`ssTables, this`files
      ensures TablesValid(ssTables, pageSize) && TableRecords(ssTables) == [out] && fresh(Caches(ssTables))
      ensures forall t :: t in ssTables ==> t.crc == crc
      ensures Numbers() == TableNumbers.AfterCompact(old(Numbers()))
      ensures old(OnDisk()) ==> OnDisk()
    {
      hide TablesValid, AllFit, MaxSeq, TableFile, SSTable.Valid, DiskHolds;
      var newNo := if ssTables == [] then 0 else ssTables[|ssTables| - 1].fileNo + 1;
      var toDelete := ssTables;
      var table := WriteTable(out, newNo);
      OneTable(table, pageSize);
      ssTables := [table];
      RemoveFiles(toDelete);
      assert TableRecords(ssTables) == [out] && FileNos(ssTables) == [newNo];
      if old(OnDisk()) { DiskCompacts(toDelete, old(files), table); }
    }

    method RemoveFiles(tables: seq<SSTable>)
      modifies this`files
      ensures files == old(files) - (set x | x in FileNos(tables))
    {
      var i := 0;
      assert files == files - {};
      while i < |tables|
        invariant 0 <= i <= |tables|
        invariant files == old(files) - (set x | x in FileNos(tables)[..i])
      {
        files := files - {tables[i].fileNo};
        assert FileNos(tables)[..i + 1] == FileNos(tables)[..i] + [tables[i].fileNo];
        i := i + 1;
      }
      assert FileNos(tables)[..i] == FileNos(tables);
    }
  }

  /** What the tree asks of a compaction strategy. */
  ghost predicate Thinning(strategy: seq<Record> -> seq<Record>, pageSize: nat) {
    forall rs :: Sorted(rs) && AllFit(rs, pageSize) ==> Thins(rs, strategy(rs)) && AllFit(strategy(rs), pageSize)
  }

  lemma {:induction false} ThinsShorter(rs: seq<Record>, out: seq<Record>)
    requires Thins(rs, out)
    ensures |out| <= |rs|
  {
    if out != [] {
      if Thins(rs[1..], out) { ThinsShorter(rs[1..], out); } else { ThinsShorter(rs[1..], out[1..]); }
    }
  }

  lemma SelectEachAll(levels: seq<seq<Record>>)
    ensures SelectEach(levels, FULL_SCAN) == levels
  {
    forall i | 0 <= i < |levels| ensures SelectEach(levels, FULL_SCAN)[i] == levels[i] { SelectAll(levels[i]); }
  }

  lemma ContentsAreFew(t: Tree, pageSize: nat)
    requires Ok(t, pageSize)
    ensures |Contents(t)| <= MAX_INT64
  {
    hide Flatten, Chronicle;
    OkBounds(t, pageSize);
    ChronologyIsShort(Log(t), t.next);
    SameLength(Log(t), Contents(t));
  }

  lemma MergedFits(t: Tree, merged: seq<Record>, pageSize: nat)
    requires Ok(t, pageSize) && multiset(merged) == multiset(Flatten(t.tables))
    ensures AllFit(merged, pageSize) && |merged| <= MAX_INT64
  {
    hide Flatten, RecordFits;
    ContentsSplit(t);
    ContentsAreFew(t, pageSize);
    SameLength(merged, Flatten(t.tables));
    forall r | r in merged ensures r in Contents(t) { assert r in multiset(merged); }
  }

  lemma OneTable(table: SSTable, pageSize: nat)
    requires table.Valid() && table.header.pageSize == pageSize
    ensures TablesValid([table], pageSize) && Caches([table]) == {table.cache}
  {
    hide SSTable.Valid;
  }

  /** The lists that the range iterator merges hold the selected records of the tree. */
  lemma RangeLists(t: Tree, range: Range, mem: seq<Record>, ro: seq<seq<Record>>, ss: seq<seq<Record>>)
    requires mem == Select(t.mem, range) && ro == SelectEach(t.frozen, range) && ss == SelectEach(t.tables, range)
    ensures multiset(Flatten([mem] + ro + ss)) == multiset(Select(Contents(t), range))
  {
    hide Flatten, Select;
    FlattenSelectEach(AllLevels(t), range);
    assert SelectEach(AllLevels(t), range) == ss + ro + [mem];
    FlattenConcat([mem] + ro, ss);
    FlattenConcat([mem], ro);
    FlattenConcat(ss + ro, [mem]);
    FlattenConcat(ss, ro);
  }

  lemma ListSorted(t: Tree, range: Range, mem: seq<Record>, ro: seq<seq<Record>>, ss: seq<seq<Record>>, i: nat)
    requires mem == Select(t.mem, range) && ro == SelectEach(t.frozen, range) && ss == SelectEach(t.tables, range)
    requires Ordered(AllLevels(t)) && i < |[mem] + ro + ss|
    ensures Sorted(([mem] + ro + ss)[i])
  {
    hide Select, Sorted;
    var all := AllLevels(t);
    if i == 0 {
      SelectSorted(all[|all| - 1], range);
    } else if i <= |ro| {
      assert ([mem] + ro + ss)[i] == ro[i - 1] && all[|t.tables| + i - 1] == t.frozen[i - 1];
      SelectSorted(t.frozen[i - 1], range);
    } else {
      var k := i - 1 - |ro|;
      assert ([mem] + ro + ss)[i] == ss[k] && all[k] == t.tables[k];
      SelectSorted(t.tables[k], range);
    }
  }

  method ScanFrozen(frozen: seq<seq<Record>>, range: Range) returns (lists: seq<seq<Record>>)
    requires forall i :: 0 <= i < |frozen| ==> Sorted(frozen[i])
    ensures lists == SelectEach(frozen, range)
  {
    hide Select, Sorted;
    lists := [];
    var i := 0;
    while i < |frozen|
      invariant 0 <= i == |lists| <= |frozen|
      invariant forall k :: 0 <= k < i ==> lists[k] == Select(frozen[k], range)
    {
      var list := ScanMem(frozen[i], range);
      lists := lists + [list];
      i := i + 1;
    }
  }

  lemma TakeOne<T>(out: seq<T>, before: seq<T>, r: T, after: seq<T>)
    requires before == [r] + after
    ensures out + before == out + [r] + after
  {}

  /** LsmKeyIterator: the active mem table, then the frozen ones, then the tables,
      newest first. `current` is what the current level still has to return. */
  class LsmKeyIterator {
    const lsm: Lsm
    const key: Bytes
    var roMemTableIdx: int
    var ssTableIdx: int
    var current: Option<seq<Record>>

    ghost predicate Placed()
      reads this, lsm, Caches(lsm.ssTables)
    {
      lsm.Valid() && -1 <= roMemTableIdx < |lsm.roMemTables| && -1 <= ssTableIdx < |lsm.ssTables|
    }

    /** The levels not opened yet, oldest first. */
    ghost function Unopened(): seq<seq<Record>>
      requires Placed()
      reads this, lsm, Caches(lsm.ssTables)
    {
      TableRecords(lsm.ssTables)[..ssTableIdx + 1] + lsm.roMemTables[..roMemTableIdx + 1]
    }

    ghost function Later(): seq<Record>
      requires Placed()
      reads this, lsm, Caches(lsm.ssTables)
    {
      KeyWalk(Unopened(), key)
    }

    ghost function Remaining(): seq<Record>
      requires Placed()
      reads this, lsm, Caches(lsm.ssTables)
    {
      if current.None? then [] else current.value + Later()
    }

    ghost predicate Valid()
      reads this, lsm, Caches(lsm.ssTables)
    {
      && Placed() && (roMemTableIdx >= 0 ==> ssTableIdx == |lsm.ssTables| - 1)
      && (current.Some? ==> current.value != [])
    }

    constructor (lsm: Lsm, key: Bytes, current: seq<Record>)
      ensures this.lsm == lsm && this.key == key && this.current == Some(current)
      ensures roMemTableIdx == |lsm.roMemTables| - 1 && ssTableIdx == |lsm.ssTables| - 1
    {
      this.lsm, this.key, this.current := lsm, key, Some(current);
      roMemTableIdx := |lsm.roMemTables| - 1;
      ssTableIdx := |lsm.ssTables| - 1;
    }

    static method Create(lsm: Lsm, key: Bytes) returns (result: LsmKeyIterator)
      requires lsm.Valid()
      modifies Caches(lsm.ssTables)
      ensures fresh(result) && result.lsm == lsm && result.key == key && result.Valid()
      ensures result.Remaining() == KeyWalk(AllLevels(lsm.Value()), key)
    {
      hide TablesValid, UniqueSeqs, Flatten, Select, Sorted;
      ghost var all := AllLevels(lsm.Value());
      assert all[|all| - 1] == lsm.memTable;
      var mem := ScanMem(lsm.memTable, KeyRange(key));
      result := new LsmKeyIterator(lsm, key, mem);
      assert result.Unopened() == all[..|all| - 1];
      result.Advance();
    }

    predicate HasMore()
      reads this
    {
      current.Some? && current.value != []
    }

    method Next() returns (r: Record)
      requires Valid() && HasMore()
      modifies this, Caches(lsm.ssTables)
      ensures Valid() && old(Remaining()) == [r] + Remaining()
    {
      hide TablesValid, Ok, KeyWalk;
      r := current.value[0];
      assert current.value == [r] + current.value[1..];
      ghost var later := Later();
      current := Some(current.value[1..]);
      assert [r] + (current.value + later) == [r] + current.value + later;
      Advance();
    }

    method Drain() returns (out: seq<Record>)
      requires Valid()
      modifies this, Caches(lsm.ssTables)
      ensures Valid() && lsm.Valid() && out == old(Remaining())
    {
      hide Lsm.Valid, LsmKeyIterator.Remaining;
      ghost var all := Remaining();
      assert forall c :: c in Caches(lsm.ssTables) ==> c as object != lsm && c as object != this;
      out := [];
      while HasMore()
        invariant lsm.ssTables == old(lsm.ssTables)
        invariant Valid() && out + Remaining() == all
        decreases |Remaining()|
      {
        ghost var before := Remaining();
        var r := Next();
        TakeOne(out, before, r, Remaining());
        out := out + [r];
      }
      NothingRemains();
    }

    lemma NothingRemains()
      requires Valid() && !HasMore()
      ensures Remaining() == []
    {}

    method Advance()
      requires Placed() && (roMemTableIdx >= 0 ==> ssTableIdx == |lsm.ssTables| - 1)
      modifies this, Caches(lsm.ssTables)
      ensures Valid() && Remaining() == old(Remaining())
    {
      hide TablesValid, Ok, KeyWalk;
      while current.Some? && current.value == []
        invariant Placed() && (roMemTableIdx >= 0 ==> ssTableIdx == |lsm.ssTables| - 1)
        invariant Remaining() == old(Remaining())
        decreases roMemTableIdx + ssTableIdx + 2, current.Some?
      {
        assert Remaining() == Later();
        var next := GetNextIterator();
        current := next;
      }
    }

    method GetNextIterator() returns (r: Option<seq<Record>>)
      requires Placed() && (roMemTableIdx >= 0 ==> ssTableIdx == |lsm.ssTables| - 1)
      modifies this`roMemTableIdx, this`ssTableIdx, Caches(lsm.ssTables)
      ensures Placed() && (roMemTableIdx >= 0 ==> ssTableIdx == |lsm.ssTables| - 1)
      ensures r.Some? ==> old(Later()) == r.value + Later()
      ensures r.Some? ==> roMemTableIdx + ssTableIdx < old(roMemTableIdx + ssTableIdx)
      ensures r.None? ==> old(Later()) == []
      ensures r.None? ==> roMemTableIdx == old(roMemTableIdx) && ssTableIdx == old(ssTableIdx)
    {
      hide TablesValid, UniqueSeqs, Flatten, Select, Sorted;
      ghost var levels, all := Unopened(), AllLevels(lsm.Value());
      if roMemTableIdx >= 0 {
        assert all[|lsm.ssTables| + roMemTableIdx] == lsm.roMemTables[roMemTableIdx];
        assert levels[|levels| - 1] == lsm.roMemTables[roMemTableIdx];
        var list := ScanMem(lsm.roMemTables[roMemTableIdx], KeyRange(key));
        roMemTableIdx := roMemTableIdx - 1;
        assert Unopened() == levels[..|levels| - 1];
        return Some(list);
      }
      if ssTableIdx >= 0 {
        assert all[ssTableIdx] == lsm.ssTables[ssTableIdx].records == levels[|levels| - 1];
        var list := ScanOne(lsm.ssTables, lsm.pageSize, ssTableIdx, KeyRange(key));
        ssTableIdx := ssTableIdx - 1;
        assert Unopened() == levels[..|levels| - 1];
        return Some(list);
      }
      return None;
    }
  }

  lemma NextIsPositive(t: Tree, pageSize: nat)
    requires Ok(t, pageSize)
    ensures t.next >= 1
  {}

  lemma LevelsSorted(t: Tree)
    requires Ordered(AllLevels(t))
    ensures Sorted(t.mem)
    ensures forall i :: 0 <= i < |t.frozen| ==> Sorted(t.frozen[i])
    ensures forall i :: 0 <= i < |t.tables| ==> Sorted(t.tables[i])
  {
    hide Sorted;
    var all := AllLevels(t);
    assert all[|all| - 1] == t.mem;
    forall i | 0 <= i < |t.frozen| ensures Sorted(t.frozen[i]) { assert all[|t.tables| + i] == t.frozen[i]; }
    forall i | 0 <= i < |t.tables| ensures Sorted(t.tables[i]) { assert all[i] == t.tables[i]; }
  }

  lemma LevelsSortedWhenOk(t: Tree, pageSize: nat)
    requires Ok(t, pageSize)
    ensures forall i :: 0 <= i < |t.tables| ==> Sorted(t.tables[i])
  {
    LevelsSorted(t);
  }

  lemma VersionsWalk(t: Tree, key: Bytes, pageSize: nat)
    requires Ok(t, pageSize)
    ensures KeyWalk(AllLevels(t), key) == Versions(Log(t), key)
    ensures LastValue(Log(t), key)
         == if KeyWalk(AllLevels(t), key) == [] then None else Some(KeyWalk(AllLevels(t), key)[0].value)
  {
    OkBounds(t, pageSize);
    KeyWalkIsVersions(AllLevels(t), Log(t), key);
  }

  lemma EmptyOk(pageSize: nat)
    ensures Ok(Tree([], [], [], 1, 0), pageSize)
  {
    var t := Tree([], [], [], 1, 0);
    assert AllLevels(t) == [[]];
    assert Flatten<Record>([[]]) == [];
  }

  lemma FrontFits(t: Tree, pageSize: nat)
    requires Ok(t, pageSize) && t.frozen != []
    ensures AllFit(t.frozen[0], pageSize) && |t.frozen[0]| <= MAX_INT64
  {
    hide Flatten, Chronicle;
    ContentsAreFew(t, pageSize);
    ContentsSplit(t);
    FlattenFirst(t.frozen);
  }

  lemma AddTable(tables: seq<SSTable>, table: SSTable, pageSize: nat)
    requires TablesValid(tables, pageSize) && table.Valid() && table.header.pageSize == pageSize
    requires table.cache !in Caches(tables)
    ensures TablesValid(tables + [table], pageSize)
    ensures Caches(tables + [table]) == Caches(tables) + {table.cache}
  {
    hide SSTable.Valid;
  }
}
