/** One transaction's view of a table: the operations on the tree and the transaction storage. */
module TransactionalTables {
  import opened ByteStrings
  import opened Buffers
  import opened Records
  import opened Sequences
  import opened Levels
  import opened Trees
  import opened SSTables
  import opened TxValues
  import opened FirstPerKey
  import opened TxStorage
  import opened TxTables
  import opened TxPasses
  import TxRuns
  import LsmRuns
  import opened Lsm

  /** The rows a scan hands out: key and user value. */
  function RowsOf(rs: seq<Record>): (rows: seq<(Bytes, Bytes)>)
    ensures |rows| == |rs| && forall i :: 0 <= i < |rs| ==> rows[i] == (rs[i].key, Val(rs[i]).value)
  {
    seq(|rs|, i requires 0 <= i < |rs| => (rs[i].key, Val(rs[i]).value))
  }

  /** The loop of Lookup over the versions of a key; `statuses[i]` is the transaction table at the
      moment version `i` is judged. */
  method FindVersion(records: seq<Record>, statuses: seq<Statuses>, tx: int) returns (r: Result<Option<Bytes>>)
    requires |statuses| == |records|
    ensures r.Success? ==> r.value == ValueOf(AnswerOver(records, statuses, tx))
    ensures WellFormed(records) ==> r.Success?
  {
    hide Parse;
    var i := 0;
    assert records[0..] == records && statuses[0..] == statuses;
    while i < |records|
      invariant 0 <= i <= |records| && AnswerOver(records, statuses, tx) == AnswerOver(records[i..], statuses[i..], tx)
    {
      var parsed := Parse(records[i].value);
      if parsed.Failure? {
        assert records[i] in records;
        return Failure(parsed.fault);
      }
      var candidate := parsed.value;
      assert records[i..][0] == records[i] && statuses[i..][0] == statuses[i];
      assert records[i..][1..] == records[i + 1..] && statuses[i..][1..] == statuses[i + 1..];
      if candidate.frozen || candidate.tx == tx || IsCommitted(statuses[i], candidate.tx) {
        return Success(if candidate.deleted then None else Some(candidate.value));
      }
      i := i + 1;
    }
    return Success(None);
  }

  /** The loop of Scan over the merged records of a range; `statuses[i]` is the transaction table
      at the moment record `i` is judged. */
  method ListRows(records: seq<Record>, statuses: seq<Statuses>, tx: int) returns (r: Result<seq<(Bytes, Bytes)>>)
    requires |statuses| == |records|
    ensures r.Success? ==> r.value == RowsOf(ScanOver(records, statuses, tx, None))
    ensures r.Success? <==> WellFormed(records)
  {
    hide Parse;
    var result: seq<(Bytes, Bytes)> := [];
    ghost var taken: seq<Record> := [];
    var i := 0;
    assert records[0..] == records && statuses[0..] == statuses;
    while i < |records|
      invariant 0 <= i <= |records| && result == RowsOf(taken)
      invariant forall k :: 0 <= k < i ==> Parse(records[k].value).Success?
      invariant ScanOver(records, statuses, tx, None) == taken + ScanOver(records[i..], statuses[i..], tx, LastKey(taken))
    {
      var record := records[i];
      var parsed := Parse(record.value);
      if parsed.Failure? {
        assert records[i] in records;
        return Failure(parsed.fault);
      }
      var candidate := parsed.value;
      assert records[i..][0] == record && records[i..][1..] == records[i + 1..];
      assert statuses[i..][0] == statuses[i] && statuses[i..][1..] == statuses[i + 1..];
      if candidate.tx == tx || IsCommitted(statuses[i], candidate.tx) {
        if !candidate.deleted && !(result != [] && result[|result| - 1].0 == record.key) {
          TakeOne(taken, record, ScanOver(records[i + 1..], statuses[i + 1..], tx, Some(record.key)));
          result := result + [(record.key, candidate.value)];
          taken := taken + [record];
        }
      }
      i := i + 1;
    }
    assert records[i..] == [] && taken + [] == taken;
    return Success(result);
  }

  function LastKey(taken: seq<Record>): Option<Bytes> {
    if taken == [] then None else Some(taken[|taken| - 1].key)
  }

  lemma TakeOne(taken: seq<Record>, x: Record, rest: seq<Record>)
    ensures taken + ([x] + rest) == taken + [x] + rest
    ensures RowsOf(taken + [x]) == RowsOf(taken) + [(x.key, Val(x).value)]
  {}

  /** A row as tables see it: the sequence number stays behind in the iterator. */
  datatype Row = Row(key: Bytes, value: Bytes)

  /** Hands out rows and remembers the sequence number of the last one. */
  class LsmEngineIterator {
    const records: seq<Record>
    var position: nat
    var lastSeqNo: Int64

    ghost predicate Valid()
      reads this
    {
      position <= |records| && (position > 0 ==> lastSeqNo == records[position - 1].seqNo)
    }

    constructor (records: seq<Record>)
      ensures this.records == records && position == 0 && Valid()
    {
      this.records, position, lastSeqNo := records, 0, 0;
    }

    predicate HasMore()
      reads this
    {
      position < |records|
    }

    method Next() returns (row: Row)
      requires Valid() && HasMore()
      modifies this
      ensures Valid() && position == old(position) + 1
      ensures Record(row.key, lastSeqNo, row.value) == records[old(position)]
    {
      var record := records[position];
      lastSeqNo, position := record.seqNo, position + 1;
      row := Row(record.key, record.value);
    }
  }

  /** Gives every row written the number of the row last read from the input. */
  class LsmOutputIterator {
    const input: LsmEngineIterator
    var written: seq<Record>

    constructor (input: LsmEngineIterator)
      ensures this.input == input && written == []
    {
      this.input, written := input, [];
    }

    method Write(row: Row)
      modifies this
      ensures written == old(written) + [Record(row.key, input.lastSeqNo, row.value)]
    {
      written := written + [Record(row.key, input.lastSeqNo, row.value)];
    }
  }

  /** CompactRows: the loop of the compaction strategy; `statuses[i]` is the transaction table at the
      moment row `i` is judged. Although rows carry no number, every row written has its own. */
  method CompactRows(input: LsmEngineIterator, output: LsmOutputIterator, statuses: seq<Statuses>)
    returns (fault: Option<Fault>)
    requires |statuses| == |input.records| && input.Valid() && input.position == 0 && output.input == input && output.written == []
    modifies input, output
    ensures fault == None ==> output.written == CompactOver(input.records, statuses, None)
    ensures fault == None ==> forall x :: x in output.written ==>
              exists i :: 0 <= i < |statuses| && WrittenFor(x, input.records[i], statuses[i])
    ensures fault == None <==> WellFormed(input.records)
  {
    hide Parse, Encode, WrittenFor;
    ghost var records := input.records;
    var lastAdded: Option<Row> := None;
    assert records[0..] == records && statuses[0..] == statuses;
    while input.HasMore()
      invariant input.Valid()
      invariant forall k :: 0 <= k < input.position ==> Parse(records[k].value).Success?
      invariant CompactOver(records, statuses, None)
             == output.written + CompactOver(records[input.position..], statuses[input.position..], AddedKey(lastAdded))
      decreases |records| - input.position
    {
      ghost var i := input.position;
      var status := statuses[input.position];
      assert records[i] in records && records[i..][0] == records[i] && records[i..][1..] == records[i + 1..];
      assert statuses[i..][0] == status && statuses[i..][1..] == statuses[i + 1..];
      var row := input.Next();
      var parsed := Parse(row.value);
      if parsed.Failure? { return Some(parsed.fault); }
      var value := parsed.value;
      if value.deleted { continue; }
      if !IsCommitted(status, value.tx) && !IsStarted(status, value.tx) { continue; }
      if IsCommitted(status, value.tx) && !value.frozen {
        row := row.(value := Encode(value.(frozen := true)));
      }
      if lastAdded == None || lastAdded.value.key != row.key {
        TakeOne(output.written, Rewrite(status, records[i]), CompactOver(records[i + 1..], statuses[i + 1..], Some(row.key)));
        output.Write(row);
        lastAdded := Some(row);
      }
    }
    assert records[input.position..] == [] && output.written + [] == output.written;
    CompactOverWrites(records, statuses, None);
    return None;
  }

  function AddedKey(last: Option<Row>): Option<Bytes> {
    if last == None then None else Some(last.value.key)
  }

  /** LsmEngineCompactStrategy: the strategy of the table as a strategy of the tree. */
  method CompactRecords(records: seq<Record>, statuses: seq<Statuses>) returns (r: Result<seq<Record>>)
    requires |statuses| == |records|
    ensures r.Success? ==> r.value == CompactOver(records, statuses, None)
    ensures r.Success? <==> WellFormed(records)
  {
    hide CompactOver, WellFormed;
    var input := new LsmEngineIterator(records);
    var output := new LsmOutputIterator(input);
    var fault := CompactRows(input, output, statuses);
    return if fault == None then Success(output.written) else Failure(fault.value);
  }

  /** The strategy drops rows and rewrites values, and nothing else. */
  lemma StrategyKeeps(rs: seq<Record>, status: Statuses, pageSize: nat)
    requires AllFit(rs, pageSize)
    ensures Thins(rs, CompactIn(rs, status)) && AllFit(CompactIn(rs, status), pageSize)
  {
    hide OnePerKey, Thins, AllFit;
    OnePerKeyThins(rs, status, Keeps(status), None);
    CompactFits(rs, status, pageSize);
  }

  lemma TablesWellFormed(t: Tree, merged: seq<Record>)
    requires multiset(merged) == multiset(Flatten(t.tables))
    ensures WellFormed(Contents(t)) ==> WellFormed(merged)
  {
    hide Flatten, Parse;
    ContentsSplit(t);
    forall r | r in merged ensures r in Contents(t) {
      assert r in multiset(Flatten(t.tables));
    }
  }

  lemma RangeWellFormed(t: Tree, range: Range, rs: seq<Record>)
    requires multiset(rs) == multiset(Select(Contents(t), range))
    ensures WellFormed(Contents(t)) ==> WellFormed(rs)
  {
    hide Contents, Parse;
    forall r | r in rs ensures r in Contents(t) {
      assert r in multiset(Select(Contents(t), range));
    }
  }

  // ----- a scan against lookups

  /** The value a list of rows has for a key. */
  function ValueAt(rows: seq<(Bytes, Bytes)>, key: Bytes): Option<Bytes> {
    if rows == [] then None else if rows[0].0 == key then Some(rows[0].1) else ValueAt(rows[1..], key)
  }

  lemma {:induction false} ValueAtRows(rs: seq<Record>, key: Bytes)
    ensures var mine := Select(rs, KeyRange(key));
            ValueAt(RowsOf(rs), key) == if mine == [] then None else Some(Val(mine[0]).value)
  {
    hide Val;
    if rs != [] {
      InKeyRange(key, rs[0].key);
      ValueAtRows(rs[1..], key);
      assert RowsOf(rs)[1..] == RowsOf(rs[1..]);
    }
  }

  /** What a range scan reads of a key are its versions. */
  lemma RangeHoldsVersions(t: Tree, range: Range, rs: seq<Record>, key: Bytes, pageSize: nat)
    requires Ok(t, pageSize) && Sorted(rs) && multiset(rs) == multiset(Select(Contents(t), range)) && InRange(range, key)
    ensures Select(rs, KeyRange(key)) == Versions(Log(t), key)
  {
    hide Ok, Sorted, Contents, Select, Log, Versions;
    SelectSorted(rs, KeyRange(key));
    forall x ensures multiset(Select(rs, KeyRange(key)))[x] == multiset(Select(Contents(t), KeyRange(key)))[x] {
      InKeyRange(key, x.key);
      SelectCounts(rs, KeyRange(key), x);
      SelectCounts(Contents(t), range, x);
      SelectCounts(Contents(t), KeyRange(key), x);
    }
    LsmRuns.KeyScanIsRangeScan(t, key, pageSize, Select(rs, KeyRange(key)));
  }

  /** The reader's own or committed, and not a tombstone. */
  ghost predicate LiveFor(r: Record, status: Statuses, tx: int) {
    (Val(r).tx == tx || (Val(r).tx in status && status[Val(r).tx] == Committed)) && !Val(r).deleted
  }

  /** The newest live version of a key that is not below the lower and not above the upper bound. */
  ghost predicate Shown(r: Record, rs: seq<Record>, range: Range, status: Statuses, tx: int) {
    && r in rs && LiveFor(r, status, tx)
    && (range.lower.None? || !Less(r.key, range.lower.value)) && (range.upper.None? || !Less(range.upper.value, r.key))
    && forall x :: x in rs && x.key == r.key && LiveFor(x, status, tx) ==> x.seqNo <= r.seqNo
  }

  /** Keys ascend, the rows are exactly the newest live versions of the keys within the bounds, and
      for each such key they agree with Lookup as far as can be. */
  ghost predicate ScanAgrees(rows: seq<(Bytes, Bytes)>, t: Tree, range: Range, status: Statuses, tx: int) {
    && (forall i, j :: 0 <= i < j < |rows| ==> Less(rows[i].0, rows[j].0))
    && (forall row :: row in rows <==> exists r :: Shown(r, Contents(t), range, status, tx) && row == (r.key, Val(r).value))
    && (FrozenAreCommitted(Contents(t), status) ==>
          forall key :: (range.lower.None? || !Less(key, range.lower.value)) && (range.upper.None? || !Less(range.upper.value, key)) ==>
            KeyAgrees(rows, t, key, status, tx))
  }

  /** The scan shows what Lookup returns exactly when no tombstone hides an older version. */
  ghost predicate KeyAgrees(rows: seq<(Bytes, Bytes)>, t: Tree, key: Bytes, status: Statuses, tx: int) {
    ValueAt(rows, key) == LookupIn(Versions(Log(t), key), status, tx)
    <==> !HiddenByTombstone(Versions(Log(t), key), status, tx)
  }

  lemma KeyAgreement(t: Tree, range: Range, rs: seq<Record>, key: Bytes, status: Statuses, tx: int, pageSize: nat)
    requires Ok(t, pageSize) && Sorted(rs) && multiset(rs) == multiset(Select(Contents(t), range)) && InRange(range, key)
    requires FrozenAreCommitted(rs, status)
    ensures KeyAgrees(RowsOf(ScanIn(rs, status, tx)), t, key, status, tx)
  {
    hide Ok, Sorted, Contents, Select, Log, Versions, OnePerKey, RowsOf, ValueAt, Val, FirstIndex;
    var listed, versions := ScanIn(rs, status, tx), Versions(Log(t), key);
    RangeHoldsVersions(t, range, rs, key, pageSize);
    ValueAtRows(listed, key);
    PassIsFirst(rs, key, Lists(status, tx));
    assert forall r :: r in versions ==> r in rs;
    FirstListed(versions, status, tx);
  }

  lemma ListedIsLive(status: Statuses, tx: int)
    ensures forall r :: Lists(status, tx)(r) == LiveFor(r, status, tx)
  {
    hide Val;
  }

  lemma UniqueInTree(t: Tree, pageSize: nat, x: Record, y: Record)
    requires Ok(t, pageSize) && x in Contents(t) && y in Contents(t) && x.seqNo == y.seqNo
    ensures x == y
  {
    hide Ok, Contents, Log;
    OkBounds(t, pageSize);
    assert x in multiset(Contents(t)) && y in multiset(Contents(t));
    assert x in Log(t) && y in Log(t);
    TxRuns.SameSeqSame(Log(t), x, y);
  }

  lemma RowsShown(t: Tree, range: Range, rs: seq<Record>, status: Statuses, tx: int, pageSize: nat, r: Record)
    requires Ok(t, pageSize) && Sorted(rs) && multiset(rs) == multiset(Select(Contents(t), range))
    ensures r in ScanIn(rs, status, tx) <==> Shown(r, Contents(t), range, status, tx)
  {
    hide Ok, Sorted, Contents, Val, Less, InRange, Select, OnePerKey, LiveFor, Lists;
    InRangeExactly(range, r.key);
    forall x: Record ensures x in rs <==> x in Contents(t) && InRange(range, x.key) {
      assert x in rs <==> x in multiset(rs);
      assert x in multiset(Select(Contents(t), range)) <==> x in Select(Contents(t), range);
    }
    forall x: Record, y: Record | x in rs && y in rs && x.seqNo == y.seqNo ensures x == y { UniqueInTree(t, pageSize, x, y); }
    ListedIsLive(status, tx);
    PassIsNewest(rs, Lists(status, tx), r);
  }

  lemma ScanAgreement(t: Tree, range: Range, rs: seq<Record>, status: Statuses, tx: int, pageSize: nat)
    requires Ok(t, pageSize) && Sorted(rs) && multiset(rs) == multiset(Select(Contents(t), range))
    ensures ScanAgrees(RowsOf(ScanIn(rs, status, tx)), t, range, status, tx)
  {
    hide Ok, Sorted, Contents, OnePerKey, KeyAgrees, Val, Less, InRange, Shown;
    var listed := ScanIn(rs, status, tx);
    var rows := RowsOf(listed);
    OnePerKeyAscends(rs, Lists(status, tx), None);
    forall r: Record { RowsShown(t, range, rs, status, tx, pageSize, r); }
    forall row ensures row in rows <==> exists r :: Shown(r, Contents(t), range, status, tx) && row == (r.key, Val(r).value) {
      RowMember(listed, row);
    }
    if FrozenAreCommitted(Contents(t), status) {
      assert forall r :: r in rs ==> r in multiset(Select(Contents(t), range));
      assert FrozenAreCommitted(rs, status);
      forall key | InRange(range, key) ensures KeyAgrees(rows, t, key, status, tx) {
        KeyAgreement(t, range, rs, key, status, tx, pageSize);
      }
      forall key { InRangeExactly(range, key); }
    }
  }

  lemma RowMember(rs: seq<Record>, row: (Bytes, Bytes))
    ensures row in RowsOf(rs) <==> exists r :: r in rs && row == (r.key, Val(r).value)
  {
    hide Val;
    if r :| r in rs && row == (r.key, Val(r).value) {
      var i :| 0 <= i < |rs| && rs[i] == r;
      assert RowsOf(rs)[i] == row;
    }
    if row in RowsOf(rs) {
      var i :| 0 <= i < |RowsOf(rs)| && RowsOf(rs)[i] == row;
      assert rs[i] in rs;
    }
  }

  /** The new table holds exactly the newest kept version of each key; those of committed
      transactions are found by any reader even when the transaction table is empty, as it is when
      the log that recorded the commits has been cleaned and the process starts again. */
  lemma CompactedTables(t: Tree, merged: seq<Record>, status: Statuses, pageSize: nat)
    requires Ok(t, pageSize) && Sorted(merged) && multiset(merged) == multiset(Flatten(t.tables)) && WellFormed(merged)
    ensures var u := CompactTree(t, CompactIn(merged, status));
            && CompactionOf(Flatten(t.tables), Flatten(u.tables), status)
            && forall r, reader ::
                 NewestKept(r, Flatten(t.tables), status) && Val(r).tx in status && status[Val(r).tx] == Committed ==>
                   Answer(KeyWalk(u.tables, r.key), map[], reader) == Some((r.seqNo, Val(r).value))
  {
    hide Ok, Sorted, Flatten, WellFormed, CompactIn, KeyWalk, Answer, Val, CompactionOf, NewestKept, Contents;
    var out := CompactIn(merged, status);
    var tables := Flatten(t.tables);
    forall x: Record ensures x in merged <==> x in tables { assert x in merged <==> x in multiset(merged); }
    ContentsSplit(t);
    forall x: Record, y: Record | x in merged && y in merged && x.seqNo == y.seqNo ensures x == y {
      UniqueInTree(t, pageSize, x, y);
    }
    TxRuns.OneFlat(out);
    CompactInWrites(merged, status);
    SameRecords(merged, tables, out, status);
    forall r, reader | NewestKept(r, tables, status) && Val(r).tx in status && status[Val(r).tx] == Committed
      ensures Answer(KeyWalk([out], r.key), map[], reader) == Some((r.seqNo, Val(r).value))
    {
      OneLevelWalk(out, r.key);
      KeptIsFound(merged, status, r, reader);
    }
  }

  /** After a compaction each reader's answers are as before exactly where nothing was disturbed. */
  ghost predicate CompactedExactly(t: Tree, u: Tree, merged: seq<Record>, status: Statuses) {
    forall key, reader ::
      Answer(Versions(Log(u), key), status, reader) == Answer(Versions(Log(t), key), status, reader)
      <==> Undisturbed(t, merged, status, reader, key)
  }

  lemma CompactExactly(t: Tree, merged: seq<Record>, status: Statuses, pageSize: nat)
    requires Ok(t, pageSize) && Sorted(merged) && multiset(merged) == multiset(Flatten(t.tables))
    requires WellFormed(merged) && Ok(CompactTree(t, CompactIn(merged, status)), pageSize)
    ensures CompactedExactly(t, CompactTree(t, CompactIn(merged, status)), merged, status)
  {
    hide Ok, Sorted, Flatten, Log, Versions, KeyWalk, Answer, Undisturbed, OnePerKey;
    var u := CompactTree(t, CompactIn(merged, status));
    forall key, reader: int
      ensures Answer(Versions(Log(u), key), status, reader) == Answer(Versions(Log(t), key), status, reader)
              <==> Undisturbed(t, merged, status, reader, key)
    {
      CompactTreeExactly(t, merged, status, reader, key, pageSize);
      VersionsWalk(t, key, pageSize);
      VersionsWalk(u, key, pageSize);
    }
  }

  /** What an Upsert or Delete came to: written, asleep on the row lock, or nothing to delete. */
  datatype Outcome = Written(seqNo: Int64) | Waiting | Missing

  /** The writer, and once it has committed everybody, reads the new version; the others read
      what they read before. */
  ghost predicate SeenBy(status: Statuses, reader: int, tx: int, before: seq<Record>, after: seq<Record>, key: Bytes,
                         version: Option<(Int64, Bytes)>)
  {
    Answer(Versions(after, key), status, reader)
    == if reader == tx || IsCommitted(status, tx) then version else Answer(Versions(before, key), status, reader)
  }

  lemma ValidBounds(lsm: Lsm)
    requires lsm.Valid()
    ensures lsm.pageSize <= MAX_INT64 && lsm.nextSeqNo >= 1 && Ok(lsm.Value(), lsm.pageSize)
  {}

  lemma FitsShort(tx: Int64, key: Bytes, value: Bytes, seqNo: Int64, pageSize: nat)
    requires RecordFits(TxRuns.Version(TxRuns.Write(tx, key, false, value), seqNo), pageSize) && pageSize <= MAX_INT64
    ensures |value| <= MAX_INT64
  {}

  class TransactionalTable {
    const lsm: Lsm
    const storage: Storage
    const tx: Int64

    constructor (lsm: Lsm, storage: Storage, tx: Int64)
      ensures this.lsm == lsm && this.storage == storage && this.tx == tx
    {
      this.lsm, this.storage, this.tx := lsm, storage, tx;
    }

    /** The newest version that is this transaction's own, committed or frozen. */
    method Lookup(key: Bytes) returns (r: Result<Option<Bytes>>)
      requires lsm.Valid()
      modifies Caches(lsm.ssTables)
      ensures lsm.Valid()
      ensures r.Success? ==> r.value == LookupIn(Versions(Log(lsm.Value()), key), storage.txStatus, tx)
      ensures WellFormed(Versions(Log(lsm.Value()), key)) ==> r.Success?
    {
      hide Lsm.Valid, Log, Versions, Answer, AnswerOver;
      var records := lsm.ScanKey(key);
      var status := storage.txStatus;
      var statuses := seq(|records|, _ => status);
      OverIsAnswer(records, statuses, status, tx);
      r := FindVersion(records, statuses, tx);
    }

    /** One attempt to lock the row and, with the lock, the new version. */
    method Write(id: nat, key: Bytes, deleted: bool, value: Bytes) returns (r: Outcome)
      requires lsm.Valid() && storage.Valid() && id in storage.phase
      requires storage.phase[id].Idle? || storage.phase[id] == Woken(tx, key)
      requires lsm.nextSeqNo <= MAX_INT64
      requires RecordFits(TxRuns.Version(TxRuns.Write(tx, key, deleted, value), lsm.nextSeqNo), lsm.pageSize)
      modifies lsm`memTable, lsm`roMemTables, lsm`nextSeqNo
      modifies storage`rowLocks, storage`txLocks, storage`waiters, storage`phase
      ensures lsm.Valid() && storage.Valid() && storage.Value() == TryAcquire(old(storage.Value()), id, tx, key)
      ensures r.Waiting? <==> key in old(storage.rowLocks)
      ensures r.Waiting? ==> lsm.Value() == old(lsm.Value())
      ensures !r.Waiting? ==> r == Written(old(lsm.nextSeqNo))
      ensures r.Written? ==>
                Log(lsm.Value()) == old(Log(lsm.Value())) + [TxRuns.Version(TxRuns.Write(tx, key, deleted, value), r.seqNo)]
    {
      hide Lsm.Valid, Inv, Log, RecordFits, TryAcquire, Encode, PutTree;
      ValidBounds(lsm);
      assert forall c :: c in Caches(lsm.ssTables) ==> c as object != storage;
      var acquired := storage.Attempt(id, tx, key);
      if !acquired { return Waiting; }
      var seqNo := lsm.Put(key, Encode(TxValue(tx, deleted, false, value)));
      return Written(seqNo);
    }

    method Upsert(id: nat, key: Bytes, value: Bytes) returns (r: Outcome)
      requires lsm.Valid() && storage.Valid() && id in storage.phase
      requires storage.phase[id].Idle? || storage.phase[id] == Woken(tx, key)
      requires lsm.nextSeqNo <= MAX_INT64
      requires RecordFits(TxRuns.Version(TxRuns.Write(tx, key, false, value), lsm.nextSeqNo), lsm.pageSize)
      modifies lsm`memTable, lsm`roMemTables, lsm`nextSeqNo
      modifies storage`rowLocks, storage`txLocks, storage`waiters, storage`phase
      ensures lsm.Valid() && storage.Valid() && storage.Value() == TryAcquire(old(storage.Value()), id, tx, key)
      ensures r.Waiting? <==> key in old(storage.rowLocks)
      ensures r.Waiting? ==> lsm.Value() == old(lsm.Value())
      ensures r.Written? ==> forall status, reader ::
                SeenBy(status, reader, tx, old(Log(lsm.Value())), Log(lsm.Value()), key, Some((r.seqNo, value)))
    {
      hide Lsm.Valid, Inv, Log, RecordFits, TryAcquire, Encode, PutTree, Answer, Versions, TxRuns.Version;
      ValidBounds(lsm);
      FitsShort(tx, key, value, lsm.nextSeqNo, lsm.pageSize);
      r := Write(id, key, false, value);
      if r.Written? {
        forall status, reader
          ensures SeenBy(status, reader, tx, old(Log(lsm.Value())), Log(lsm.Value()), key, Some((r.seqNo, value)))
        {
          TxRuns.WriteIsPrivate(old(Log(lsm.Value())), TxRuns.Write(tx, key, false, value), r.seqNo, status, reader);
        }
      }
    }

    /** A tombstone, if this transaction sees a value. The first attempt looks the key up; a
        coroutine woken later only retries the lock. */
    method Delete(id: nat, key: Bytes) returns (r: Result<Outcome>)
      requires lsm.Valid() && storage.Valid() && id in storage.phase && storage.phase[id].Idle?
      requires lsm.nextSeqNo <= MAX_INT64
      requires RecordFits(TxRuns.Version(TxRuns.Write(tx, key, true, []), lsm.nextSeqNo), lsm.pageSize)
      modifies lsm`memTable, lsm`roMemTables, lsm`nextSeqNo, Caches(lsm.ssTables)
      modifies storage`rowLocks, storage`txLocks, storage`waiters, storage`phase
      ensures lsm.Valid() && storage.Valid()
      ensures WellFormed(old(Versions(Log(lsm.Value()), key))) ==> r.Success?
      ensures r.Success? ==>
                (r.value.Missing? <==> old(LookupIn(Versions(Log(lsm.Value()), key), storage.txStatus, tx)) == None)
      ensures r.Success? && !r.value.Written? ==> lsm.Value() == old(lsm.Value())
      ensures r.Success? && r.value.Written? ==>
                LookupIn(Versions(Log(lsm.Value()), key), storage.txStatus, tx) == None
    {
      hide Lsm.Valid, Inv, Log, RecordFits, TryAcquire, Encode, PutTree, Answer, Versions, TxRuns.Version;
      var found := Lookup(key);
      if found.Failure? { return Failure(found.fault); }
      if found.value == None { return Success(Missing); }
      ghost var log := Log(lsm.Value());
      var w := Write(id, key, true, []);
      if w.Written? {
        TxRuns.WriteIsPrivate(log, TxRuns.Write(tx, key, true, []), w.seqNo, storage.txStatus, tx);
      }
      return Success(w);
    }

    /** The keys of the range in ascending order, each with what Lookup returns for it, unless
        Lookup stops at a tombstone above a version that the scan still lists. */
    method Scan(range: Range) returns (r: Result<seq<(Bytes, Bytes)>>)
      requires lsm.Valid()
      modifies Caches(lsm.ssTables)
      ensures lsm.Valid()
      ensures r.Success? ==> ScanAgrees(r.value, lsm.Value(), range, storage.txStatus, tx)
      ensures WellFormed(Contents(lsm.Value())) ==> r.Success?
    {
      hide Lsm.Valid, Contents, Select, ScanIn, RowsOf, Sorted, WellFormed, ScanAgrees;
      var records := lsm.ScanRange(range);
      ValidBounds(lsm);
      RangeWellFormed(lsm.Value(), range, records);
      ScanAgreement(lsm.Value(), range, records, storage.txStatus, tx, lsm.pageSize);
      var status := storage.txStatus;
      ScanAtOnce(records, status, tx);
      r := ListRows(records, seq(|records|, _ => status), tx);
    }

    /** Compacts the tree with the strategy of transactional tables. A row that does not parse
        stops the compaction before anything is replaced. */
    method Compact() returns (fault: Option<Fault>)
      requires lsm.Valid()
      modifies lsm`ssTables, lsm`files, Caches(lsm.ssTables)
      ensures lsm.Valid() && (fault.Some? ==> lsm.Value() == old(lsm.Value()))
      ensures WellFormed(old(Contents(lsm.Value()))) ==> fault == None
      ensures fault == None ==>
                exists merged :: Sorted(merged) && multiset(merged) == multiset(Flatten(old(lsm.Value()).tables))
                  && lsm.Value() == CompactTree(old(lsm.Value()), CompactIn(merged, storage.txStatus))
                  && CompactedExactly(old(lsm.Value()), lsm.Value(), merged, storage.txStatus)
      ensures fault == None ==>
                CompactionOf(Flatten(old(lsm.Value()).tables), Flatten(lsm.Value().tables), storage.txStatus)
      ensures fault == None ==> forall r, reader ::
                NewestKept(r, Flatten(old(lsm.Value()).tables), storage.txStatus)
                && Val(r).tx in storage.txStatus && storage.txStatus[Val(r).tx] == Committed ==>
                  Answer(KeyWalk(lsm.Value().tables, r.key), map[], reader) == Some((r.seqNo, Val(r).value))
    {
      hide Lsm.Valid, Sorted, Flatten, WellFormed, CompactedExactly, CompactIn, CompactOver, CompactionOf, NewestKept, Ok,
           TablesValid, AllFit, Thins, Contents, KeyWalk, Answer, Val;
      ghost var t := lsm.Value();
      var status := storage.txStatus;
      assert forall c :: c in Caches(lsm.ssTables) ==> c as object != lsm;
      ValidBounds(lsm);
      var merged := lsm.MergeTables();
      TablesWellFormed(t, merged);
      CompactAtOnce(merged, status);
      var out := CompactRecords(merged, seq(|merged|, _ => status));
      if out.Failure? { return Some(out.fault); }
      StrategyKeeps(merged, status, lsm.pageSize);
      lsm.InstallTable(merged, out.value);
      ValidBounds(lsm);
      CompactExactly(t, merged, status, lsm.pageSize);
      CompactedTables(t, merged, status, lsm.pageSize);
      return None;
    }
  }
}
