/** A tree on files is a storage of module Recovery: the same entries, the same persisted
    prefix, and the same replay. */
module StorageRecovery {
  import opened ByteStrings
  import opened Sequences
  import opened Records
  import opened Levels
  import opened SSTables
  import opened Trees
  import opened Lsm
  import opened LsmRuns
  import opened FileNames
  import opened WalEvents
  import Recovery

  /** Sequence numbers 1, 2, 3, ... without gaps: what upserts alone produce. */
  ghost predicate Dense(log: seq<Record>) {
    forall i :: 0 <= i < |log| ==> log[i].seqNo == i + 1
  }

  function Entries(log: seq<Record>): (es: seq<Recovery.Entry>)
    ensures |es| == |log| && forall i :: 0 <= i < |es| ==> es[i] == Recovery.Entry(log[i].key, log[i].value)
  {
    seq(|log|, i requires 0 <= i < |log| => Recovery.Entry(log[i].key, log[i].value))
  }

  ghost predicate Represents(t: Tree, s: Recovery.Storage) {
    && Dense(Log(t)) && t.next == |Log(t)| + 1 && MaxTables(t.tables) == t.persisted
    && s.entries == Entries(Log(t)) && s.persisted == t.persisted
  }

  lemma EmptyRepresents()
    ensures Represents(Tree([], [], [], 1, 0), Recovery.Storage([], 0))
  {
    var t := Tree([], [], [], 1, 0);
    assert AllLevels(t) == [[]];
    assert Flatten<Record>([[]]) == [];
    assert Log(t) == [];
  }

  lemma PutRepresents(t: Tree, s: Recovery.Storage, key: Bytes, value: Bytes, maxRecords: nat, pageSize: nat)
    requires Ok(t, pageSize) && t.next <= MAX_INT64 && RecordFits(Record(key, t.next, value), pageSize)
    requires Represents(t, s)
    ensures Represents(PutTree(t, key, value, maxRecords),
                       Recovery.Storage(Recovery.PutEntry(s.entries, t.next, Recovery.Entry(key, value)), s.persisted))
  {
    hide Log, Insert, Ok, RecordFits;
    PutKeeps(t, key, value, maxRecords, pageSize);
    var r := Record(key, t.next, value);
    assert Entries(Log(t) + [r]) == Entries(Log(t)) + [Recovery.Entry(key, value)];
  }

  /** A flush is a growth of the persisted prefix, within the entries. */
  lemma FlushRepresents(t: Tree, s: Recovery.Storage, pageSize: nat)
    requires Ok(t, pageSize) && t.frozen != [] && Represents(t, s)
    ensures Represents(FlushOne(t), s.(persisted := FlushOne(t).persisted))
    ensures s.persisted <= FlushOne(t).persisted <= |s.entries|
  {
    hide Log, Ok, MaxSeq, Flatten;
    FlushKeeps(t, pageSize);
    MaxTablesStep(t.tables + [t.frozen[0]], |t.tables|);
    assert (t.tables + [t.frozen[0]])[..|t.tables| + 1] == t.tables + [t.frozen[0]];
    assert (t.tables + [t.frozen[0]])[..|t.tables|] == t.tables;
    PersistedBelowNext(FlushOne(t), pageSize);
  }

  /** The whole flush loop, likewise. */
  lemma {:induction false} FlushAllRepresents(t: Tree, s: Recovery.Storage, pageSize: nat) returns (p: nat)
    requires Ok(t, pageSize) && Represents(t, s) && s.persisted <= |s.entries|
    ensures p == FlushAll(t).persisted && s.persisted <= p <= |s.entries|
    ensures Represents(FlushAll(t), s.(persisted := p))
    decreases |t.frozen|
  {
    hide Ok, Represents, Log, MaxSeq;
    if t.frozen == [] {
      p := s.persisted;
      SamePersisted(t, s);
    } else {
      FlushKeeps(t, pageSize);
      FlushRepresents(t, s, pageSize);
      p := FlushAllRepresents(FlushOne(t), s.(persisted := FlushOne(t).persisted), pageSize);
    }
  }

  lemma SamePersisted(t: Tree, s: Recovery.Storage)
    requires Represents(t, s)
    ensures s.persisted == t.persisted
  {}

  lemma PersistedBelowNext(t: Tree, pageSize: nat)
    requires Ok(t, pageSize)
    ensures 0 <= t.persisted < t.next
  {}

  /** Opening the table files gives the persisted prefix of the storage. */
  lemma OpenRepresents(t: Tree, s: Recovery.Storage, pageSize: nat)
    requires Ok(t, pageSize) && Represents(t, s)
    ensures Represents(OpenTree(t.tables), Recovery.Storage(s.entries[..s.persisted], s.persisted))
    ensures s.persisted <= |s.entries|
  {
    hide Chronicle, Flatten, MaxSeq;
    OpenKeeps(t, pageSize);
    var low, high := Chronicle(Flatten(t.tables)), Chronicle(Flatten(t.frozen + [t.mem]));
    assert |low| == t.persisted by { LowLength(t, pageSize); }
    assert low == Log(t)[..t.persisted];
    assert Entries(low) == Entries(Log(t))[..t.persisted];
    assert forall i :: 0 <= i < |low| ==> low[i] == Log(t)[i];
  }

  lemma LowLength(t: Tree, pageSize: nat)
    requires Ok(t, pageSize) && Dense(Log(t)) && MaxTables(t.tables) == t.persisted
    requires Log(t) == Chronicle(Flatten(t.tables)) + Chronicle(Flatten(t.frozen + [t.mem]))
    ensures |Chronicle(Flatten(t.tables))| == t.persisted
  {
    hide Chronicle, Flatten, MaxSeq, UniqueSeqs, Ordered;
    var low := Chronicle(Flatten(t.tables));
    MaxTablesIsMax(t.tables);
    MaxSeqIsMax(Flatten(t.tables));
    if low != [] {
      var last := low[|low| - 1];
      assert last in multiset(low);
      assert last in Flatten(t.tables) && last == Log(t)[|low| - 1];
    }
    if t.persisted > 0 {
      var r :| r in Flatten(t.tables) && r.seqNo == t.persisted;
      assert r in multiset(low);
      var i :| 0 <= i < |low| && low[i] == r;
      assert Log(t)[i] == r;
    }
  }

  /** RecoverFromLog for every event of a log, in order. */
  method RecoverFromLog(lsm: Lsm, id: Bytes, events: seq<Event>, ghost s: Recovery.Storage)
    requires lsm.Valid() && Represents(lsm.Value(), s) && lsm.nextSeqNo + |events| <= MAX_INT64
    requires forall e :: e in events && e.Upsert? && e.storage == id ==> RecordFits(Record(e.key, e.seqNo, e.value), lsm.pageSize)
    modifies lsm`memTable, lsm`roMemTables, lsm`nextSeqNo
    ensures lsm.Valid() && lsm.ssTables == old(lsm.ssTables) && lsm.files == old(lsm.files)
    ensures Represents(lsm.Value(), Recovery.Storage(Recovery.Replay(id, s.entries, events), s.persisted))
  {
    hide Ok, Log, RecordFits, TablesValid, Represents, Recovery.PutEntry, Insert;
    var i := 0;
    ghost var entries := s.entries;
    assert events[0..] == events;
    while i < |events|
      invariant 0 <= i <= |events| && lsm.Valid() && lsm.nextSeqNo <= old(lsm.nextSeqNo) + i
      invariant Represents(lsm.Value(), Recovery.Storage(entries, s.persisted))
      invariant Recovery.Replay(id, entries, events[i..]) == Recovery.Replay(id, s.entries, events)
    {
      var e := events[i];
      assert e in events && events[i..][0] == e && events[i..][1..] == events[i + 1..];
      if e.Upsert? && e.storage == id {
        NextNumber(lsm.Value(), Recovery.Storage(entries, s.persisted));
        ghost var t := lsm.Value();
        var applied := lsm.PutAt(e.seqNo, e.key, e.value);
        ReplayPut(t, entries, e, s.persisted, applied, lsm.maxRecords, lsm.pageSize);
        entries := Recovery.PutEntry(entries, e.seqNo, Recovery.Entry(e.key, e.value));
      }
      i := i + 1;
    }
  }

  lemma NextNumber(t: Tree, s: Recovery.Storage)
    requires Represents(t, s)
    ensures t.next == |s.entries| + 1
  {}

  lemma ReplayPut(t: Tree, entries: seq<Recovery.Entry>, e: Event, persisted: nat, applied: bool, maxRecords: nat, pageSize: nat)
    requires Ok(t, pageSize) && t.next <= MAX_INT64 && Represents(t, Recovery.Storage(entries, persisted))
    requires e.Upsert? && RecordFits(Record(e.key, e.seqNo, e.value), pageSize) && applied == (e.seqNo == t.next)
    ensures Represents(if applied then PutTree(t, e.key, e.value, maxRecords) else t,
                       Recovery.Storage(Recovery.PutEntry(entries, e.seqNo, Recovery.Entry(e.key, e.value)), persisted))
  {
    if applied { PutRepresents(t, Recovery.Storage(entries, persisted), e.key, e.value, maxRecords, pageSize); }
  }

  /** A crash loses the mem tables; opening the files and replaying the log brings back the
      whole log of the tree, provided the log still holds what no file has. */
  method CrashAndRecover(before: Lsm, id: Bytes, events: seq<Event>, ghost s: Recovery.Storage) returns (after: Lsm)
    requires before.Valid() && before.OnDisk() && FourDigits(before.files.Keys) && Represents(before.Value(), s)
    requires Recovery.Recoverable(id, s, events) && before.nextSeqNo + |events| <= MAX_INT64
    requires forall e :: e in events && e.Upsert? && e.storage == id ==> RecordFits(Record(e.key, e.seqNo, e.value), before.pageSize)
    ensures fresh(after) && after.Valid() && after.OnDisk() && (before.Consecutive() ==> after.Consecutive())
    ensures Represents(after.Value(), s) && after.nextSeqNo == before.nextSeqNo && after.pageSize == before.pageSize
  {
    hide Lsm.Valid, Ok, Log, RecordFits, TablesValid, Represents, Recovery.Recoverable, Recovery.Replay, MaxTables, DiskHolds;
    ValidOk(before);
    OpenRepresents(before.Value(), s, before.pageSize);
    NextNumber(before.Value(), s);
    after := Restart(before);
    ghost var start := Recovery.Storage(s.entries[..s.persisted], s.persisted);
    NextNumber(after.Value(), start);
    RecoverFromLog(after, id, events, start);
    RecoverableReplays(id, s, events);
    NextNumber(after.Value(), s);
  }

  lemma ValidOk(lsm: Lsm)
    requires lsm.Valid()
    ensures Ok(lsm.Value(), lsm.pageSize)
  {}

  lemma RecoverableReplays(id: Bytes, s: Recovery.Storage, events: seq<Event>)
    requires Recovery.Recoverable(id, s, events)
    ensures s.persisted <= |s.entries| && Recovery.Replay(id, s.entries[..s.persisted], events) == s.entries
  {
    Recovery.ReplayRebuilds(id, s.entries, s.persisted, s.persisted, events);
  }
}
