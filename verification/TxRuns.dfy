/** All runs of one process: transactions that begin, lock, write, commit and roll back in any
    interleaving, with compactions in between. */
module TxRuns {
  import opened ByteStrings
  import opened Buffers
  import opened Records
  import opened Sequences
  import opened Levels
  import opened Trees
  import opened TxValues
  import opened FirstPerKey
  import opened TxStorage
  import opened TxTables

  /** An Upsert or Delete under way. */
  datatype Write = Write(tx: Int64, key: Bytes, deleted: bool, value: Bytes)

  /** `wants` are the writes under way; those past the wait for their row have taken their
      sequence number, in `numbers`, and still have to reach the tree. */
  datatype State = State(
    next: int, status: Statuses, locks: Locks, wants: map<nat, Write>, numbers: map<nat, Int64>,
    log: seq<Record>, seqNo: int)

  /** A write asks for its row lock, perhaps several times. With the lock it takes the next
      sequence number at once; its record reaches the tree in a later step. A commit marks the
      transaction first and releases its locks later. */
  datatype Action =
    | Begin
    | Ask(id: nat, w: Write)
    | AskAgain(id: nat)
    | Put(id: nat)
    | MarkCommitted(tx: int)
    | ReleaseCommitted(tx: int)
    | Rollback(tx: int)
    | Compact(out: seq<Record>)

  function Version(w: Write, seqNo: Int64): Record {
    RowOf(w.key, seqNo, TxValue(w.tx, w.deleted, false, w.value))
  }

  /** `x` is `y`, perhaps frozen because its transaction committed. */
  predicate CopyOf(x: Record, y: Record, status: Statuses) {
    && x.key == y.key && x.seqNo == y.seqNo && Parse(x.value).Success?
    && Val(x).(frozen := false) == Val(y).(frozen := false)
    && (Val(x).frozen ==> Val(y).frozen || IsCommitted(status, Val(y).tx))
  }

  ghost predicate Compacted(log: seq<Record>, out: seq<Record>, status: Statuses) {
    Chronological(out) && forall x :: x in out ==> exists y :: y in log && CopyOf(x, y, status)
  }

  /** Clients use the transactions that Begin gave them and do not roll back a committed one. */
  ghost predicate Enabled(s: State, a: Action) {
    match a
    case Begin => true
    case Ask(id, w) => id in s.locks.phase && s.locks.phase[id].Idle? && id !in s.wants
                       && w.tx in s.status && |w.value| <= MAX_INT64 && 0 < s.seqNo <= MAX_INT64
    case AskAgain(id) => id in s.locks.phase && s.locks.phase[id].Woken? && id in s.wants && 0 < s.seqNo <= MAX_INT64
    case Put(id) => id in s.wants && id in s.numbers
    case MarkCommitted(tx) => tx in s.status
    case ReleaseCommitted(tx) => IsCommitted(s.status, tx)
    case Rollback(tx) => tx in s.status && !IsCommitted(s.status, tx)
    case Compact(out) => Compacted(s.log, out, s.status)
  }

  /** The lock, and with it the number, if the row is free; otherwise the coroutine sleeps. */
  function Asked(s: State, id: nat, w: Write): State
    requires 0 < s.seqNo <= MAX_INT64
  {
    var t := s.(locks := TryAcquire(s.locks, id, w.tx, w.key), wants := s.wants[id := w]);
    if w.key in s.locks.rowLocks then t else t.(numbers := s.numbers[id := s.seqNo], seqNo := s.seqNo + 1)
  }

  ghost function Apply(s: State, a: Action): State
    requires Enabled(s, a)
  {
    match a
    case Begin => s.(next := s.next + 1, status := s.status[s.next := Started])
    case Ask(id, w) => Asked(s, id, w)
    case AskAgain(id) => Asked(s, id, s.wants[id])
    case Put(id) => s.(log := InsertBySeq(s.log, Version(s.wants[id], s.numbers[id])),
                       wants := s.wants - {id}, numbers := s.numbers - {id})
    case MarkCommitted(tx) => s.(status := s.status[tx := Committed])
    case ReleaseCommitted(tx) => s.(locks := Release(s.locks, tx))
    case Rollback(tx) => s.(status := s.status[tx := RolledBack], locks := Release(s.locks, tx))
    case Compact(out) => s.(log := out)
  }

  predicate Holds(m: Locks, row: Bytes, tx: int) { row in m.rowLocks && m.rowLocks[row] == tx }

  /** Coroutines sleep or retry for exactly the row of the write they carry, and have a number
      exactly when they need not wait any more. */
  ghost predicate WaitsOk(s: State) {
    && (forall id :: id in s.wants ==> id in s.locks.phase && s.wants[id].tx in s.status && |s.wants[id].value| <= MAX_INT64)
    && (forall id :: id in s.locks.phase && !s.locks.phase[id].Idle? ==>
          id in s.wants && s.locks.phase[id].tx == s.wants[id].tx && s.locks.phase[id].row == s.wants[id].key)
    && (forall id :: id in s.numbers <==> id in s.wants && s.locks.phase[id].Idle?)
  }

  /** A write with a number, by a transaction still running, holds its row. */
  ghost predicate WritersHold(s: State) {
    forall id :: id in s.numbers && id in s.wants && IsStarted(s.status, s.wants[id].tx) ==>
      Holds(s.locks, s.wants[id].key, s.wants[id].tx)
  }

  /** A version of a transaction still running has its row locked by that transaction. */
  ghost predicate VersionsHold(s: State) {
    forall r :: r in s.log && IsStarted(s.status, Val(r).tx) ==> Holds(s.locks, r.key, Val(r).tx)
  }

  ghost predicate LogOk(s: State) {
    && Chronological(s.log) && WellFormed(s.log) && FrozenAreCommitted(s.log, s.status)
    && 0 < s.seqNo && forall r :: r in s.log ==> r.seqNo < s.seqNo && Val(r).tx in s.status
  }

  /** Every number is given out once. */
  ghost predicate NumbersOk(s: State) {
    && (forall id :: id in s.numbers ==> s.numbers[id] < s.seqNo)
    && (forall id, r :: id in s.numbers && r in s.log ==> r.seqNo != s.numbers[id])
    && (forall i, j :: i in s.numbers && j in s.numbers && i != j ==> s.numbers[i] != s.numbers[j])
  }

  /** The version of a running transaction has the largest number of its row in the tree ... */
  ghost predicate RunningIsNewest(s: State) {
    forall r, x :: r in s.log && x in s.log && r.key == x.key && IsStarted(s.status, Val(r).tx) ==> x.seqNo <= r.seqNo
  }

  /** ... and a larger one than any write of the row under way. */
  ghost predicate RunningIsAbove(s: State) {
    forall r, id :: r in s.log && id in s.numbers && id in s.wants && s.wants[id].key == r.key ==>
      IsStarted(s.status, Val(r).tx) ==> s.numbers[id] < r.seqNo
  }

  /** The write of a running transaction has the largest number of its row. */
  ghost predicate WriterIsAbove(s: State, id: nat)
    requires id in s.numbers && id in s.wants
  {
    && (forall x :: x in s.log && x.key == s.wants[id].key ==> x.seqNo < s.numbers[id])
    && (forall j :: j in s.numbers && j in s.wants && j != id && s.wants[j].key == s.wants[id].key ==>
          s.numbers[j] < s.numbers[id])
  }

  ghost predicate WritersAreAbove(s: State) {
    forall id :: id in s.numbers && id in s.wants && IsStarted(s.status, s.wants[id].tx) ==> WriterIsAbove(s, id)
  }

  ghost predicate RowOrder(s: State) { RunningIsNewest(s) && RunningIsAbove(s) && WritersAreAbove(s) }

  ghost predicate RunInv(s: State) {
    && Inv(s.locks) && WaitsOk(s) && WritersHold(s) && VersionsHold(s) && LogOk(s) && NumbersOk(s) && RowOrder(s)
    && forall tx :: tx in s.status ==> tx < s.next
  }

  // ----- Begin and changes of status

  /** Nothing but the statuses changes, and nobody in the log or under way starts. */
  ghost predicate NobodyStarts(s: State, t: State) {
    && t.log == s.log && t.wants == s.wants && t.numbers == s.numbers && t.seqNo == s.seqNo
    && s.status.Keys <= t.status.Keys
    && forall tx :: tx in s.status && IsStarted(t.status, tx) ==> IsStarted(s.status, tx)
  }

  lemma OrderByStatus(s: State, t: State)
    requires WaitsOk(s) && LogOk(s) && RowOrder(s) && NobodyStarts(s, t)
    ensures RowOrder(t)
  {
    hide Inv, Parse, Val, Chronological, FrozenAreCommitted, IsStarted;
    forall id | id in t.numbers && id in t.wants && IsStarted(t.status, t.wants[id].tx) ensures WriterIsAbove(t, id) {
      assert WriterIsAbove(s, id);
    }
  }

  lemma BeginKeeps(s: State)
    requires RunInv(s)
    ensures RunInv(Apply(s, Begin))
  {
    hide Inv, Parse, Val, RowOrder;
    var t := Apply(s, Begin);
    assert forall tx :: tx in s.status ==> t.status[tx] == s.status[tx];
    OrderByStatus(s, t);
  }

  lemma MarkKeeps(s: State, tx: int)
    requires RunInv(s) && Enabled(s, MarkCommitted(tx))
    ensures RunInv(Apply(s, MarkCommitted(tx)))
  {
    hide Inv, Parse, Val, RowOrder;
    OrderByStatus(s, Apply(s, MarkCommitted(tx)));
  }

  lemma RollbackMarkKeeps(s: State, tx: int)
    requires RunInv(s) && Enabled(s, Rollback(tx))
    ensures RunInv(s.(status := s.status[tx := RolledBack]))
  {
    hide Inv, Parse, Val, RowOrder;
    OrderByStatus(s, s.(status := s.status[tx := RolledBack]));
  }

  // ----- locks

  /** Asking changes the locks only where the row was free. */
  lemma AskedLocks(m: Locks, id: nat, tx: int, row: Bytes)
    requires Inv(m) && id in m.phase && !m.phase[id].Asleep?
    ensures var n := TryAcquire(m, id, tx, row);
            && Inv(n) && n.phase.Keys == m.phase.Keys
            && (forall r, t :: Holds(m, r, t) ==> Holds(n, r, t))
            && (forall i :: i in m.phase && i != id ==> n.phase[i] == m.phase[i])
            && (n.phase[id].Idle? <==> row !in m.rowLocks)
            && (n.phase[id].Idle? ==> Holds(n, row, tx))
            && (!n.phase[id].Idle? ==> n.phase[id] == Asleep(tx, row))
  {
    AcquireKeeps(m, id, tx, row);
  }

  /** What Ask and AskAgain need: a coroutine that is not asleep and has no number yet. */
  ghost predicate MayAsk(s: State, id: nat, w: Write) {
    && id in s.locks.phase && !s.locks.phase[id].Asleep? && id !in s.numbers && (id in s.wants ==> s.wants[id] == w)
    && w.tx in s.status && |w.value| <= MAX_INT64 && 0 < s.seqNo <= MAX_INT64
  }

  lemma AskedWaits(s: State, id: nat, w: Write)
    requires Inv(s.locks) && WaitsOk(s) && MayAsk(s, id, w)
    ensures WaitsOk(Asked(s, id, w))
  {
    hide Inv, TryAcquire, Holds;
    AskedLocks(s.locks, id, w.tx, w.key);
  }

  lemma AskedHolds(s: State, id: nat, w: Write)
    requires Inv(s.locks) && WritersHold(s) && VersionsHold(s) && MayAsk(s, id, w)
    ensures Inv(Asked(s, id, w).locks) && WritersHold(Asked(s, id, w)) && VersionsHold(Asked(s, id, w))
  {
    hide Inv, Parse, Val, TryAcquire, Holds, IsStarted;
    AskedLocks(s.locks, id, w.tx, w.key);
  }

  /** A row that is free has neither a version nor a write of a running transaction. */
  lemma FreeRow(s: State, row: Bytes)
    requires RunInv(s) && row !in s.locks.rowLocks
    ensures forall r :: r in s.log && r.key == row ==> !IsStarted(s.status, Val(r).tx)
    ensures forall id :: id in s.numbers && id in s.wants && s.wants[id].key == row ==> !IsStarted(s.status, s.wants[id].tx)
  {
    hide Inv, Parse, Val, WaitsOk, LogOk, NumbersOk, RowOrder, IsStarted;
  }

  lemma AskedNumbers(s: State, id: nat, w: Write)
    requires LogOk(s) && NumbersOk(s) && MayAsk(s, id, w)
    ensures LogOk(Asked(s, id, w)) && NumbersOk(Asked(s, id, w))
  {
    hide Parse, Val, TryAcquire, Chronological, FrozenAreCommitted, WellFormed;
  }

  /** The new number is above every other, and the row has no running transaction to be above it. */
  lemma AskedOrder(s: State, id: nat, w: Write)
    requires RunInv(s) && MayAsk(s, id, w)
    ensures RowOrder(Asked(s, id, w))
  {
    var t := Asked(s, id, w);
    if w.key !in s.locks.rowLocks {
      FreeRow(s, w.key);
      GrantedOrder(s, id, w);
    } else {
      hide Inv, Parse, Val, TryAcquire, IsStarted, LogOk, NumbersOk, WaitsOk, WritersHold, VersionsHold;
      forall i | i in t.numbers && i in t.wants && IsStarted(t.status, t.wants[i].tx) ensures WriterIsAbove(t, i) {
        assert WriterIsAbove(s, i);
      }
    }
  }

  lemma GrantedOrder(s: State, id: nat, w: Write)
    requires LogOk(s) && NumbersOk(s) && RowOrder(s) && MayAsk(s, id, w) && w.key !in s.locks.rowLocks
    requires forall r :: r in s.log && r.key == w.key ==> !IsStarted(s.status, Val(r).tx)
    requires forall i :: i in s.numbers && i in s.wants && s.wants[i].key == w.key ==> !IsStarted(s.status, s.wants[i].tx)
    ensures RowOrder(Asked(s, id, w))
  {
    hide Parse, Val, TryAcquire, IsStarted, Chronological, FrozenAreCommitted, WellFormed;
    var t := Asked(s, id, w);
    forall i | i in t.numbers && i in t.wants && IsStarted(t.status, t.wants[i].tx) ensures WriterIsAbove(t, i) {
      if i != id { assert WriterIsAbove(s, i); }
    }
  }

  lemma AskedKeeps(s: State, id: nat, w: Write)
    requires RunInv(s) && MayAsk(s, id, w)
    ensures RunInv(Asked(s, id, w))
  {
    hide Inv, WaitsOk, WritersHold, VersionsHold, LogOk, NumbersOk, RowOrder, TryAcquire;
    AskedWaits(s, id, w);
    AskedHolds(s, id, w);
    AskedNumbers(s, id, w);
    AskedOrder(s, id, w);
  }

  /** A release by a transaction that is not running takes no lock from one that is. */
  lemma ReleasedLocks(m: Locks, tx: int)
    requires Inv(m)
    ensures var n := Release(m, tx);
            && Inv(n) && n.phase.Keys == m.phase.Keys
            && (forall r, t :: Holds(m, r, t) && t != tx ==> Holds(n, r, t))
            && (forall i :: i in m.phase ==> n.phase[i].Idle? == m.phase[i].Idle?)
            && (forall i :: i in m.phase && !m.phase[i].Idle? ==> n.phase[i].tx == m.phase[i].tx && n.phase[i].row == m.phase[i].row)
  {
    ReleaseKeeps(m, tx);
  }

  lemma ReleaseKeepsRun(s: State, tx: int)
    requires RunInv(s) && !IsStarted(s.status, tx)
    ensures RunInv(s.(locks := Release(s.locks, tx)))
  {
    ReleasedLocks(s.locks, tx);
    hide Inv, Parse, Val, Release, Holds, RowOrder, NumbersOk, LogOk;
    var t := s.(locks := Release(s.locks, tx));
    SameLog(s, t);
  }

  lemma SameLog(s: State, t: State)
    requires t == s.(locks := t.locks) && LogOk(s) && NumbersOk(s) && RowOrder(s)
    ensures LogOk(t) && NumbersOk(t) && RowOrder(t)
  {
    hide Parse, Val;
    forall id | id in t.numbers && id in t.wants && IsStarted(t.status, t.wants[id].tx) ensures WriterIsAbove(t, id) {
      assert WriterIsAbove(s, id);
    }
  }

  // ----- Put

  lemma InsertedMembers(log: seq<Record>, r: Record)
    ensures forall x :: x in InsertBySeq(log, r) <==> x == r || x in log
  {
    forall x ensures x in InsertBySeq(log, r) <==> x == r || x in log {
      assert x in InsertBySeq(log, r) <==> x in multiset(InsertBySeq(log, r));
    }
  }

  lemma PutLog(s: State, id: nat)
    requires RunInv(s) && Enabled(s, Put(id))
    ensures LogOk(Apply(s, Put(id))) && NumbersOk(Apply(s, Put(id)))
  {
    hide Inv, Parse, Encode, InsertBySeq, RowOrder, WritersHold, VersionsHold;
    var w, n := s.wants[id], s.numbers[id];
    var v := Version(w, n);
    RowHolds(w.key, n, TxValue(w.tx, w.deleted, false, w.value));
    InsertedMembers(s.log, v);
    InsertDistinct(s.log, v);
  }

  /** The new version lies below every running one, or its own transaction is running and it lies
      above everything. */
  lemma PutOrder(s: State, id: nat)
    requires RunInv(s) && Enabled(s, Put(id))
    ensures RowOrder(Apply(s, Put(id)))
  {
    hide Inv, Parse, Encode, InsertBySeq, IsStarted, LogOk, Val, RowOf;
    var w, n, t := s.wants[id], s.numbers[id], Apply(s, Put(id));
    var v := Version(w, n);
    PutVersion(w, n);
    InsertedMembers(s.log, v);
    assert IsStarted(s.status, w.tx) ==> WriterIsAbove(s, id);
    forall r | r in s.log && r.key == w.key && IsStarted(s.status, Val(r).tx) ensures n < r.seqNo {}
    forall i | i in t.numbers && i in t.wants && IsStarted(t.status, t.wants[i].tx) ensures WriterIsAbove(t, i) {
      assert WriterIsAbove(s, i);
    }
  }

  lemma PutVersion(w: Write, n: Int64)
    requires |w.value| <= MAX_INT64
    ensures var v := Version(w, n); v.key == w.key && v.seqNo == n && Val(v).tx == w.tx && !Val(v).frozen
  {
    RowHolds(w.key, n, TxValue(w.tx, w.deleted, false, w.value));
  }

  lemma PutHolds(s: State, id: nat)
    requires WaitsOk(s) && WritersHold(s) && VersionsHold(s) && Enabled(s, Put(id))
    ensures WritersHold(Apply(s, Put(id))) && VersionsHold(Apply(s, Put(id)))
  {
    hide Parse, Val, InsertBySeq, Holds, RowOf, IsStarted;
    PutVersion(s.wants[id], s.numbers[id]);
    InsertedMembers(s.log, Version(s.wants[id], s.numbers[id]));
  }

  lemma PutWaits(s: State, id: nat)
    requires WaitsOk(s) && Enabled(s, Put(id))
    ensures WaitsOk(Apply(s, Put(id)))
  {
    hide InsertBySeq, RowOf;
  }

  lemma PutKeepsRun(s: State, id: nat)
    requires RunInv(s) && Enabled(s, Put(id))
    ensures RunInv(Apply(s, Put(id)))
  {
    hide Inv, Parse, Val, LogOk, NumbersOk, RowOrder, InsertBySeq, RowOf, WritersHold, VersionsHold, WaitsOk;
    PutLog(s, id);
    PutOrder(s, id);
    PutHolds(s, id);
    PutWaits(s, id);
  }

  // ----- Compact

  lemma CompactedFrom(s: State, out: seq<Record>, x: Record) returns (y: Record)
    requires Enabled(s, Compact(out)) && x in out
    ensures y in s.log && y.key == x.key && y.seqNo == x.seqNo && Val(y).tx == Val(x).tx && Parse(x.value).Success?
    ensures Val(x).frozen ==> Val(y).frozen || IsCommitted(s.status, Val(y).tx)
  {
    hide Parse;
    y :| y in s.log && CopyOf(x, y, s.status);
    assert Val(x).tx == Val(x).(frozen := false).tx == Val(y).tx;
  }

  ghost predicate ComesFrom(log: seq<Record>, out: seq<Record>) {
    forall x :: x in out ==> exists y :: y in log && y.key == x.key && y.seqNo == x.seqNo && Val(y).tx == Val(x).tx
  }

  lemma CompactOrder(s: State, out: seq<Record>)
    requires RowOrder(s) && NumbersOk(s) && ComesFrom(s.log, out)
    ensures RowOrder(s.(log := out)) && NumbersOk(s.(log := out))
  {
    hide Val, Parse, IsStarted;
    var t := s.(log := out);
    forall id | id in t.numbers && id in t.wants && IsStarted(t.status, t.wants[id].tx) ensures WriterIsAbove(t, id) {
      assert WriterIsAbove(s, id);
    }
  }

  lemma CompactKeepsRun(s: State, out: seq<Record>)
    requires RunInv(s) && Enabled(s, Compact(out))
    ensures RunInv(Apply(s, Compact(out)))
  {
    hide Inv, Parse, RowOrder, NumbersOk, WaitsOk;
    forall x | x in out
      ensures Parse(x.value).Success? && x.seqNo < s.seqNo && Val(x).tx in s.status
      ensures Val(x).frozen ==> IsCommitted(s.status, Val(x).tx)
      ensures IsStarted(s.status, Val(x).tx) ==> Holds(s.locks, x.key, Val(x).tx)
      ensures exists y :: y in s.log && y.key == x.key && y.seqNo == x.seqNo && Val(y).tx == Val(x).tx
    {
      var y := CompactedFrom(s, out, x);
    }
    CompactOrder(s, out);
    SameWaits(s, Apply(s, Compact(out)));
  }

  lemma SameWaits(s: State, t: State)
    requires WaitsOk(s) && t == s.(log := t.log)
    ensures WaitsOk(t)
  {}

  // ----- all steps

  lemma ActionKeeps(s: State, a: Action)
    requires RunInv(s) && Enabled(s, a)
    ensures RunInv(Apply(s, a))
  {
    hide RunInv, Asked;
    match a
    case Begin => BeginKeeps(s);
    case Ask(id, w) =>
      MayAskNow(s, a);
      AskedKeeps(s, id, w);
    case AskAgain(id) =>
      MayAskNow(s, a);
      AskedKeeps(s, id, s.wants[id]);
    case Put(id) => PutKeepsRun(s, id);
    case MarkCommitted(tx) => MarkKeeps(s, tx);
    case ReleaseCommitted(tx) => ReleaseKeepsRun(s, tx);
    case Rollback(tx) =>
      RollbackMarkKeeps(s, tx);
      ReleaseKeepsRun(s.(status := s.status[tx := RolledBack]), tx);
    case Compact(out) => CompactKeepsRun(s, out);
  }

  lemma MayAskNow(s: State, a: Action)
    requires RunInv(s) && Enabled(s, a)
    ensures a.Ask? ==> MayAsk(s, a.id, a.w)
    ensures a.AskAgain? ==> MayAsk(s, a.id, s.wants[a.id])
  {
    hide Inv, Parse, Val, LogOk, NumbersOk, RowOrder, WritersHold, VersionsHold;
  }

  ghost predicate RunOf(s: State, actions: seq<Action>, end: State)
    decreases |actions|
  {
    if actions == [] then s == end else Enabled(s, actions[0]) && RunOf(Apply(s, actions[0]), actions[1..], end)
  }

  function Fresh(ids: set<nat>): State {
    State(INITIAL_TX, map[], Locks(map[], map[], [], map t | t in ids :: Idle), map[], map[], [], 1)
  }

  lemma FreshInv(ids: set<nat>)
    ensures RunInv(Fresh(ids))
  {}

  lemma {:induction false} RunKeepsInv(s: State, actions: seq<Action>, end: State)
    requires RunInv(s) && RunOf(s, actions, end)
    ensures RunInv(end)
    decreases |actions|
  {
    hide RunInv, Enabled, Apply;
    if actions != [] {
      ActionKeeps(s, actions[0]);
      RunKeepsInv(Apply(s, actions[0]), actions[1..], end);
    }
  }

  /** Two versions of a row by transactions still running are by the same one. */
  ghost predicate NoDirtyWrites(s: State) {
    forall r, x :: r in s.log && x in s.log && r.key == x.key ==>
      (IsStarted(s.status, Val(r).tx) && IsStarted(s.status, Val(x).tx) ==> Val(r).tx == Val(x).tx)
  }

  /** A version by the reader or a committed transaction, with nothing newer of that kind. */
  ghost predicate CleanVersion(s: State, reader: int, r: Record) {
    && r in s.log && (Val(r).tx == reader || IsCommitted(s.status, Val(r).tx))
    && (forall x :: x in s.log && x.key == r.key && x.seqNo > r.seqNo ==>
          Val(x).tx != reader && !IsCommitted(s.status, Val(x).tx))
  }

  /** A lookup returns a clean version, and nothing only if there is none or it is a tombstone. */
  ghost predicate NoDirtyReads(s: State, reader: int, key: Bytes) {
    var answer := Answer(Versions(s.log, key), s.status, reader);
    if answer.Some? then
      exists r :: CleanVersion(s, reader, r) && r.key == key && !Val(r).deleted && answer.value == (r.seqNo, Val(r).value)
    else
      forall r :: CleanVersion(s, reader, r) && r.key == key ==> Val(r).deleted
  }

  lemma {:induction false} VersionsAll(log: seq<Record>, key: Bytes)
    ensures forall r :: r in Versions(log, key) <==> r in log && r.key == key
  {
    if log != [] {
      VersionsAll(log[..|log| - 1], key);
      assert log == log[..|log| - 1] + [log[|log| - 1]];
    }
  }

  /** The clean version is the one that is seen first. */
  lemma FirstIsClean(s: State, reader: int, key: Bytes)
    requires RunInv(s)
    ensures var rs := Versions(s.log, key);
            var n := FirstIndex(rs, Sees(s.status, reader));
            && (n < |rs| ==> CleanVersion(s, reader, rs[n]) && rs[n].key == key)
            && (forall r :: CleanVersion(s, reader, r) && r.key == key ==> n < |rs| && rs[n] == r)
  {
    hide Inv, Parse, Val, FirstIndex, Versions, Chronological;
    var rs, sees := Versions(s.log, key), Sees(s.status, reader);
    VersionsNewestFirst(s.log, key);
    VersionsAll(s.log, key);
    FirstIsNewest(rs, key, sees);
    var n := FirstIndex(rs, sees);
    if n < |rs| {
      assert First(rs, sees) == [rs[n]] && sees(rs[n]) && rs[n] in rs;
      assert forall x :: x in s.log && x.key == key && x.seqNo > rs[n].seqNo ==> x in rs && !sees(x);
    }
    forall r | CleanVersion(s, reader, r) && r.key == key ensures n < |rs| && rs[n] == r {
      assert r in rs && sees(r);
      assert sees(rs[n]) && rs[n] in s.log && r.seqNo <= rs[n].seqNo;
      SameSeqSame(s.log, r, rs[n]);
    }
  }

  lemma SameSeqSame(log: seq<Record>, r: Record, x: Record)
    requires Chronological(log) && r in log && x in log && r.seqNo == x.seqNo
    ensures r == x
  {}

  lemma ReadsAreClean(s: State, reader: int, key: Bytes)
    requires RunInv(s)
    ensures NoDirtyReads(s, reader, key)
  {
    hide Inv, Parse, Val, FirstIndex, Versions, RunInv, CleanVersion;
    FirstIsClean(s, reader, key);
    var rs := Versions(s.log, key);
    var n := FirstIndex(rs, Sees(s.status, reader));
    if n < |rs| { assert First(rs, Sees(s.status, reader)) == [rs[n]]; }
  }

  /** In every run of one process life: versions of a transaction still running have their row
      locked by it and are the newest of their row, so two running transactions never both have a
      version of a row; a lookup returns a clean version; and frozen rows belong to committed
      transactions. */
  lemma EveryRunIsIsolated(ids: set<nat>, actions: seq<Action>, end: State, reader: int, key: Bytes)
    requires RunOf(Fresh(ids), actions, end)
    ensures VersionsHold(end) && NoDirtyWrites(end) && RunningIsNewest(end)
    ensures NoDirtyReads(end, reader, key) && FrozenAreCommitted(end.log, end.status)
  {
    hide NoDirtyReads, Parse, Inv, Val;
    FreshInv(ids);
    RunKeepsInv(Fresh(ids), actions, end);
    ReadsAreClean(end, reader, key);
  }

  // ----- what a Put writes over

  /** In every run the number of a write under way is below that of every running transaction's
      version of its row, whatever became of its own transaction meanwhile; and while its own
      transaction is running it is above everything else on the row. */
  lemma NoPutAboveRunning(ids: set<nat>, actions: seq<Action>, end: State, id: nat)
    requires RunOf(Fresh(ids), actions, end) && Enabled(end, Put(id))
    ensures forall r :: r in end.log && r.key == end.wants[id].key && IsStarted(end.status, Val(r).tx) ==>
              end.numbers[id] < r.seqNo && Val(r).tx != end.wants[id].tx
    ensures IsStarted(end.status, end.wants[id].tx) ==> WriterIsAbove(end, id)
  {
    hide Parse, Inv, Val, Chronological, Fresh, RunOf, WaitsOk, LogOk;
    FreshInv(ids);
    RunKeepsInv(Fresh(ids), actions, end);
    assert IsStarted(end.status, end.wants[id].tx) ==> WriterIsAbove(end, id);
  }

  /** In every run a lookup that is suspended between versions, while running transactions commit,
      answers as of the moment it judged the newest version. */
  lemma SuspendedLookup(ids: set<nat>, actions: seq<Action>, end: State, key: Bytes, statuses: seq<Statuses>, reader: int)
    requires RunOf(Fresh(ids), actions, end)
    requires |statuses| == |Versions(end.log, key)| > 0 && statuses[0] == end.status
    requires forall i :: 0 <= i < |statuses| ==> OnlyCommits(end.status, statuses[i])
    ensures AnswerOver(Versions(end.log, key), statuses, reader) == Answer(Versions(end.log, key), end.status, reader)
  {
    FreshInv(ids);
    RunKeepsInv(Fresh(ids), actions, end);
    OlderAreSettled(end, key);
    LookupOfAnInstant(Versions(end.log, key), statuses, reader);
  }

  lemma OlderAreSettled(s: State, key: Bytes)
    requires RunInv(s) && RunningIsNewest(s)
    ensures var rs := Versions(s.log, key); forall i :: 0 < i < |rs| ==> !IsStarted(s.status, Val(rs[i]).tx)
  {
    hide Inv, Parse, Val, WaitsOk, VersionsHold;
    var rs := Versions(s.log, key);
    VersionsNewestFirst(s.log, key);
    VersionsAll(s.log, key);
    VersionsDescend(s.log, key);
    forall i | 0 < i < |rs| ensures !IsStarted(s.status, Val(rs[i]).tx) {
      assert rs[0] in rs && rs[i] in rs && rs[i].seqNo < rs[0].seqNo;
    }
  }

  ghost predicate Descending(rs: seq<Record>) {
    forall i, j :: 0 <= i < j < |rs| ==> rs[j].seqNo < rs[i].seqNo
  }

  lemma DescendingCons(r: Record, rs: seq<Record>)
    requires Descending(rs) && forall x :: x in rs ==> x.seqNo < r.seqNo
    ensures Descending([r] + rs)
  {
    var all := [r] + rs;
    forall i, j | 0 <= i < j < |all| ensures all[j].seqNo < all[i].seqNo {
      assert all[j] == rs[j - 1] && rs[j - 1] in rs;
      if i > 0 { assert all[i] == rs[i - 1]; }
    }
  }

  lemma {:induction false} VersionsDescend(log: seq<Record>, key: Bytes)
    requires Chronological(log)
    ensures Descending(Versions(log, key))
  {
    hide Descending;
    if log == [] {
      NothingDescends();
    } else {
      var front, last := log[..|log| - 1], log[|log| - 1];
      VersionsDescend(front, key);
      VersionsAll(front, key);
      forall x | x in Versions(front, key) ensures x.seqNo < last.seqNo {
        var k :| 0 <= k < |front| && front[k] == x;
      }
      DescendingCons(last, Versions(front, key));
    }
  }

  lemma NothingDescends()
    ensures Descending([])
  {}

  // ----- reading one's own writes, and nobody else's before they commit

  lemma VersionsOfAppended(log: seq<Record>, r: Record, key: Bytes)
    ensures Versions(log + [r], key) == (if r.key == key then [r] else []) + Versions(log, key)
  {
    assert (log + [r])[..|log|] == log;
  }

  /** After its own write a transaction reads that write; everybody else reads what they read
      before, until the writer commits. */
  lemma WriteIsPrivate(log: seq<Record>, w: Write, seqNo: Int64, status: Statuses, reader: int)
    requires |w.value| <= MAX_INT64
    ensures var before, after := Versions(log, w.key), Versions(log + [Version(w, seqNo)], w.key);
            && (reader == w.tx || IsCommitted(status, w.tx) ==>
                  Answer(after, status, reader) == if w.deleted then None else Some((seqNo, w.value)))
            && (reader != w.tx && !IsCommitted(status, w.tx) ==>
                  Answer(after, status, reader) == Answer(before, status, reader))
  {
    hide Parse, Encode, Versions;
    var r := Version(w, seqNo);
    RowHolds(w.key, seqNo, TxValue(w.tx, w.deleted, false, w.value));
    VersionsOfAppended(log, r, w.key);
    AnswerConcat([r], Versions(log, w.key), status, reader);
    AnswerOfOne(r, status, reader);
    assert First([r], Sees(status, reader)) == if Sees(status, reader)(r) then [r] else [];
  }

  // ----- compaction of a tree is a compaction of its log

  lemma RewritesCopy(status: Statuses, r: Record)
    requires Parse(r.value).Success?
    ensures CopyOf(Rewrite(status, r), r, status)
  {
    RewriteKeepsMeaning(status, 0, r);
  }

  lemma CompactInCopies(merged: seq<Record>, status: Statuses, x: Record) returns (y: Record)
    requires WellFormed(merged) && x in CompactIn(merged, status)
    ensures y in merged && CopyOf(x, y, status)
  {
    hide OnePerKey, Rewrite, CopyOf;
    var kept := OnePerKey(merged, Keeps(status), None);
    OnePerKeyMember(merged, Keeps(status), None);
    var i :| 0 <= i < |kept| && RewriteAll(status, kept)[i] == x;
    y := kept[i];
    RewritesCopy(status, y);
  }

  lemma CopyOfItself(x: Record, status: Statuses)
    requires Parse(x.value).Success?
    ensures CopyOf(x, x, status)
  {}

  /** What the tree does when it compacts is a Compact action on the log. */
  lemma TreeCompactionIsAction(t: Tree, merged: seq<Record>, status: Statuses, pageSize: nat)
    requires Ok(t, pageSize) && multiset(merged) == multiset(Flatten(t.tables)) && WellFormed(Contents(t))
    requires Ok(CompactTree(t, CompactIn(merged, status)), pageSize)
    ensures Compacted(Log(t), Log(CompactTree(t, CompactIn(merged, status))), status)
  {
    hide Flatten, Chronicle, CopyOf, CompactIn, Parse;
    var u := CompactTree(t, CompactIn(merged, status));
    OkBounds(t, pageSize);
    OkBounds(u, pageSize);
    ContentsSplit(t);
    ContentsSplit(u);
    OneFlat(CompactIn(merged, status));
    forall r | r in merged ensures r in Contents(t) { assert r in multiset(Flatten(t.tables)); }
    forall x | x in Log(u) ensures exists y :: y in Log(t) && CopyOf(x, y, status) {
      assert x in multiset(Contents(u));
      if x in CompactIn(merged, status) {
        var y := CompactInCopies(merged, status, x);
        assert y in multiset(Contents(t));
        assert y in Log(t) && CopyOf(x, y, status);
      } else {
        assert x in multiset(Contents(t));
        CopyOfItself(x, status);
        assert x in Log(t) && CopyOf(x, x, status);
      }
    }
  }

  lemma OneFlat(out: seq<Record>)
    ensures Flatten([out]) == out
  {
    assert [out][..0] == [];
  }
}
