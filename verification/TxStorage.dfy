/** Transaction status and row locks. Coroutines that want a held row sleep on one
    condition variable; a release wakes them all and each tests its row again. */
module TxStorage {
  import opened ByteStrings

  datatype Status = Started | Committed | RolledBack

  datatype Phase = Idle | Asleep(tx: int, row: Bytes) | Woken(tx: int, row: Bytes)

  const INITIAL_TX := 10

  datatype Locks = Locks(
    rowLocks: map<Bytes, int>, txLocks: map<int, set<Bytes>>, waiters: seq<nat>, phase: map<nat, Phase>)

  /** One pass of the wait in AcquireRowLock. */
  function TryAcquire(m: Locks, id: nat, tx: int, row: Bytes): Locks {
    if row in m.rowLocks then m.(waiters := m.waiters + [id], phase := m.phase[id := Asleep(tx, row)])
    else
      var rows := if tx in m.txLocks then m.txLocks[tx] else {};
      m.(rowLocks := m.rowLocks[row := tx], txLocks := m.txLocks[tx := rows + {row}], phase := m.phase[id := Idle])
  }

  function WakeAll(phase: map<nat, Phase>, waiters: seq<nat>): (r: map<nat, Phase>)
    ensures r.Keys == phase.Keys
  {
    map t | t in phase :: if t in waiters && phase[t].Asleep? then Woken(phase[t].tx, phase[t].row) else phase[t]
  }

  /** The lock table without those of the rows that tx holds. */
  function Freed(locks: map<Bytes, int>, rows: set<Bytes>, tx: int): map<Bytes, int> {
    map r | r in locks && !(r in rows && locks[r] == tx) :: locks[r]
  }

  /** ReleaseAllLocks: without locks nothing happens, not even a wake-up. */
  function Release(m: Locks, tx: int): Locks {
    if tx !in m.txLocks then m
    else Locks(Freed(m.rowLocks, m.txLocks[tx], tx), m.txLocks - {tx}, [], WakeAll(m.phase, m.waiters))
  }

  /** The two lock tables are inverse to each other. */
  ghost predicate Inverse(m: Locks) {
    && (forall r :: r in m.rowLocks ==> m.rowLocks[r] in m.txLocks && r in m.txLocks[m.rowLocks[r]])
    && (forall t, r :: t in m.txLocks && r in m.txLocks[t] ==> r in m.rowLocks && m.rowLocks[r] == t)
  }

  /** The queue holds exactly the sleepers, and a sleeper's row is held: no lost wake-up. */
  ghost predicate SleepersOk(m: Locks) {
    && (forall t :: t in m.phase ==> (m.phase[t].Asleep? <==> t in m.waiters))
    && (forall t :: t in m.phase && m.phase[t].Asleep? ==> m.phase[t].row in m.rowLocks)
  }

  ghost predicate Inv(m: Locks) { Inverse(m) && SleepersOk(m) }

  datatype Step = Acquire(id: nat, tx: int, row: Bytes) | Retry(id: nat) | ReleaseAll(tx: int)

  predicate Enabled(m: Locks, s: Step) {
    match s
    case Acquire(id, _, _) => id in m.phase && m.phase[id].Idle?
    case Retry(id) => id in m.phase && m.phase[id].Woken?
    case ReleaseAll(_) => true
  }

  function Apply(m: Locks, s: Step): Locks
    requires Enabled(m, s)
  {
    match s
    case Acquire(id, tx, row) => TryAcquire(m, id, tx, row)
    case Retry(id) => TryAcquire(m, id, m.phase[id].tx, m.phase[id].row)
    case ReleaseAll(tx) => Release(m, tx)
  }

  lemma AcquireKeeps(m: Locks, id: nat, tx: int, row: Bytes)
    requires Inv(m) && id in m.phase && !m.phase[id].Asleep?
    ensures Inv(TryAcquire(m, id, tx, row))
    ensures row !in m.rowLocks ==> TryAcquire(m, id, tx, row).rowLocks == m.rowLocks[row := tx]
  {}

  /** A release frees exactly the rows of that transaction. */
  lemma ReleaseKeeps(m: Locks, tx: int)
    requires Inv(m)
    ensures Inv(Release(m, tx))
    ensures forall r :: r in Release(m, tx).rowLocks <==> r in m.rowLocks && m.rowLocks[r] != tx
    ensures forall r :: r in Release(m, tx).rowLocks ==> Release(m, tx).rowLocks[r] == m.rowLocks[r]
  {
    if tx !in m.txLocks {
      forall r | r in m.rowLocks ensures m.rowLocks[r] != tx {}
    }
  }

  lemma StepKeeps(m: Locks, s: Step)
    requires Inv(m) && Enabled(m, s)
    ensures Inv(Apply(m, s))
  {
    match s
    case Acquire(id, tx, row) => AcquireKeeps(m, id, tx, row);
    case Retry(id) => AcquireKeeps(m, id, m.phase[id].tx, m.phase[id].row);
    case ReleaseAll(tx) => ReleaseKeeps(m, tx);
  }

  ghost predicate Run(m: Locks, steps: seq<Step>, end: Locks)
    decreases |steps|
  {
    if steps == [] then m == end else Enabled(m, steps[0]) && Run(Apply(m, steps[0]), steps[1..], end)
  }

  lemma {:induction false} RunKeeps(m: Locks, steps: seq<Step>, end: Locks)
    requires Inv(m) && Run(m, steps, end)
    ensures Inv(end)
    decreases |steps|
  {
    hide Inv, Apply, Enabled;
    if steps != [] {
      StepKeeps(m, steps[0]);
      RunKeeps(Apply(m, steps[0]), steps[1..], end);
    }
  }

  /** In every run the lock tables are inverse and every sleeper waits for a held row. */
  lemma EveryRun(ids: set<nat>, steps: seq<Step>, end: Locks)
    requires Run(Locks(map[], map[], [], map t | t in ids :: Idle), steps, end)
    ensures forall t, r :: (t in end.txLocks && r in end.txLocks[t]) <==> (r in end.rowLocks && end.rowLocks[r] == t)
    ensures forall t :: t in end.phase && end.phase[t].Asleep? ==> end.phase[t].row in end.rowLocks
  {
    RunKeeps(Locks(map[], map[], [], map t | t in ids :: Idle), steps, end);
  }

  /** After a release that freed something nobody sleeps: every waiter tests its row again. */
  lemma ReleaseWakesAll(m: Locks, tx: int)
    requires Inv(m) && tx in m.txLocks
    ensures forall t :: t in m.phase ==> !Release(m, tx).phase[t].Asleep?
  {}

  predicate WaitsForItself(m: Locks, id: nat, tx: int, row: Bytes) {
    && id in m.phase && m.phase[id] in {Asleep(tx, row), Woken(tx, row)}
    && row in m.rowLocks && m.rowLocks[row] == tx
  }

  lemma OwnLockStep(m: Locks, id: nat, tx: int, row: Bytes, s: Step)
    requires Inv(m) && WaitsForItself(m, id, tx, row) && Enabled(m, s) && s != ReleaseAll(tx)
    ensures WaitsForItself(Apply(m, s), id, tx, row)
  {
    if s.ReleaseAll? { ReleaseKeeps(m, s.tx); }
  }

  /** Row locks are not re-entrant: a transaction that asks again for a row it holds waits,
      in every run, until its own commit or rollback. */
  lemma {:induction false} HolderWaitsForItself(
    m: Locks, id: nat, tx: int, row: Bytes, steps: seq<Step>, end: Locks)
    requires Inv(m) && id in m.phase && m.phase[id].Idle? && row in m.rowLocks && m.rowLocks[row] == tx
    requires Run(TryAcquire(m, id, tx, row), steps, end) && ReleaseAll(tx) !in steps
    ensures WaitsForItself(end, id, tx, row)
  {
    AcquireKeeps(m, id, tx, row);
    StillWaits(TryAcquire(m, id, tx, row), id, tx, row, steps, end);
  }

  lemma {:induction false} StillWaits(m: Locks, id: nat, tx: int, row: Bytes, steps: seq<Step>, end: Locks)
    requires Inv(m) && WaitsForItself(m, id, tx, row) && Run(m, steps, end) && ReleaseAll(tx) !in steps
    ensures WaitsForItself(end, id, tx, row)
    decreases |steps|
  {
    hide Inv, Apply, Enabled, WaitsForItself;
    if steps != [] {
      OwnLockStep(m, id, tx, row, steps[0]);
      StepKeeps(m, steps[0]);
      StillWaits(Apply(m, steps[0]), id, tx, row, steps[1..], end);
    }
  }

  /** The next id after replaying the commits of a log. */
  function NextAfter(next: int, commits: seq<int>): int {
    if commits == [] then next
    else
      var n := NextAfter(next, commits[..|commits| - 1]);
      if n < commits[|commits| - 1] + 1 then commits[|commits| - 1] + 1 else n
  }

  /** After a restart Begin issues exactly the ids that no committed transaction reached: one
      that was in use and had not committed is issued again when it is above all that had. */
  lemma {:induction false} IssuedAgainExactly(commits: seq<int>, tx: int)
    ensures NextAfter(INITIAL_TX, commits) <= tx <==> tx >= INITIAL_TX && forall c :: c in commits ==> c < tx
  {
    if commits != [] {
      var front, last := commits[..|commits| - 1], commits[|commits| - 1];
      IssuedAgainExactly(front, tx);
      assert commits == front + [last];
      var n := NextAfter(INITIAL_TX, front);
      assert NextAfter(INITIAL_TX, commits) == if n < last + 1 then last + 1 else n;
      forall c | c in front ensures c in commits {}
      assert last in commits;
    }
  }

  class Storage {
    var nextTxId: int
    var txStatus: map<int, Status>
    var rowLocks: map<Bytes, int>
    var txLocks: map<int, set<Bytes>>
    var waiters: seq<nat>
    ghost var phase: map<nat, Phase>

    ghost function Value(): Locks
      reads this
    {
      Locks(rowLocks, txLocks, waiters, phase)
    }

    ghost predicate Valid()
      reads this
    {
      Inv(Value())
    }

    constructor (ghost ids: set<nat>)
      ensures Valid() && nextTxId == INITIAL_TX && txStatus == map[] && rowLocks == map[]
    {
      nextTxId, txStatus, rowLocks, txLocks, waiters := INITIAL_TX, map[], map[], map[], [];
      phase := map t | t in ids :: Idle;
    }

    method Begin() returns (tx: int)
      modifies this`nextTxId, this`txStatus
      ensures tx == old(nextTxId) && nextTxId == tx + 1 && txStatus == old(txStatus)[tx := Started]
    {
      tx := nextTxId;
      nextTxId := nextTxId + 1;
      txStatus := txStatus[tx := Started];
    }

    method Rollback(tx: int)
      requires Valid()
      modifies this
      ensures Valid() && txStatus == old(txStatus)[tx := RolledBack] && nextTxId == old(nextTxId)
      ensures Value() == Release(old(Value()), tx)
      ensures forall r :: r in rowLocks <==> r in old(rowLocks) && old(rowLocks)[r] != tx
    {
      txStatus := txStatus[tx := RolledBack];
      ReleaseAllLocks(tx);
    }

    /** Commit up to the log write, and after it. */
    method CommitStatus(tx: int)
      modifies this`txStatus
      ensures txStatus == old(txStatus)[tx := Committed]
    {
      txStatus := txStatus[tx := Committed];
    }

    /** The replay of a log's commits into a new storage. */
    method RecoverAll(commits: seq<int>)
      requires nextTxId == INITIAL_TX && txStatus == map[]
      modifies this`txStatus, this`nextTxId
      ensures nextTxId == NextAfter(INITIAL_TX, commits)
      ensures txStatus == map tx | tx in commits :: Committed
    {
      var i := 0;
      while i < |commits|
        invariant 0 <= i <= |commits| && nextTxId == NextAfter(INITIAL_TX, commits[..i])
        invariant txStatus == map tx | tx in commits[..i] :: Committed
      {
        assert commits[..i + 1][..i] == commits[..i] && commits[..i + 1][i] == commits[i];
        assert commits[..i + 1] == commits[..i] + [commits[i]];
        RecoverFromLog(commits[i]);
        i := i + 1;
      }
      assert commits[..i] == commits;
    }

    /** RecoverFromLog: numbering continues after the largest committed id. */
    method RecoverFromLog(tx: int)
      modifies this`txStatus, this`nextTxId
      ensures txStatus == old(txStatus)[tx := Committed]
      ensures nextTxId == if old(nextTxId) < tx + 1 then tx + 1 else old(nextTxId)
    {
      txStatus := txStatus[tx := Committed];
      nextTxId := if nextTxId < tx + 1 then tx + 1 else nextTxId;
    }

    method Attempt(id: nat, tx: int, row: Bytes) returns (acquired: bool)
      requires Valid() && id in phase && (phase[id].Idle? || phase[id] == Woken(tx, row))
      modifies this`rowLocks, this`txLocks, this`waiters, this`phase
      ensures Valid() && Value() == TryAcquire(old(Value()), id, tx, row)
      ensures acquired <==> row !in old(rowLocks)
    {
      AcquireKeeps(Value(), id, tx, row);
      if row in rowLocks {
        waiters := waiters + [id];
        phase := phase[id := Asleep(tx, row)];
        return false;
      }
      rowLocks := rowLocks[row := tx];
      txLocks := txLocks[tx := (if tx in txLocks then txLocks[tx] else {}) + {row}];
      phase := phase[id := Idle];
      return true;
    }

    method ReleaseAllLocks(tx: int)
      requires Valid()
      modifies this`rowLocks, this`txLocks, this`waiters, this`phase
      ensures Valid() && Value() == Release(old(Value()), tx)
      ensures forall r :: r in rowLocks <==> r in old(rowLocks) && old(rowLocks)[r] != tx
    {
      ReleaseKeeps(Value(), tx);
      hide Inv, WakeAll, Freed;
      if tx !in txLocks { return; }
      EraseRows(txLocks[tx], tx);
      txLocks := txLocks - {tx};
      phase := WakeAll(phase, waiters);
      waiters := [];
    }

    method EraseRows(rows: set<Bytes>, tx: int)
      modifies this`rowLocks
      ensures rowLocks == Freed(old(rowLocks), rows, tx)
    {
      var left := rows;
      while left != {}
        invariant left <= rows && rowLocks == Freed(old(rowLocks), rows - left, tx)
        decreases left
      {
        var row :| row in left;
        if row in rowLocks && rowLocks[row] == tx {
          rowLocks := rowLocks - {row};
        }
        left := left - {row};
      }
      assert rows - left == rows;
    }
  }
}
