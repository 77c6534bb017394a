/** Put, Flush, Compact and Get running as coroutines that interleave at their suspension
    points. Two shared mutexes keep them apart: one for the levels, one that Flush and Compact
    hold from start to end. A coroutine that cannot take a lock sleeps until it is woken and then
    tries again; between taking a lock and leaving its exclusive section it may be interrupted.
    Asking for a lock and the first attempt to take it are two steps here and one in the code, so
    there are more runs here than in the code. */
module LsmInterleaving {
  import opened ByteStrings
  import opened Sequences
  import opened Records
  import opened Levels
  import SharedMutexes

  type Mutex = SharedMutexes.Mutex

  type Phase = SharedMutexes.Phase

  datatype Proc =
    | Idle
    | PutWaits(record: Record)                               // sequence number taken, lock not yet
    | PutHolds(record: Record)
    | FlushWaits                                             // for the maintenance lock
    | FlushAsks                                              // for the shared lock, to count
    | FlushCounts
    | FlushLoop(pending: nat)
    | FlushWrites(pending: nat, written: seq<Record>)        // the file so far, no shared lock held
    | FlushPublishes(pending: nat, table: seq<Record>)       // file closed, waits for the lock
    | FlushHolds(pending: nat, table: seq<Record>)
    | CompactWaits
    | CompactReads(read: seq<seq<Record>>)
    | CompactPublishes(out: seq<Record>)
    | CompactHolds(out: seq<Record>)
    | CompactRemoves
    | GetWaits(key: Bytes)
    | GetReads(key: Bytes, depth: nat, found: seq<Record>, snapshot: seq<seq<Record>>)

  /** The lock a coroutine is waiting for. */
  datatype Want = NoLock | LevelLock(exclusive: bool) | MaintenanceLock

  function Wants(p: Proc): Want {
    match p
    case PutWaits(_) => LevelLock(true)
    case FlushAsks => LevelLock(false)
    case FlushPublishes(_, _) => LevelLock(true)
    case CompactPublishes(_) => LevelLock(true)
    case GetWaits(_) => LevelLock(false)
    case FlushWaits => MaintenanceLock
    case CompactWaits => MaintenanceLock
    case _ => NoLock
  }

  /** `inserted` lists every record that a Put has put into the tree. */
  datatype State = State(
    mem: seq<Record>, frozen: seq<seq<Record>>, tables: seq<seq<Record>>, next: int,
    shared: Mutex, maintenance: Mutex, procs: map<nat, Proc>, inserted: set<Record>)

  datatype Action =
    | Attempt(id: nat)                                       // to take the lock waited for
    | TakeSeq(id: nat, key: Bytes, value: Bytes)
    | InsertRecord(id: nat)
    | FlushStart(id: nat) | FlushCount(id: nat) | FlushBegin(id: nat) | FlushWrite(id: nat)
    | FlushClose(id: nat) | FlushPublish(id: nat) | FlushEnd(id: nat)
    | CompactStart(id: nat) | CompactRead(id: nat) | CompactMerge(id: nat, out: seq<Record>)
    | CompactPublish(id: nat) | CompactEnd(id: nat)
    | GetStart(id: nat, key: Bytes) | GetRead(id: nat) | GetEnd(id: nat)

  function AllLevels(s: State): seq<seq<Record>> { s.tables + s.frozen + [s.mem] }

  /** Not asleep: it may test whether the lock is free. */
  predicate Awake(m: Mutex, id: nat) { id in m.phase && (m.phase[id].Idle? || m.phase[id].Woken?) }

  predicate Holding(m: Mutex, id: nat) {
    id in m.phase && (m.phase[id].HoldsShared? || m.phase[id].HoldsExclusive?)
  }

  ghost predicate Enabled(s: State, a: Action) {
    a.id in s.procs && var p := s.procs[a.id]; match a
      case Attempt(id) =>
        (Wants(p).LevelLock? && Awake(s.shared, id)) || (Wants(p).MaintenanceLock? && Awake(s.maintenance, id))
      case TakeSeq(_, _, _) => p.Idle? && MIN_INT64 <= s.next <= MAX_INT64
      case InsertRecord(id) => p.PutHolds? && Holding(s.shared, id)
      case FlushStart(_) => p.Idle?
      case FlushCount(id) => p.FlushCounts? && Holding(s.shared, id)
      case FlushBegin(_) => p.FlushLoop? && p.pending > 0
      case FlushWrite(_) => p.FlushWrites? && s.frozen != [] && |p.written| < |s.frozen[0]|
      case FlushClose(_) => p.FlushWrites? && s.frozen != [] && |p.written| == |s.frozen[0]|
      case FlushPublish(id) => p.FlushHolds? && Holding(s.shared, id) && s.frozen != [] && p.pending > 0
      case FlushEnd(id) => p.FlushLoop? && p.pending == 0 && Holding(s.maintenance, id)
      case CompactStart(_) => p.Idle?
      case CompactRead(_) => p.CompactReads? && |p.read| < |s.tables|
      case CompactMerge(_, out) => p.CompactReads? && |p.read| == |s.tables|
                                   && Sorted(out) && multiset(out) == multiset(Flatten(p.read))
      case CompactPublish(id) => p.CompactHolds? && Holding(s.shared, id)
      case CompactEnd(id) => p.CompactRemoves? && Holding(s.maintenance, id)
      case GetStart(_, _) => p.Idle?
      case GetRead(_) => p.GetReads? && p.depth < |AllLevels(s)|
      case GetEnd(id) => p.GetReads? && p.depth == |AllLevels(s)| && Holding(s.shared, id)
  }

  function At(s: State, id: nat, p: Proc): State { s.(procs := s.procs[id := p]) }

  /** What a coroutine goes on to do with the lock it waited for. */
  function Granted(p: Proc, levels: seq<seq<Record>>): Proc {
    match p
    case PutWaits(r) => PutHolds(r)
    case FlushWaits => FlushAsks
    case FlushAsks => FlushCounts
    case FlushPublishes(pending, table) => FlushHolds(pending, table)
    case CompactWaits => CompactReads([])
    case CompactPublishes(out) => CompactHolds(out)
    case GetWaits(key) => GetReads(key, 0, [], levels)
    case _ => p
  }

  function Tried(s: State, id: nat): State
    requires id in s.procs
  {
    var p := s.procs[id];
    match Wants(p)
    case LevelLock(exclusive) =>
      var m := SharedMutexes.TryLock(s.shared, id, exclusive);
      At(s.(shared := m), id, if Holding(m, id) then Granted(p, AllLevels(s)) else p)
    case MaintenanceLock =>
      var m := SharedMutexes.TryLock(s.maintenance, id, true);
      At(s.(maintenance := m), id, if Holding(m, id) then Granted(p, AllLevels(s)) else p)
    case NoLock => s
  }

  function Released(m: Mutex, id: nat): Mutex
    requires Holding(m, id)
  {
    SharedMutexes.Apply(m, SharedMutexes.Unlock(id))
  }

  ghost function Apply(s: State, a: Action, maxRecords: nat): State
    requires Enabled(s, a)
  {
    var p := s.procs[a.id]; match a
    case Attempt(id) => Tried(s, id)
    case TakeSeq(id, key, value) => At(s, id, PutWaits(Record(key, s.next, value))).(next := s.next + 1)
    case InsertRecord(id) =>
      var mem := Insert(s.mem, p.record);
      var t := At(s, id, Idle).(inserted := s.inserted + {p.record}, shared := Released(s.shared, id));
      if |mem| > maxRecords then t.(frozen := s.frozen + [mem], mem := []) else t.(mem := mem)
    case FlushStart(id) => At(s, id, FlushWaits)
    case FlushCount(id) => At(s, id, FlushLoop(|s.frozen|)).(shared := Released(s.shared, id))
    case FlushBegin(id) => At(s, id, FlushWrites(p.pending, []))
    case FlushWrite(id) => At(s, id, FlushWrites(p.pending, p.written + [s.frozen[0][|p.written|]]))
    case FlushClose(id) => At(s, id, FlushPublishes(p.pending, p.written))
    case FlushPublish(id) =>
      At(s, id, FlushLoop(p.pending - 1)).(tables := s.tables + [p.table], frozen := s.frozen[1..],
                                           shared := Released(s.shared, id))
    case FlushEnd(id) => At(s, id, Idle).(maintenance := Released(s.maintenance, id))
    case CompactStart(id) => At(s, id, CompactWaits)
    case CompactRead(id) => At(s, id, CompactReads(p.read + [s.tables[|p.read|]]))
    case CompactMerge(id, out) => At(s, id, CompactPublishes(out))
    case CompactPublish(id) => At(s, id, CompactRemoves).(tables := [p.out], shared := Released(s.shared, id))
    case CompactEnd(id) => At(s, id, Idle).(maintenance := Released(s.maintenance, id))
    case GetStart(id, key) => At(s, id, GetWaits(key))
    case GetRead(id) =>
      var levels := AllLevels(s);
      var level := levels[|levels| - 1 - p.depth];
      At(s, id, GetReads(p.key, p.depth + 1, p.found + Select(level, KeyRange(p.key)), p.snapshot))
    case GetEnd(id) => At(s, id, Idle).(shared := Released(s.shared, id))
  }

  // ----- the locks

  /** Between start and end, with the maintenance lock. */
  predicate Maintains(p: Proc) {
    p.FlushAsks? || p.FlushCounts? || p.FlushLoop? || p.FlushWrites? || p.FlushPublishes? || p.FlushHolds?
    || p.CompactReads? || p.CompactPublishes? || p.CompactHolds? || p.CompactRemoves?
  }

  predicate ChangesLevels(p: Proc) { p.PutHolds? || p.FlushHolds? || p.CompactHolds? }

  predicate ReadsLevels(p: Proc) { p.FlushCounts? || p.GetReads? }

  predicate SharedPhaseOk(p: Proc, phase: Phase) {
    && (phase.HoldsExclusive? <==> ChangesLevels(p)) && (phase.HoldsShared? <==> ReadsLevels(p))
    && (phase.Asleep? || phase.Woken? ==> Wants(p) == LevelLock(phase.exclusive))
  }

  predicate MaintenancePhaseOk(p: Proc, phase: Phase) {
    && (phase.HoldsExclusive? <==> Maintains(p)) && !phase.HoldsShared?
    && (phase.Asleep? || phase.Woken? ==> Wants(p) == MaintenanceLock && phase.exclusive)
  }

  /** Both mutexes are sound, and every coroutine is where they say it is. */
  ghost predicate LocksOk(s: State) {
    && SharedMutexes.Inv(s.shared) && SharedMutexes.Inv(s.maintenance)
    && s.shared.phase.Keys == s.maintenance.phase.Keys == s.procs.Keys
    && (forall id :: id in s.procs ==> SharedPhaseOk(s.procs[id], s.shared.phase[id]))
    && (forall id :: id in s.procs ==> MaintenancePhaseOk(s.procs[id], s.maintenance.phase[id]))
  }

  /** What the mutex invariant means for two coroutines. */
  lemma Excludes(m: Mutex, i: nat, j: nat)
    requires SharedMutexes.Inv(m) && i in m.phase && j in m.phase && m.phase[i].HoldsExclusive? && i != j
    ensures !m.phase[j].HoldsExclusive? && !m.phase[j].HoldsShared?
  {
    assert j !in SharedMutexes.SharedHolders(m);
  }

  ghost predicate OthersAlike(m: Mutex, n: Mutex, id: nat) {
    n.phase.Keys == m.phase.Keys && forall i :: i in m.phase && i != id ==>
      n.phase[i] == m.phase[i] || (m.phase[i].Asleep? && n.phase[i] == SharedMutexes.Woken(m.phase[i].exclusive))
  }

  lemma TryKeeps(m: Mutex, id: nat, exclusive: bool)
    requires SharedMutexes.Inv(m) && Awake(m, id)
    ensures var n := SharedMutexes.TryLock(m, id, exclusive);
            && SharedMutexes.Inv(n) && OthersAlike(m, n, id)
            && (Holding(n, id) ==>
                  n.phase[id] == if exclusive then SharedMutexes.HoldsExclusive else SharedMutexes.HoldsShared)
            && (!Holding(n, id) ==> n.phase[id] == SharedMutexes.Asleep(exclusive))
  {
    SharedMutexes.TryLockKeeps(m, id, exclusive);
  }

  lemma ReleaseKeeps(m: Mutex, id: nat)
    requires SharedMutexes.Inv(m) && Holding(m, id)
    ensures var n := Released(m, id); SharedMutexes.Inv(n) && OthersAlike(m, n, id) && n.phase[id].Idle?
  {
    SharedMutexes.UnlockKeeps(m, id);
  }

  lemma OthersStay(m: Mutex, n: Mutex, id: nat, procs: map<nat, Proc>)
    requires OthersAlike(m, n, id) && m.phase.Keys == procs.Keys
    ensures forall i :: i in procs && i != id && SharedPhaseOk(procs[i], m.phase[i]) ==>
              SharedPhaseOk(procs[i], n.phase[i])
    ensures forall i :: i in procs && i != id && MaintenancePhaseOk(procs[i], m.phase[i]) ==>
              MaintenancePhaseOk(procs[i], n.phase[i])
  {}

  lemma PhasesOfGranted(p: Proc, levels: seq<seq<Record>>, shared: Phase, maintenance: Phase)
    requires SharedPhaseOk(p, shared) && MaintenancePhaseOk(p, maintenance)
    ensures Wants(p).LevelLock? ==>
              && SharedPhaseOk(p, SharedMutexes.Asleep(Wants(p).exclusive))
              && SharedPhaseOk(Granted(p, levels),
                               if Wants(p).exclusive then SharedMutexes.HoldsExclusive else SharedMutexes.HoldsShared)
              && MaintenancePhaseOk(Granted(p, levels), maintenance)
    ensures Wants(p).MaintenanceLock? ==>
              && MaintenancePhaseOk(p, SharedMutexes.Asleep(true))
              && MaintenancePhaseOk(Granted(p, levels), SharedMutexes.HoldsExclusive)
              && SharedPhaseOk(Granted(p, levels), shared)
  {}

  lemma LocksByAttempt(s: State, id: nat)
    requires LocksOk(s) && Enabled(s, Attempt(id))
    ensures LocksOk(Tried(s, id))
  {
    hide SharedMutexes.Inv, SharedMutexes.TryLock, AllLevels, Wants, Granted, SharedPhaseOk, MaintenancePhaseOk, Holding;
    var p := s.procs[id];
    PhasesOfGranted(p, AllLevels(s), s.shared.phase[id], s.maintenance.phase[id]);
    if Wants(p).LevelLock? {
      TryKeeps(s.shared, id, Wants(p).exclusive);
      OthersStay(s.shared, SharedMutexes.TryLock(s.shared, id, Wants(p).exclusive), id, s.procs);
    } else {
      TryKeeps(s.maintenance, id, true);
      OthersStay(s.maintenance, SharedMutexes.TryLock(s.maintenance, id, true), id, s.procs);
    }
  }

  /** A coroutine leaves a lock. */
  lemma LocksByRelease(s: State, id: nat, p: Proc)
    requires LocksOk(s) && id in s.procs && Holding(s.shared, id) && MaintenancePhaseOk(p, s.maintenance.phase[id])
    requires !ChangesLevels(p) && !ReadsLevels(p)
    ensures LocksOk(At(s, id, p).(shared := Released(s.shared, id)))
  {
    hide SharedMutexes.Inv, Released, MaintenancePhaseOk, Holding;
    ReleaseKeeps(s.shared, id);
    OthersStay(s.shared, Released(s.shared, id), id, s.procs);
  }

  lemma LocksByEnd(s: State, id: nat)
    requires LocksOk(s) && id in s.procs && Holding(s.maintenance, id)
    requires SharedPhaseOk(Idle, s.shared.phase[id])
    ensures LocksOk(At(s, id, Idle).(maintenance := Released(s.maintenance, id)))
  {
    hide SharedMutexes.Inv, Released, SharedPhaseOk, Holding;
    ReleaseKeeps(s.maintenance, id);
    OthersStay(s.maintenance, Released(s.maintenance, id), id, s.procs);
  }

  lemma LocksByMove(s: State, id: nat, p: Proc)
    requires LocksOk(s) && id in s.procs
    requires SharedPhaseOk(p, s.shared.phase[id]) && MaintenancePhaseOk(p, s.maintenance.phase[id])
    ensures LocksOk(At(s, id, p))
  {}

  lemma LocksElsewhere(s: State, t: State)
    requires LocksOk(s) && t.shared == s.shared && t.maintenance == s.maintenance && t.procs == s.procs
    ensures LocksOk(t)
  {}

  predicate LeavesShared(a: Action) { a.InsertRecord? || a.FlushCount? || a.FlushPublish? || a.CompactPublish? || a.GetEnd? }

  predicate LeavesMaintenance(a: Action) { a.FlushEnd? || a.CompactEnd? }

  /** Where the coroutine that moves stands with respect to the locks. */
  lemma MoverShared(s: State, a: Action, maxRecords: nat)
    requires Enabled(s, a) && !a.Attempt? && a.id in s.shared.phase && SharedPhaseOk(s.procs[a.id], s.shared.phase[a.id])
    ensures var p := Apply(s, a, maxRecords).procs[a.id];
            if LeavesShared(a) then !ChangesLevels(p) && !ReadsLevels(p) else SharedPhaseOk(p, s.shared.phase[a.id])
  {
    hide Insert, Select, Sorted, Flatten, AllLevels, Released, Holding;
  }

  lemma MoverMaintenance(s: State, a: Action, maxRecords: nat)
    requires Enabled(s, a) && !a.Attempt? && a.id in s.maintenance.phase
    requires MaintenancePhaseOk(s.procs[a.id], s.maintenance.phase[a.id])
    ensures var p := Apply(s, a, maxRecords).procs[a.id];
            if LeavesMaintenance(a) then p.Idle? else MaintenancePhaseOk(p, s.maintenance.phase[a.id])
  {
    hide Insert, Select, Sorted, Flatten, AllLevels, Released, Holding;
  }

  lemma LocksKept(s: State, a: Action, maxRecords: nat)
    requires LocksOk(s) && Enabled(s, a)
    ensures LocksOk(Apply(s, a, maxRecords))
  {
    hide Insert, Select, Sorted, Flatten, AllLevels, LocksOk, Released, Tried, SharedPhaseOk, MaintenancePhaseOk,
         ChangesLevels, ReadsLevels;
    var t, id := Apply(s, a, maxRecords), a.id;
    LocksKeys(s);
    if a.Attempt? {
      LocksByAttempt(s, id);
    } else {
      LocksAt(s, id);
      MoverShared(s, a, maxRecords);
      MoverMaintenance(s, a, maxRecords);
      if LeavesShared(a) {
        LocksByRelease(s, id, t.procs[id]);
        LocksElsewhere(At(s, id, t.procs[id]).(shared := Released(s.shared, id)), t);
      } else if LeavesMaintenance(a) {
        LocksByEnd(s, id);
      } else {
        LocksByMove(s, id, t.procs[id]);
        LocksElsewhere(At(s, id, t.procs[id]), t);
      }
    }
  }

  lemma LocksAt(s: State, id: nat)
    requires LocksOk(s) && id in s.procs
    ensures id in s.shared.phase && SharedPhaseOk(s.procs[id], s.shared.phase[id])
    ensures id in s.maintenance.phase && MaintenancePhaseOk(s.procs[id], s.maintenance.phase[id])
  {}

  lemma LocksKeys(s: State)
    requires LocksOk(s)
    ensures s.shared.phase.Keys == s.maintenance.phase.Keys == s.procs.Keys
  {}

  // ----- what every step keeps

  /** What a coroutine has seen so far still agrees with the shared state. */
  ghost predicate ProcOk(s: State, p: Proc) {
    match p
    case FlushLoop(pending) => pending <= |s.frozen|
    case FlushWrites(pending, written) => 0 < pending <= |s.frozen| && written <= s.frozen[0]
    case FlushPublishes(pending, table) => 0 < pending <= |s.frozen| && table == s.frozen[0]
    case FlushHolds(pending, table) => 0 < pending <= |s.frozen| && table == s.frozen[0]
    case CompactReads(read) => read <= s.tables
    case CompactPublishes(out) => Sorted(out) && multiset(out) == multiset(Flatten(s.tables))
    case CompactHolds(out) => Sorted(out) && multiset(out) == multiset(Flatten(s.tables))
    case GetReads(key, depth, found, snapshot) =>
      snapshot == AllLevels(s) && depth <= |snapshot|
      && found + KeyWalk(snapshot[..|snapshot| - depth], key) == KeyWalk(snapshot, key)
    case _ => true
  }

  ghost predicate ProcsOk(s: State) {
    forall id :: id in s.procs ==> ProcOk(s, s.procs[id])
  }

  /** Every inserted record is held exactly once, in a sorted level. */
  ghost predicate Conserved(s: State) {
    multiset(Flatten(AllLevels(s))) == multiset(s.inserted) && AllSorted(AllLevels(s))
  }

  ghost predicate UniqueNumbers(inserted: set<Record>, next: int) {
    && (forall r :: r in inserted ==> r.seqNo < next)
    && (forall q, r :: q in inserted && r in inserted && q.seqNo == r.seqNo ==> q == r)
  }

  /** A put with a number that has not inserted its record. */
  predicate IsPending(p: Proc) { p.PutWaits? || p.PutHolds? }

  /** The numbers that pending puts hold are used by nobody else. */
  ghost predicate WaitersOk(procs: map<nat, Proc>, inserted: set<Record>, next: int) {
    && (forall id :: id in procs && IsPending(procs[id]) ==> FreshNumber(procs[id].record, inserted, next))
    && (forall i, j :: i in procs && j in procs && IsPending(procs[i]) && IsPending(procs[j]) && i != j ==>
          procs[i].record.seqNo != procs[j].record.seqNo)
  }

  ghost predicate FreshNumber(r: Record, inserted: set<Record>, next: int) {
    r.seqNo < next && forall q :: q in inserted ==> q.seqNo != r.seqNo
  }

  /** Sequence numbers are handed out once. */
  ghost predicate SeqsOk(s: State) {
    UniqueNumbers(s.inserted, s.next) && WaitersOk(s.procs, s.inserted, s.next)
  }

  ghost predicate Inv(s: State) { LocksOk(s) && ProcsOk(s) && Conserved(s) && SeqsOk(s) }

  lemma SeqsKept(s: State, a: Action, maxRecords: nat)
    requires SeqsOk(s) && Enabled(s, a)
    ensures SeqsOk(Apply(s, a, maxRecords))
  {
    hide Insert, Select, Sorted, Flatten, AllLevels, SeqsOk, Released, SharedMutexes.TryLock;
    var t := Apply(s, a, maxRecords);
    if a.Attempt? {
      SeqsByAttempt(s, a.id, t.procs[a.id]);
      SeqsElsewhere(At(s, a.id, t.procs[a.id]), t);
    } else if a.TakeSeq? {
      SeqsByTake(s, a.id, t.procs[a.id].record);
    } else if a.InsertRecord? {
      SeqsByInsert(s, a.id);
      SeqsElsewhere(At(s, a.id, Idle).(inserted := s.inserted + {s.procs[a.id].record}), t);
    } else {
      SeqsByOther(s, a.id, t.procs[a.id]);
      SeqsElsewhere(At(s, a.id, t.procs[a.id]), t);
    }
  }

  lemma SeqsByAttempt(s: State, id: nat, p: Proc)
    requires SeqsOk(s) && id in s.procs && (p == s.procs[id] || p == Granted(s.procs[id], AllLevels(s)))
    ensures SeqsOk(At(s, id, p))
  {
    assert IsPending(p) ==> IsPending(s.procs[id]) && p.record == s.procs[id].record;
  }

  lemma SeqsByTake(s: State, id: nat, r: Record)
    requires SeqsOk(s) && r.seqNo == s.next
    ensures SeqsOk(At(s, id, PutWaits(r)).(next := s.next + 1))
  {}

  lemma SeqsByInsert(s: State, id: nat)
    requires SeqsOk(s) && id in s.procs && IsPending(s.procs[id])
    ensures SeqsOk(At(s, id, Idle).(inserted := s.inserted + {s.procs[id].record}))
  {
    var r := s.procs[id].record;
    assert FreshNumber(r, s.inserted, s.next);
    forall i | i in s.procs && i != id && IsPending(s.procs[i])
      ensures FreshNumber(s.procs[i].record, s.inserted + {r}, s.next)
    {
      assert FreshNumber(s.procs[i].record, s.inserted, s.next);
    }
  }

  lemma SeqsByOther(s: State, id: nat, p: Proc)
    requires SeqsOk(s) && !IsPending(p)
    ensures SeqsOk(At(s, id, p))
  {}

  lemma SeqsElsewhere(s: State, t: State)
    requires SeqsOk(s) && t.inserted == s.inserted && t.next == s.next && t.procs == s.procs
    ensures SeqsOk(t)
  {}

  ghost predicate AllSorted(levels: seq<seq<Record>>) {
    forall i :: 0 <= i < |levels| ==> Sorted(levels[i])
  }

  lemma SortedAppend(levels: seq<seq<Record>>, level: seq<Record>)
    ensures AllSorted(levels + [level]) <==> AllSorted(levels) && Sorted(level)
  {
    hide Sorted;
    var all := levels + [level];
    assert all[|levels|] == level;
    assert forall i :: 0 <= i < |levels| ==> all[i] == levels[i];
  }

  lemma InsertConserves(older: seq<seq<Record>>, mem: seq<Record>, r: Record)
    requires AllSorted(older + [mem])
    ensures multiset(Flatten(older + [Insert(mem, r)])) == multiset(Flatten(older + [mem])) + multiset{r}
    ensures AllSorted(older + [Insert(mem, r)])
    ensures Flatten(older + [Insert(mem, r)] + [[]]) == Flatten(older + [Insert(mem, r)])
    ensures AllSorted(older + [Insert(mem, r)] + [[]])
  {
    hide Insert, Flatten, Sorted, AllSorted;
    SortedAppend(older, mem);
    InsertSorted(mem, r);
    EmptySorted();
    SortedAppend(older, Insert(mem, r));
    SortedAppend(older + [Insert(mem, r)], []);
    FlattenAppend(older, mem);
    FlattenAppend(older, Insert(mem, r));
    FlattenAppend(older + [Insert(mem, r)], []);
  }

  lemma ConservedByInsert(s: State, a: Action, maxRecords: nat)
    requires Conserved(s) && SeqsOk(s) && Enabled(s, a) && a.InsertRecord?
    ensures Conserved(Apply(s, a, maxRecords))
  {
    hide Insert, Flatten, Sorted;
    var r := s.procs[a.id].record;
    assert FreshNumber(r, s.inserted, s.next);
    assert multiset(s.inserted + {r}) == multiset(s.inserted) + multiset{r};
    var older := s.tables + s.frozen;
    InsertConserves(older, s.mem, r);
    var mem, t := Insert(s.mem, r), Apply(s, a, maxRecords);
    assert AllLevels(t) == older + [mem] + [[]] || AllLevels(t) == older + [mem];
  }

  lemma EmptySorted()
    ensures Sorted([])
  {}

  lemma ConservedByFlush(s: State, a: Action, maxRecords: nat)
    requires Conserved(s) && ProcsOk(s) && Enabled(s, a) && a.FlushPublish?
    ensures Conserved(Apply(s, a, maxRecords))
    ensures AllLevels(Apply(s, a, maxRecords)) == AllLevels(s)
  {
    hide Flatten, Sorted;
    assert ProcOk(s, s.procs[a.id]);
    assert AllLevels(Apply(s, a, maxRecords)) == AllLevels(s);
  }

  lemma ConservedByCompact(s: State, a: Action, maxRecords: nat)
    requires Conserved(s) && ProcsOk(s) && Enabled(s, a) && a.CompactPublish?
    ensures Conserved(Apply(s, a, maxRecords))
  {
    hide Flatten, Sorted, KeyWalk;
    var t, out, newer := Apply(s, a, maxRecords), s.procs[a.id].out, s.frozen + [s.mem];
    assert ProcOk(s, s.procs[a.id]);
    assert AllLevels(s) == s.tables + newer && AllLevels(t) == [out] + newer;
    FlattenConcat(s.tables, newer);
    FlattenCons(out, newer);
    forall i | 0 <= i < |AllLevels(t)| ensures Sorted(AllLevels(t)[i]) {
      if i > 0 { assert AllLevels(t)[i] == AllLevels(s)[|s.tables| + i - 1]; }
    }
  }

  lemma ConservedKept(s: State, a: Action, maxRecords: nat)
    requires Inv(s) && Enabled(s, a)
    ensures Conserved(Apply(s, a, maxRecords))
  {
    hide Insert, Select, Sorted, Flatten;
    if a.InsertRecord? {
      ConservedByInsert(s, a, maxRecords);
    } else if a.FlushPublish? {
      ConservedByFlush(s, a, maxRecords);
    } else if a.CompactPublish? {
      ConservedByCompact(s, a, maxRecords);
    } else {
      assert AllLevels(Apply(s, a, maxRecords)) == AllLevels(s);
    }
  }

  lemma AttemptOk(s: State, id: nat)
    requires Enabled(s, Attempt(id)) && ProcOk(s, s.procs[id])
    ensures ProcOk(Tried(s, id), Tried(s, id).procs[id])
  {
    hide Sorted, Flatten, KeyWalk, SharedMutexes.TryLock, Holding, Awake;
    var p, levels := s.procs[id], AllLevels(s);
    assert AllLevels(Tried(s, id)) == levels;
    assert levels[..|levels| - 0] == levels;
    if p.GetWaits? { assert [] + KeyWalk(levels, p.key) == KeyWalk(levels, p.key); }
  }

  lemma MoveOk(s: State, a: Action, maxRecords: nat)
    requires Enabled(s, a) && ProcOk(s, s.procs[a.id]) && !a.Attempt? && !a.GetRead?
    ensures ProcOk(Apply(s, a, maxRecords), Apply(s, a, maxRecords).procs[a.id])
  {
    hide Insert, Sorted, Flatten, KeyWalk, Released, Holding;
    if a.CompactMerge? { assert s.procs[a.id].read == s.tables; }
  }

  /** The coroutine that moves still agrees with the state it leaves behind. */
  lemma MoverOk(s: State, a: Action, maxRecords: nat)
    requires ProcsOk(s) && Enabled(s, a)
    ensures ProcOk(Apply(s, a, maxRecords), Apply(s, a, maxRecords).procs[a.id])
  {
    hide Insert, Select, Sorted, Flatten, KeyWalk, Released, SharedMutexes.TryLock, ProcOk, Tried;
    assert ProcOk(s, s.procs[a.id]);
    if a.Attempt? {
      AttemptOk(s, a.id);
    } else if a.GetRead? {
      GetReadOk(s, s.procs[a.id]);
      SameLevelsOk(s, Apply(s, a, maxRecords), Apply(s, a, maxRecords).procs[a.id]);
    } else {
      MoveOk(s, a, maxRecords);
    }
  }

  lemma SameLevelsOk(s: State, t: State, p: Proc)
    requires ProcOk(s, p) && t.tables == s.tables && t.frozen == s.frozen && t.mem == s.mem
    ensures ProcOk(t, p)
  {}

  lemma GetReadOk(s: State, p: Proc)
    requires p.GetReads? && ProcOk(s, p) && p.depth < |AllLevels(s)|
    ensures var levels := AllLevels(s);
            var found := p.found + Select(levels[|levels| - 1 - p.depth], KeyRange(p.key));
            ProcOk(s, GetReads(p.key, p.depth + 1, found, p.snapshot))
  {
    hide Select;
    var levels := AllLevels(s);
    var rest := levels[..|levels| - p.depth];
    assert rest[..|rest| - 1] == levels[..|levels| - (p.depth + 1)];
    var part, tail := Select(rest[|rest| - 1], KeyRange(p.key)), KeyWalk(rest[..|rest| - 1], p.key);
    assert p.found + (part + tail) == p.found + part + tail;
  }

  /** Whoever changes the levels leaves them alone while somebody reads them. */
  lemma ReaderSeesNoChange(s: State, a: Action, maxRecords: nat, id: nat)
    requires LocksOk(s) && ProcsOk(s) && Enabled(s, a) && id in s.procs && id != a.id && ReadsLevels(s.procs[id])
    ensures AllLevels(Apply(s, a, maxRecords)) == AllLevels(s)
  {
    hide Insert, Select, Sorted, Flatten, KeyWalk, SharedMutexes.Inv, Released, SharedMutexes.TryLock;
    assert ProcOk(s, s.procs[a.id]);
    assert SharedPhaseOk(s.procs[a.id], s.shared.phase[a.id]) && SharedPhaseOk(s.procs[id], s.shared.phase[id]);
    if ChangesLevels(s.procs[a.id]) { Excludes(s.shared, a.id, id); }
  }

  /** Flush and Compact never run together. */
  lemma OneMaintainer(s: State, i: nat, j: nat)
    requires LocksOk(s) && i in s.procs && j in s.procs && Maintains(s.procs[i]) && Maintains(s.procs[j])
    ensures i == j
  {
    hide SharedMutexes.Inv;
    assert MaintenancePhaseOk(s.procs[i], s.maintenance.phase[i]) && MaintenancePhaseOk(s.procs[j], s.maintenance.phase[j]);
    if i != j { Excludes(s.maintenance, i, j); }
  }

  /** Nobody else is disturbed: the frozen front, the tables being compacted and the
      levels under a reader stay put. */
  lemma OthersOk(s: State, a: Action, maxRecords: nat, id: nat)
    requires Inv(s) && Enabled(s, a) && id in s.procs && id != a.id
    ensures ProcOk(Apply(s, a, maxRecords), s.procs[id])
  {
    hide Insert, Select, Sorted, Flatten, KeyWalk, Conserved, SeqsOk, LocksOk, Released, SharedMutexes.TryLock;
    var p := s.procs[id];
    assert ProcOk(s, p);
    if p.GetReads? {
      ReaderSeesNoChange(s, a, maxRecords, id);
    } else if Maintains(p) {
      if Maintains(s.procs[a.id]) { OneMaintainer(s, id, a.id); }
    }
  }

  lemma StepKeeps(s: State, a: Action, maxRecords: nat)
    requires Inv(s) && Enabled(s, a)
    ensures Inv(Apply(s, a, maxRecords))
  {
    hide Apply, Enabled, ProcOk, Conserved, LocksOk, SeqsOk;
    LocksKept(s, a, maxRecords);
    SeqsKept(s, a, maxRecords);
    ConservedKept(s, a, maxRecords);
    var t := Apply(s, a, maxRecords);
    forall id | id in t.procs ensures ProcOk(t, t.procs[id]) {
      SameOthers(s, a, maxRecords);
      if id == a.id { MoverOk(s, a, maxRecords); } else { OthersOk(s, a, maxRecords, id); }
    }
  }

  lemma SameOthers(s: State, a: Action, maxRecords: nat)
    requires Enabled(s, a)
    ensures Apply(s, a, maxRecords).procs.Keys == s.procs.Keys
    ensures forall id :: id in s.procs && id != a.id ==> Apply(s, a, maxRecords).procs[id] == s.procs[id]
  {
    hide Insert, Select, Sorted, Flatten, AllLevels;
  }

  // ----- whole runs

  function Start(ids: set<nat>): State {
    State([], [], [], 1, SharedMutexes.Start(ids), SharedMutexes.Start(ids), map id | id in ids :: Idle, {})
  }

  ghost predicate Run(s: State, actions: seq<Action>, maxRecords: nat, end: State)
    decreases |actions|
  {
    if actions == [] then s == end
    else Enabled(s, actions[0]) && Run(Apply(s, actions[0], maxRecords), actions[1..], maxRecords, end)
  }

  lemma {:induction false} RunKeeps(s: State, actions: seq<Action>, maxRecords: nat, end: State)
    requires Inv(s) && Run(s, actions, maxRecords, end)
    ensures Inv(end)
    decreases |actions|
  {
    hide Inv, Apply, Enabled;
    if actions != [] {
      StepKeeps(s, actions[0], maxRecords);
      RunKeeps(Apply(s, actions[0], maxRecords), actions[1..], maxRecords, end);
    }
  }

  lemma StartOk(ids: set<nat>)
    ensures Inv(Start(ids))
  {
    var s := Start(ids);
    assert SharedMutexes.SharedHolders(SharedMutexes.Start(ids)) == {};
    assert AllLevels(s) == [[]];
    assert Flatten<Record>([[]]) == [];
  }

  /** The mem table is frozen exactly when it has one record too many. */
  ghost predicate Filled(s: State, maxRecords: nat) {
    |s.mem| <= maxRecords && forall i :: 0 <= i < |s.frozen| ==> |s.frozen[i]| == maxRecords + 1
  }

  lemma StepFills(s: State, a: Action, maxRecords: nat)
    requires Filled(s, maxRecords) && Enabled(s, a)
    ensures Filled(Apply(s, a, maxRecords), maxRecords)
  {
    hide Insert, Released, Tried, AllLevels;
    if a.Attempt? {
      TriedKeepsLevels(s, a.id);
    } else if a.FlushPublish? {
      assert forall i :: 0 <= i < |s.frozen[1..]| ==> s.frozen[1..][i] == s.frozen[i + 1];
    }
  }

  lemma TriedKeepsLevels(s: State, id: nat)
    requires id in s.procs
    ensures Tried(s, id).mem == s.mem && Tried(s, id).frozen == s.frozen
  {
    hide AllLevels, Granted, Holding;
  }

  /** In every run the mem table stays within its size and frozen ones exceed it by one. */
  lemma {:induction false} EveryFreeze(s: State, actions: seq<Action>, maxRecords: nat, end: State)
    requires Filled(s, maxRecords) && Run(s, actions, maxRecords, end)
    ensures Filled(end, maxRecords)
    decreases |actions|
  {
    hide Filled, Apply, Enabled;
    if actions != [] {
      StepFills(s, actions[0], maxRecords);
      EveryFreeze(Apply(s, actions[0], maxRecords), actions[1..], maxRecords, end);
    }
  }

  /** In every run: the tree holds each inserted record exactly once; the mem table that a
      publish pops is the one in its file; Flush and Compact never overlap; and a Get that
      ends has read, newest level first, the levels of the instant at which it started,
      which are still the levels at its end. */
  lemma EveryRun(ids: set<nat>, actions: seq<Action>, maxRecords: nat, end: State)
    requires Run(Start(ids), actions, maxRecords, end)
    ensures multiset(Flatten(AllLevels(end))) == multiset(end.inserted)
    ensures forall q, r :: q in end.inserted && r in end.inserted && q.seqNo == r.seqNo ==> q == r
    ensures forall id :: id in end.procs && end.procs[id].FlushHolds? ==>
              end.frozen != [] && end.procs[id].table == end.frozen[0]
    ensures forall i, j :: i in end.procs && j in end.procs && Maintains(end.procs[i]) && Maintains(end.procs[j]) ==> i == j
    ensures forall id :: Enabled(end, GetEnd(id)) ==>
              end.procs[id].snapshot == AllLevels(end)
              && end.procs[id].found == KeyWalk(AllLevels(end), end.procs[id].key)
  {
    hide Flatten, Sorted, AllSorted, KeyWalk, Run, Apply, LocksOk, Maintains, WaitersOk, Holding;
    StartOk(ids);
    RunKeeps(Start(ids), actions, maxRecords, end);
    forall i, j | i in end.procs && j in end.procs && Maintains(end.procs[i]) && Maintains(end.procs[j]) ensures i == j {
      OneMaintainer(end, i, j);
    }
    forall id | id in end.procs && end.procs[id].FlushHolds?
      ensures end.frozen != [] && end.procs[id].table == end.frozen[0]
    {
      assert ProcOk(end, end.procs[id]);
    }
    forall id | Enabled(end, GetEnd(id))
      ensures end.procs[id].snapshot == AllLevels(end)
              && end.procs[id].found == KeyWalk(AllLevels(end), end.procs[id].key)
    {
      var p := end.procs[id];
      assert ProcOk(end, p);
      assert p.snapshot[..|p.snapshot| - p.depth] == [];
      WalkNothing(p.key);
      assert p.found + [] == p.found;
    }
  }

  lemma WalkNothing(key: Bytes)
    ensures KeyWalk([], key) == []
  {}

  // ----- when newer levels hold larger numbers

  /** No pending put is older than what is frozen or in tables. */
  ghost predicate AbovePublished(s: State) {
    forall id, x :: id in s.procs && IsPending(s.procs[id]) && x in Flatten(s.tables + s.frozen) ==>
      x.seqNo < s.procs[id].record.seqNo
  }

  ghost predicate OrderInv(s: State) { Ordered(AllLevels(s)) && AbovePublished(s) }

  predicate Freezes(s: State, a: Action, maxRecords: nat) {
    a.InsertRecord? && a.id in s.procs && s.procs[a.id].PutHolds? && |Insert(s.mem, s.procs[a.id].record)| > maxRecords
  }

  /** A mem table is not frozen while a pending put holds a number below one in it. */
  ghost predicate OrderlyStep(s: State, a: Action, maxRecords: nat) {
    Freezes(s, a, maxRecords) ==>
      forall j, x :: j in s.procs && j != a.id && IsPending(s.procs[j]) && x in Insert(s.mem, s.procs[a.id].record) ==>
        x.seqNo < s.procs[j].record.seqNo
  }

  ghost predicate Orderly(s: State, actions: seq<Action>, maxRecords: nat)
    decreases |actions|
  {
    actions == []
    || (&& Enabled(s, actions[0]) && OrderlyStep(s, actions[0], maxRecords)
        && Orderly(Apply(s, actions[0], maxRecords), actions[1..], maxRecords))
  }

  lemma InsertMember(s: seq<Record>, r: Record)
    ensures r in Insert(s, r) && forall x :: x in Insert(s, r) <==> x == r || x in s
  {
    forall x ensures x in Insert(s, r) <==> x == r || x in s { assert x in multiset(Insert(s, r)) <==> x in Insert(s, r); }
  }

  lemma OrderByInsert(s: State, id: nat, maxRecords: nat)
    requires OrderInv(s) && Enabled(s, InsertRecord(id))
    ensures Ordered(AllLevels(Apply(s, InsertRecord(id), maxRecords)))
  {
    hide Insert, Flatten, Sorted, Released;
    var r, older := s.procs[id].record, s.tables + s.frozen;
    var mem, levels := Insert(s.mem, r), AllLevels(Apply(s, InsertRecord(id), maxRecords));
    assert AllLevels(s)[..|older|] == older && AllLevels(s)[|older|] == s.mem;
    OrderedFront(AllLevels(s));
    InsertSorted(s.mem, r);
    InsertMember(s.mem, r);
    OrderedAppend(older, mem);
    EmptySorted();
    OrderedAppend(older + [mem], []);
    assert levels == older + [mem] + [[]] || levels == older + [mem];
  }

  lemma AboveByInsert(s: State, id: nat, maxRecords: nat)
    requires OrderInv(s) && Enabled(s, InsertRecord(id)) && OrderlyStep(s, InsertRecord(id), maxRecords)
    ensures AbovePublished(Apply(s, InsertRecord(id), maxRecords))
  {
    hide Insert, Flatten, Sorted, Released, Ordered;
    FlattenAppend(s.tables + s.frozen, Insert(s.mem, s.procs[id].record));
    assert s.tables + (s.frozen + [Insert(s.mem, s.procs[id].record)])
        == s.tables + s.frozen + [Insert(s.mem, s.procs[id].record)];
  }

  lemma OrderByCompact(s: State, id: nat, maxRecords: nat)
    requires OrderInv(s) && ProcsOk(s) && Enabled(s, CompactPublish(id))
    ensures OrderInv(Apply(s, CompactPublish(id), maxRecords))
  {
    hide Insert, Flatten, Sorted, Released, KeyWalk;
    assert ProcOk(s, s.procs[id]);
    var out, newer, t := s.procs[id].out, s.frozen + [s.mem], Apply(s, CompactPublish(id), maxRecords);
    assert AllLevels(s) == s.tables + newer && AllLevels(t) == [out] + newer;
    forall j | 0 <= j < |newer| ensures SeqsBelow(out, newer[j]) {
      forall x: Record, y: Record | x in out && y in newer[j] ensures x.seqNo < y.seqNo {
        assert x in multiset(Flatten(s.tables));
        FlattenMember(s.tables, x);
        var i :| 0 <= i < |s.tables| && x in s.tables[i];
        assert AllLevels(s)[i] == s.tables[i] && AllLevels(s)[|s.tables| + j] == newer[j];
        assert SeqsBelow(AllLevels(s)[i], AllLevels(s)[|s.tables| + j]);
      }
    }
    CompactedOrder(s, out);
    FlattenConcat(s.tables, s.frozen);
    FlattenCons(out, s.frozen);
    forall x ensures x in Flatten([out] + s.frozen) ==> x in Flatten(s.tables + s.frozen) {
      assert x in out ==> x in multiset(Flatten(s.tables));
    }
  }

  lemma CompactedOrder(s: State, out: seq<Record>)
    requires Ordered(AllLevels(s)) && Sorted(out)
    requires forall j :: 0 <= j < |s.frozen + [s.mem]| ==> SeqsBelow(out, (s.frozen + [s.mem])[j])
    ensures Ordered([out] + (s.frozen + [s.mem]))
  {
    hide Sorted, SeqsBelow;
    var newer := s.frozen + [s.mem];
    var levels := [out] + newer;
    assert AllLevels(s) == s.tables + newer;
    forall i | 0 <= i < |levels| ensures Sorted(levels[i]) {
      if i > 0 { assert levels[i] == AllLevels(s)[|s.tables| + i - 1]; }
    }
    forall i, j | 0 <= i < j < |levels| ensures SeqsBelow(levels[i], levels[j]) {
      assert levels[j] == newer[j - 1] == AllLevels(s)[|s.tables| + j - 1];
      if i > 0 { assert levels[i] == AllLevels(s)[|s.tables| + i - 1]; }
    }
  }

  /** Numbers in the tree are below the next one. */
  lemma PublishedBelowNext(s: State)
    requires Conserved(s) && SeqsOk(s)
    ensures forall x: Record :: x in Flatten(s.tables + s.frozen) ==> x.seqNo < s.next
  {
    hide Flatten, AllSorted, WaitersOk;
    FlattenAppend(s.tables + s.frozen, s.mem);
    forall x: Record | x in Flatten(s.tables + s.frozen) ensures x.seqNo < s.next {
      assert x in Flatten(AllLevels(s));
      assert x in multiset(Flatten(AllLevels(s)));
      assert x in s.inserted;
    }
  }

  /** Steps that publish nothing leave the order alone. */
  lemma OrderByOther(s: State, a: Action, maxRecords: nat)
    requires Inv(s) && OrderInv(s) && Enabled(s, a) && !a.InsertRecord? && !a.CompactPublish?
    ensures OrderInv(Apply(s, a, maxRecords))
  {
    hide Insert, Select, Sorted, Flatten, KeyWalk, Conserved, SeqsOk, LocksOk, Released, SharedMutexes.TryLock, Ordered, Holding;
    assert ProcOk(s, s.procs[a.id]);
    var t := Apply(s, a, maxRecords);
    if a.FlushPublish? {
      assert AllLevels(t) == AllLevels(s) && t.tables + t.frozen == s.tables + s.frozen;
    } else {
      assert t.tables == s.tables && t.frozen == s.frozen && t.mem == s.mem;
      if a.TakeSeq? { PublishedBelowNext(s); }
    }
  }

  lemma OrderKept(s: State, a: Action, maxRecords: nat)
    requires Inv(s) && OrderInv(s) && Enabled(s, a) && OrderlyStep(s, a, maxRecords)
    ensures OrderInv(Apply(s, a, maxRecords))
  {
    hide Enabled, Apply, Conserved, SeqsOk, LocksOk, AbovePublished, Ordered;
    if a.InsertRecord? {
      OrderByInsert(s, a.id, maxRecords);
      AboveByInsert(s, a.id, maxRecords);
    } else if a.CompactPublish? {
      OrderByCompact(s, a.id, maxRecords);
    } else {
      OrderByOther(s, a, maxRecords);
    }
  }

  lemma {:induction false} OrderlyRunKeeps(s: State, actions: seq<Action>, maxRecords: nat, end: State)
    requires Inv(s) && OrderInv(s) && Run(s, actions, maxRecords, end) && Orderly(s, actions, maxRecords)
    ensures Inv(end) && OrderInv(end)
    decreases |actions|
  {
    hide Inv, OrderInv, OrderlyStep, Apply, Enabled;
    if actions != [] {
      StepKeeps(s, actions[0], maxRecords);
      OrderKept(s, actions[0], maxRecords);
      OrderlyRunKeeps(Apply(s, actions[0], maxRecords), actions[1..], maxRecords, end);
    }
  }

  /** The first record found is the newest of its key, and there is none only if the key has none. */
  ghost predicate FindsNewest(found: seq<Record>, key: Bytes, inserted: set<Record>) {
    && (found == [] <==> forall r :: r in inserted ==> r.key != key)
    && (found != [] ==> found[0] in inserted && found[0].key == key
                        && forall r :: r in inserted && r.key == key ==> r.seqNo <= found[0].seqNo)
  }

  lemma WalkFindsNewest(levels: seq<seq<Record>>, key: Bytes, inserted: set<Record>)
    requires Ordered(levels) && multiset(Flatten(levels)) == multiset(inserted)
    ensures FindsNewest(KeyWalk(levels, key), key, inserted)
  {
    hide Flatten, KeyWalk, Ordered;
    var found := KeyWalk(levels, key);
    KeyWalkSorted(levels, key);
    KeyWalkContents(levels, key);
    forall r: Record ensures r in found <==> r in inserted && r.key == key {
      assert r in found <==> r in multiset(Select(Flatten(levels), KeyRange(key)));
      assert r in Flatten(levels) <==> r in multiset(inserted);
      InKeyRange(key, r.key);
    }
    if found != [] {
      assert found[0] in found;
      forall r | r in found ensures r.seqNo <= found[0].seqNo {
        var i :| 0 <= i < |found| && found[i] == r;
        if i > 0 { assert !Before(found[i], found[0]); }
      }
    }
  }

  /** In every run that never freezes a mem table over an older pending put, newer levels hold only
      larger numbers, and a Get that ends has the newest version of its key first. */
  lemma EveryOrderlyRun(ids: set<nat>, actions: seq<Action>, maxRecords: nat, end: State)
    requires Run(Start(ids), actions, maxRecords, end) && Orderly(Start(ids), actions, maxRecords)
    ensures Ordered(AllLevels(end))
    ensures forall id :: Enabled(end, GetEnd(id)) ==> FindsNewest(end.procs[id].found, end.procs[id].key, end.inserted)
  {
    hide Run, Orderly, Apply, FindsNewest, KeyWalk, Flatten, LocksOk, SeqsOk, Holding;
    StartOk(ids);
    StartOrdered(ids);
    OrderlyRunKeeps(Start(ids), actions, maxRecords, end);
    EveryRun(ids, actions, maxRecords, end);
    forall id | Enabled(end, GetEnd(id)) ensures FindsNewest(end.procs[id].found, end.procs[id].key, end.inserted) {
      WalkFindsNewest(AllLevels(end), end.procs[id].key, end.inserted);
    }
  }

  lemma StartOrdered(ids: set<nat>)
    ensures OrderInv(Start(ids))
  {
    assert AllLevels(Start(ids)) == [[]];
  }

  // ----- the condition is needed

  lemma RunPrepend(s: State, a: Action, rest: seq<Action>, maxRecords: nat, end: State)
    requires Enabled(s, a) && Run(Apply(s, a, maxRecords), rest, maxRecords, end)
    ensures Run(s, [a] + rest, maxRecords, end)
  {
    assert ([a] + rest)[1..] == rest;
  }

  /** A waiting put gets the lock that an exclusive holder leaves. */
  lemma NextInLine(m: Mutex, id: nat, j: nat)
    requires SharedMutexes.Inv(m) && id in m.phase && m.phase[id].HoldsExclusive? && j in m.phase && j != id
    ensures Holding(m, id) && Awake(Released(m, id), j)
    ensures Holding(SharedMutexes.TryLock(Released(m, id), j, true), j)
  {
    Excludes(m, id, j);
  }

  /** A put whose number is below one in a mem table that is being frozen, as soon as it has its
      turn, leaves its record in a level newer than that of a larger number. */
  lemma StrandedPut(s: State, id: nat, j: nat, x: Record, maxRecords: nat) returns (end: State)
    requires Inv(s) && Enabled(s, InsertRecord(id)) && Freezes(s, InsertRecord(id), maxRecords)
    requires j in s.procs && j != id && IsPending(s.procs[j])
    requires x in Insert(s.mem, s.procs[id].record) && x.seqNo > s.procs[j].record.seqNo
    ensures Run(s, [InsertRecord(id)] + ([Attempt(j)] + ([InsertRecord(j)] + [])), maxRecords, end)
    ensures !Ordered(AllLevels(end))
  {
    hide Insert, Run, Flatten, Ordered, Conserved, SeqsOk, ProcsOk, Released, SharedMutexes.TryLock, SharedMutexes.Inv;
    LocksAt(s, id);
    LocksAt(s, j);
    NextInLine(s.shared, id, j);
    Excludes(s.shared, id, j);
    var r := s.procs[j].record;
    var t := Apply(s, InsertRecord(id), maxRecords);
    assert t.procs[j] == s.procs[j] == PutWaits(r) && t.shared == Released(s.shared, id);
    var u := Apply(t, Attempt(j), maxRecords);
    assert u.procs[j] == PutHolds(r) && Holding(u.shared, j);
    end := Apply(u, InsertRecord(j), maxRecords);
    NothingMore(end, maxRecords);
    RunPrepend(u, InsertRecord(j), [], maxRecords, end);
    RunPrepend(t, Attempt(j), [InsertRecord(j)] + [], maxRecords, end);
    RunPrepend(s, InsertRecord(id), [Attempt(j)] + ([InsertRecord(j)] + []), maxRecords, end);
    InsertMember([], r);
    assert AllLevels(end) == s.tables + s.frozen + [Insert(s.mem, s.procs[id].record)] + [Insert([], r)]
        || AllLevels(end) == s.tables + s.frozen + [Insert(s.mem, s.procs[id].record)] + [Insert([], r)] + [[]];
    Disordered(s.tables + s.frozen, Insert(s.mem, s.procs[id].record), Insert([], r), x, r);
  }

  lemma Disordered(older: seq<seq<Record>>, frozen: seq<Record>, mem: seq<Record>, x: Record, r: Record)
    requires x in frozen && r in mem && r.seqNo < x.seqNo
    ensures !Ordered(older + [frozen] + [mem]) && !Ordered(older + [frozen] + [mem] + [[]])
  {
    hide Sorted;
    var levels := older + [frozen] + [mem];
    assert levels[|older|] == frozen && levels[|older| + 1] == mem;
    assert (levels + [[]])[|older|] == frozen && (levels + [[]])[|older| + 1] == mem;
    assert !SeqsBelow(frozen, mem);
  }

  lemma NothingMore(s: State, maxRecords: nat)
    ensures Run(s, [], maxRecords, s)
  {}

  /** Three coroutines over an empty tree: two Puts and a Get. */
  function Three(shared: Mutex, p0: Proc, p1: Proc, p2: Proc, next: int): State {
    State([], [], [], next, shared, SharedMutexes.Start({0, 1, 2}), map[0 := p0, 1 := p1, 2 := p2], {})
  }

  function Phases(state: int, waiters: seq<nat>, q0: Phase, q1: Phase, q2: Phase): Mutex {
    SharedMutexes.Mutex(state, waiters, map[0 := q0, 1 := q1, 2 := q2])
  }

  lemma TwoSteps(s: State, a: Action, b: Action, maxRecords: nat) returns (end: State)
    requires Enabled(s, a) && Enabled(Apply(s, a, maxRecords), b)
    ensures end == Apply(Apply(s, a, maxRecords), b, maxRecords) && Run(s, [a] + ([b] + []), maxRecords, end)
  {
    hide Enabled, Apply;
    var t := Apply(s, a, maxRecords);
    end := Apply(t, b, maxRecords);
    NothingMore(end, maxRecords);
    RunPrepend(t, b, [], maxRecords, end);
    RunPrepend(s, a, [b] + [], maxRecords, end);
  }

  lemma ThreeStart()
    ensures Start({0, 1, 2})
         == Three(Phases(0, [], SharedMutexes.Idle, SharedMutexes.Idle, SharedMutexes.Idle), Idle, Idle, Idle, 1)
  {}

  /** A Get takes the shared lock. */
  lemma ReaderComes(key: Bytes) returns (end: State)
    ensures end == Three(Phases(1, [], SharedMutexes.Idle, SharedMutexes.Idle, SharedMutexes.HoldsShared),
                         Idle, Idle, GetReads(key, 0, [], [[]]), 1)
    ensures Run(Start({0, 1, 2}), [GetStart(2, key)] + ([Attempt(2)] + []), 0, end)
  {
    hide Run, Start;
    var s := Start({0, 1, 2});
    ThreeStart();
    assert AllLevels(Apply(s, GetStart(2, key), 0)) == [[]];
    end := TwoSteps(s, GetStart(2, key), Attempt(2), 0);
    assert end.procs == map[0 := Idle, 1 := Idle, 2 := GetReads(key, 0, [], [[]])];
  }

  /** Put 0 takes number 1, finds the lock taken and sleeps. */
  lemma PutSleeps(key: Bytes, value: Bytes, s: State) returns (end: State)
    requires s == Three(Phases(1, [], SharedMutexes.Idle, SharedMutexes.Idle, SharedMutexes.HoldsShared),
                        Idle, Idle, GetReads(key, 0, [], [[]]), 1)
    ensures end == Three(Phases(1, [0], SharedMutexes.Asleep(true), SharedMutexes.Idle, SharedMutexes.HoldsShared),
                         PutWaits(Record(key, 1, value)), Idle, GetReads(key, 0, [], [[]]), 2)
    ensures Run(s, [TakeSeq(0, key, value)] + ([Attempt(0)] + []), 0, end)
  {
    hide Run;
    end := TwoSteps(s, TakeSeq(0, key, value), Attempt(0), 0);
    assert end.procs == map[0 := PutWaits(Record(key, 1, value)), 1 := Idle, 2 := GetReads(key, 0, [], [[]])];
  }

  /** The Get ends and wakes Put 0. */
  lemma ReaderLeaves(key: Bytes, first: Proc, s: State) returns (end: State)
    requires s == Three(Phases(1, [0], SharedMutexes.Asleep(true), SharedMutexes.Idle, SharedMutexes.HoldsShared),
                        first, Idle, GetReads(key, 0, [], [[]]), 2)
    ensures end == Three(Phases(0, [], SharedMutexes.Woken(true), SharedMutexes.Idle, SharedMutexes.Idle), first, Idle, Idle, 2)
    ensures Run(s, [GetRead(2)] + ([GetEnd(2)] + []), 0, end)
  {
    hide Run, Released, Enabled, Apply, AllLevels;
    var m := Phases(1, [0], SharedMutexes.Asleep(true), SharedMutexes.Idle, SharedMutexes.HoldsShared);
    ReaderReleases();
    ReaderReads(m, first, key);
    ReaderEnds(m, first, key);
    end := TwoSteps(s, GetRead(2), GetEnd(2), 0);
  }

  lemma ReaderReads(m: Mutex, first: Proc, key: Bytes)
    ensures var s := Three(m, first, Idle, GetReads(key, 0, [], [[]]), 2);
            && Enabled(s, GetRead(2))
            && Apply(s, GetRead(2), 0) == Three(m, first, Idle, GetReads(key, 1, [], [[]]), 2)
  {
    var s := Three(m, first, Idle, GetReads(key, 0, [], [[]]), 2);
    assert AllLevels(s) == [[]];
    assert Apply(s, GetRead(2), 0).procs == s.procs[2 := GetReads(key, 1, [] + [], [[]])];
  }

  lemma ReaderEnds(m: Mutex, first: Proc, key: Bytes)
    requires Holding(m, 2)
    ensures var s := Three(m, first, Idle, GetReads(key, 1, [], [[]]), 2);
            Enabled(s, GetEnd(2)) && Apply(s, GetEnd(2), 0) == Three(Released(m, 2), first, Idle, Idle, 2)
  {
    hide Released;
    var s := Three(m, first, Idle, GetReads(key, 1, [], [[]]), 2);
    assert AllLevels(s) == [[]];
    assert Apply(s, GetEnd(2), 0).procs == s.procs[2 := Idle];
  }

  lemma ReaderReleases()
    ensures var m := Phases(1, [0], SharedMutexes.Asleep(true), SharedMutexes.Idle, SharedMutexes.HoldsShared);
            && Holding(m, 2)
            && Released(m, 2) == Phases(0, [], SharedMutexes.Woken(true), SharedMutexes.Idle, SharedMutexes.Idle)
  {}

  /** Before Put 0 runs again, Put 1 takes number 2 and the lock. */
  lemma PutOvertakes(key: Bytes, value: Bytes, first: Proc, s: State) returns (end: State)
    requires s == Three(Phases(0, [], SharedMutexes.Woken(true), SharedMutexes.Idle, SharedMutexes.Idle), first, Idle, Idle, 2)
    ensures end == Three(Phases(-1, [], SharedMutexes.Woken(true), SharedMutexes.HoldsExclusive, SharedMutexes.Idle),
                         first, PutHolds(Record(key, 2, value)), Idle, 3)
    ensures Run(s, [TakeSeq(1, key, value)] + ([Attempt(1)] + []), 0, end)
  {
    hide Run;
    end := TwoSteps(s, TakeSeq(1, key, value), Attempt(1), 0);
    assert end.procs == map[0 := first, 1 := PutHolds(Record(key, 2, value)), 2 := Idle];
  }

  lemma {:induction false} RunConcat(s: State, a: seq<Action>, mid: State, b: seq<Action>, end: State, maxRecords: nat)
    requires Run(s, a, maxRecords, mid) && Run(mid, b, maxRecords, end)
    ensures Run(s, a + b, maxRecords, end)
    decreases |a|
  {
    hide Enabled, Apply;
    if a == [] {
      assert a + b == b;
    } else {
      RunConcat(Apply(s, a[0], maxRecords), a[1..], mid, b, end, maxRecords);
      assert (a + b)[0] == a[0] && (a + b)[1..] == a[1..] + b;
    }
  }

  /** A put takes its number before it waits, so newer levels may hold smaller numbers: a put that
      sleeps while a Get reads is overtaken by the next one, with a freeze in between. */
  lemma PutsMayInsertOutOfOrder(key: Bytes, value: Bytes) returns (actions: seq<Action>, end: State)
    ensures Run(Start({0, 1, 2}), actions, 0, end) && !Ordered(AllLevels(end))
  {
    hide Run, Ordered, Inv, Apply, Start, Insert, Freezes;
    var first, second := Record(key, 1, value), Record(key, 2, value);
    var s2 := ReaderComes(key);
    var s4 := PutSleeps(key, value, s2);
    var s6 := ReaderLeaves(key, PutWaits(first), s4);
    var s8 := PutOvertakes(key, value, PutWaits(first), s6);
    actions := [GetStart(2, key)] + ([Attempt(2)] + []);
    RunConcat(Start({0, 1, 2}), actions, s2, [TakeSeq(0, key, value)] + ([Attempt(0)] + []), s4, 0);
    actions := actions + ([TakeSeq(0, key, value)] + ([Attempt(0)] + []));
    RunConcat(Start({0, 1, 2}), actions, s4, [GetRead(2)] + ([GetEnd(2)] + []), s6, 0);
    actions := actions + ([GetRead(2)] + ([GetEnd(2)] + []));
    RunConcat(Start({0, 1, 2}), actions, s6, [TakeSeq(1, key, value)] + ([Attempt(1)] + []), s8, 0);
    actions := actions + ([TakeSeq(1, key, value)] + ([Attempt(1)] + []));
    end := Strands(s8, first, second, actions);
    RunConcat(Start({0, 1, 2}), actions, s8, [InsertRecord(1)] + ([Attempt(0)] + ([InsertRecord(0)] + [])), end, 0);
    actions := actions + ([InsertRecord(1)] + ([Attempt(0)] + ([InsertRecord(0)] + [])));
  }

  lemma Strands(s: State, first: Record, second: Record, actions: seq<Action>) returns (end: State)
    requires s == Three(Phases(-1, [], SharedMutexes.Woken(true), SharedMutexes.HoldsExclusive, SharedMutexes.Idle),
                        PutWaits(first), PutHolds(second), Idle, 3)
    requires first.seqNo < second.seqNo && Run(Start({0, 1, 2}), actions, 0, s)
    ensures Run(s, [InsertRecord(1)] + ([Attempt(0)] + ([InsertRecord(0)] + [])), 0, end) && !Ordered(AllLevels(end))
  {
    hide Run, Ordered, Inv, Apply, Start, Insert;
    StartOk({0, 1, 2});
    RunKeeps(Start({0, 1, 2}), actions, 0, s);
    InsertMember([], second);
    OneInserted(second);
    end := StrandedPut(s, 1, 0, second, 0);
  }

  lemma OneInserted(r: Record)
    ensures |Insert([], r)| == 1
  {}
}
