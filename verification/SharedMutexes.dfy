/** io::SharedMutex under every interleaving. A coroutine runs alone between two
    suspension points; waking only schedules it, so it tests its predicate again later. */
module SharedMutexes {

  datatype Phase = Idle | Asleep(exclusive: bool) | Woken(exclusive: bool) | HoldsShared | HoldsExclusive

  /** `state` is the number of shared holders, or -1 for an exclusive one. */
  datatype Mutex = Mutex(state: int, waiters: seq<nat>, phase: map<nat, Phase>)

  datatype Step = Lock(id: nat, exclusive: bool) | Retry(id: nat) | Unlock(id: nat)

  predicate CanLock(state: int, exclusive: bool) {
    if exclusive then state == 0 else state >= 0
  }

  /** The wait loop: take the lock, or register as a waiter and sleep. */
  function TryLock(m: Mutex, id: nat, exclusive: bool): Mutex {
    if CanLock(m.state, exclusive) then
      Mutex(if exclusive then -1 else m.state + 1, m.waiters,
            m.phase[id := if exclusive then HoldsExclusive else HoldsShared])
    else Mutex(m.state, m.waiters + [id], m.phase[id := Asleep(exclusive)])
  }

  /** NotifyWaiters empties the queue and schedules every waiter. */
  function WakeAll(phase: map<nat, Phase>, waiters: seq<nat>): (r: map<nat, Phase>)
    ensures r.Keys == phase.Keys
  {
    map t | t in phase :: if t in waiters && phase[t].Asleep? then Woken(phase[t].exclusive) else phase[t]
  }

  predicate Enabled(m: Mutex, s: Step) {
    s.id in m.phase && match s
      case Lock(id, _) => m.phase[id].Idle?
      case Retry(id) => m.phase[id].Woken?
      case Unlock(id) => m.phase[id].HoldsShared? || m.phase[id].HoldsExclusive?
  }

  function Apply(m: Mutex, s: Step): Mutex
    requires Enabled(m, s)
  {
    match s
    case Lock(id, exclusive) => TryLock(m, id, exclusive)
    case Retry(id) => TryLock(m, id, m.phase[id].exclusive)
    case Unlock(id) =>
      var state := if m.phase[id].HoldsShared? then m.state - 1 else 0;
      Mutex(state, [], WakeAll(m.phase[id := Idle], m.waiters))
  }

  ghost function SharedHolders(m: Mutex): set<nat> { set t | t in m.phase && m.phase[t].HoldsShared? }

  ghost predicate Inv(m: Mutex) {
    // an exclusive holder excludes all others, and the state counts the shared ones
    && m.state >= -1
    && (m.state == -1 <==> exists t :: t in m.phase && m.phase[t].HoldsExclusive?)
    && (forall t, u :: t in m.phase && u in m.phase && m.phase[t].HoldsExclusive? && m.phase[u].HoldsExclusive? ==> t == u)
    && (if m.state == -1 then SharedHolders(m) == {} else m.state == |SharedHolders(m)|)
    // the queue holds exactly the sleepers
    && (forall t :: t in m.phase ==> (m.phase[t].Asleep? <==> t in m.waiters))
    // nobody sleeps on a lock that could be taken
    && (forall t :: t in m.phase && m.phase[t].Asleep? ==> !CanLock(m.state, m.phase[t].exclusive))
  }

  lemma TryLockKeeps(m: Mutex, id: nat, exclusive: bool)
    requires Inv(m) && id in m.phase && (m.phase[id].Idle? || m.phase[id].Woken?)
    ensures Inv(TryLock(m, id, exclusive))
  {
    var n := TryLock(m, id, exclusive);
    if CanLock(m.state, exclusive) {
      if exclusive {
        assert n.phase[id].HoldsExclusive?;
        assert SharedHolders(m) == {};
        assert SharedHolders(n) == {};
      } else {
        assert SharedHolders(n) == SharedHolders(m) + {id};
      }
    } else {
      assert SharedHolders(n) == SharedHolders(m);
      if m.state == -1 {
        var t :| t in m.phase && m.phase[t].HoldsExclusive?;
        assert n.phase[t].HoldsExclusive?;
      }
    }
  }

  lemma UnlockKeeps(m: Mutex, id: nat)
    requires Inv(m) && Enabled(m, Unlock(id))
    ensures Inv(Apply(m, Unlock(id)))
    ensures forall t :: t in m.phase && m.phase[t].Asleep? ==> Apply(m, Unlock(id)).phase[t] == Woken(m.phase[t].exclusive)
  {
    var n := Apply(m, Unlock(id));
    if m.phase[id].HoldsShared? {
      assert id in SharedHolders(m);
      assert m.state > 0;
      assert SharedHolders(n) == SharedHolders(m) - {id};
    } else {
      assert SharedHolders(n) == {};
    }
  }

  lemma StepKeeps(m: Mutex, s: Step)
    requires Inv(m) && Enabled(m, s)
    ensures Inv(Apply(m, s))
  {
    match s
    case Lock(id, exclusive) => TryLockKeeps(m, id, exclusive);
    case Retry(id) => TryLockKeeps(m, id, m.phase[id].exclusive);
    case Unlock(id) => UnlockKeeps(m, id);
  }

  function Start(ids: set<nat>): Mutex { Mutex(0, [], map t | t in ids :: Idle) }

  ghost predicate Run(m: Mutex, steps: seq<Step>, end: Mutex)
    decreases |steps|
  {
    if steps == [] then m == end
    else Enabled(m, steps[0]) && Run(Apply(m, steps[0]), steps[1..], end)
  }

  lemma {:induction false} RunKeeps(m: Mutex, steps: seq<Step>, end: Mutex)
    requires Inv(m) && Run(m, steps, end)
    ensures Inv(end)
    decreases |steps|
  {
    if steps != [] {
      StepKeeps(m, steps[0]);
      RunKeeps(Apply(m, steps[0]), steps[1..], end);
    }
  }

  /** Every run of any coroutines: exclusion, an exact count, and no lost wake-up. */
  lemma EveryRun(ids: set<nat>, steps: seq<Step>, end: Mutex)
    requires Run(Start(ids), steps, end)
    ensures forall t, u :: t in end.phase && u in end.phase && end.phase[t].HoldsExclusive? && t != u
              ==> !end.phase[u].HoldsExclusive? && !end.phase[u].HoldsShared?
    ensures end.state == -1 <==> exists t :: t in end.phase && end.phase[t].HoldsExclusive?
    ensures end.state != -1 ==> end.state == |SharedHolders(end)|
    ensures forall t :: t in end.phase && end.phase[t] == Asleep(false) ==>
              exists u :: u in end.phase && end.phase[u].HoldsExclusive?
    ensures end.state == 0 ==> forall t :: t in end.phase ==> !end.phase[t].Asleep?
  {
    assert SharedHolders(Start(ids)) == {};
    RunKeeps(Start(ids), steps, end);
    forall t, u | t in end.phase && u in end.phase && end.phase[t].HoldsExclusive? && t != u
      ensures !end.phase[u].HoldsExclusive? && !end.phase[u].HoldsShared?
    {
      assert u !in SharedHolders(end);
    }
  }

  /** The object: `phase` is what the coroutines are doing. */
  class SharedMutex {
    var state: int
    var waiters: seq<nat>
    ghost var phase: map<nat, Phase>

    ghost function Value(): Mutex
      reads this
    {
      Mutex(state, waiters, phase)
    }

    constructor (ghost ids: set<nat>)
      ensures Value() == Start(ids)
    {
      state, waiters, phase := 0, [], map t | t in ids :: Idle;
    }

    /** One pass of the wait loop of LockShared or LockExclusive. */
    method Attempt(id: nat, exclusive: bool) returns (locked: bool)
      requires Inv(Value()) && id in phase && (phase[id].Idle? || phase[id] == Woken(exclusive))
      modifies this
      ensures Inv(Value()) && Value() == TryLock(old(Value()), id, exclusive)
      ensures locked <==> phase[id] == if exclusive then HoldsExclusive else HoldsShared
    {
      TryLockKeeps(Value(), id, exclusive);
      if !CanLock(state, exclusive) {
        waiters := waiters + [id];
        phase := phase[id := Asleep(exclusive)];
        return false;
      }
      state := if exclusive then -1 else state + 1;
      phase := phase[id := if exclusive then HoldsExclusive else HoldsShared];
      return true;
    }

    method UnlockShared(id: nat)
      requires Inv(Value()) && id in phase && phase[id].HoldsShared?
      modifies this
      ensures Inv(Value()) && Value() == Apply(old(Value()), Unlock(id))
    {
      UnlockKeeps(Value(), id);
      state := state - 1;
      phase := WakeAll(phase[id := Idle], waiters);
      waiters := [];
    }

    method UnlockExclusive(id: nat)
      requires Inv(Value()) && id in phase && phase[id].HoldsExclusive?
      modifies this
      ensures Inv(Value()) && Value() == Apply(old(Value()), Unlock(id))
    {
      UnlockKeeps(Value(), id);
      state := 0;
      phase := WakeAll(phase[id := Idle], waiters);
      waiters := [];
    }
  }
}
