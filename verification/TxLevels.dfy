/** Transactions over the levels of their tree: when a walk over the levels, newest first, finds
    the versions of a row in the order of their sequence numbers, whatever the interleaving. */
module TxLevels {
  import opened ByteStrings
  import opened Buffers
  import opened Records
  import opened Sequences
  import opened Levels
  import opened Trees
  import opened TxValues
  import TxStorage
  import opened TxTables
  import opened TxRuns

  /** The levels oldest first; the last one is the mem table. */
  datatype Store = Store(s: State, levels: seq<seq<Record>>)

  /** A Put may fill the mem table, which is then frozen. A merge replaces the oldest levels by
      one with copies of some of their records. */
  datatype Move =
    | Other(a: Action)
    | PutInto(id: nat, freeze: bool)
    | Merge(k: nat, out: seq<Record>)

  ghost function Added(levels: seq<seq<Record>>, r: Record, freeze: bool): seq<seq<Record>>
    requires levels != []
  {
    var filled := levels[..|levels| - 1] + [Insert(levels[|levels| - 1], r)];
    if freeze then filled + [[]] else filled
  }

  function Merged(levels: seq<seq<Record>>, k: nat, out: seq<Record>): seq<seq<Record>>
    requires k < |levels|
  {
    [out] + levels[k..]
  }

  /** What a move does to the log. */
  ghost function ActionOf(st: Store, m: Move): Action
    requires m.Merge? ==> m.k < |st.levels|
  {
    match m
    case Other(a) => a
    case PutInto(id, freeze) => Put(id)
    case Merge(k, out) => Compact(Chronicle(Flatten(Merged(st.levels, k, out))))
  }

  ghost predicate CanMove(st: Store, m: Move) {
    match m
    case Other(a) => Enabled(st.s, a) && !a.Put? && !a.Compact?
    case PutInto(id, freeze) => Enabled(st.s, Put(id)) && st.levels != []
    case Merge(k, out) =>
      && k < |st.levels| && Sorted(out) && Enabled(st.s, ActionOf(st, m))
      && forall x :: x in out ==> exists y :: y in Flatten(st.levels[..k]) && CopyOf(x, y, st.s.status)
  }

  ghost function Moved(st: Store, m: Move): Store
    requires CanMove(st, m)
  {
    var levels := match m
      case Other(a) => st.levels
      case PutInto(id, freeze) => Added(st.levels, Version(st.s.wants[id], st.s.numbers[id]), freeze)
      case Merge(k, out) => Merged(st.levels, k, out);
    Store(Apply(st.s, ActionOf(st, m)), levels)
  }

  ghost predicate Moves(st: Store, moves: seq<Move>, end: Store)
    decreases |moves|
  {
    if moves == [] then st == end else CanMove(st, moves[0]) && Moves(Moved(st, moves[0]), moves[1..], end)
  }

  function Start(ids: set<nat>): Store { Store(Fresh(ids), [[]]) }

  // ----- the levels hold the log

  ghost predicate EachSorted(levels: seq<seq<Record>>) {
    forall i :: 0 <= i < |levels| ==> Sorted(levels[i])
  }

  ghost predicate HoldsLog(st: Store) {
    st.levels != [] && EachSorted(st.levels) && multiset(Flatten(st.levels)) == multiset(st.s.log)
  }

  lemma FlattenLast(levels: seq<seq<Record>>)
    requires levels != []
    ensures Flatten(levels) == Flatten(levels[..|levels| - 1]) + levels[|levels| - 1]
  {}

  lemma AddedContents(levels: seq<seq<Record>>, r: Record, freeze: bool)
    requires levels != []
    ensures multiset(Flatten(Added(levels, r, freeze))) == multiset(Flatten(levels)) + multiset{r}
  {
    var front, last := levels[..|levels| - 1], levels[|levels| - 1];
    var filled := front + [Insert(last, r)];
    FlattenLast(levels);
    FlattenAppend(front, Insert(last, r));
    FlattenAppend(filled, []);
    hide Insert, Flatten;
    assert Flatten(filled) + [] == Flatten(filled);
  }

  lemma AddedSorted(levels: seq<seq<Record>>, r: Record, freeze: bool)
    requires levels != [] && EachSorted(levels)
    ensures EachSorted(Added(levels, r, freeze))
  {
    hide Insert;
    InsertSorted(levels[|levels| - 1], r);
  }

  lemma MoveHoldsLog(st: Store, m: Move)
    requires HoldsLog(st) && CanMove(st, m)
    ensures HoldsLog(Moved(st, m))
  {
    hide Insert, Flatten, Sorted, InsertBySeq, CopyOf;
    match m
    case Other(a) => OtherKeepsLog(st.s, a);
    case PutInto(id, freeze) =>
      var v := Version(st.s.wants[id], st.s.numbers[id]);
      AddedContents(st.levels, v, freeze);
      AddedSorted(st.levels, v, freeze);
    case Merge(k, out) =>
      var levels := Merged(st.levels, k, out);
      forall i | 0 <= i < |levels| ensures Sorted(levels[i]) {
        if i > 0 { assert levels[i] == st.levels[k + i - 1]; }
      }
  }

  lemma OtherKeepsLog(s: State, a: Action)
    requires Enabled(s, a) && !a.Put? && !a.Compact?
    ensures Apply(s, a).log == s.log
  {}

  // ----- what every disciplined run keeps

  /** Each write with a number holds its row, is the only one for it and is newer than the row. */
  ghost predicate OneWriter(s: State) {
    && (forall id :: id in s.numbers && id in s.wants ==> Holds(s.locks, s.wants[id].key, s.wants[id].tx))
    && (forall i, j :: i in s.numbers && j in s.numbers && i in s.wants && j in s.wants && i != j ==>
          s.wants[i].key != s.wants[j].key)
    && (forall id, r :: id in s.numbers && id in s.wants && r in s.log && r.key == s.wants[id].key ==>
          r.seqNo < s.numbers[id])
  }

  /** Locks are not released under a write that has taken its number. */
  ghost predicate Awaits(s: State, a: Action) {
    a.ReleaseCommitted? || a.Rollback? ==> forall id :: id in s.numbers && id in s.wants ==> s.wants[id].tx != a.tx
  }

  ghost predicate Disciplined(st: Store, moves: seq<Move>, end: Store)
    requires Moves(st, moves, end)
    decreases |moves|
  {
    moves != [] ==>
      Awaits(st.s, ActionOf(st, moves[0])) && Disciplined(Moved(st, moves[0]), moves[1..], end)
  }

  lemma AskedOneWriter(s: State, id: nat, w: Write)
    requires TxStorage.Inv(s.locks) && LogOk(s) && OneWriter(s) && MayAsk(s, id, w)
    ensures OneWriter(Asked(s, id, w))
  {
    hide TxStorage.Inv, Parse, Val, TxStorage.TryAcquire, Chronological, FrozenAreCommitted, WellFormed;
    AskedLocks(s.locks, id, w.tx, w.key);
    var t := Asked(s, id, w);
    assert forall i :: i in s.numbers && i in s.wants && s.wants[i].key == w.key ==> w.key in s.locks.rowLocks;
    assert forall i :: i in t.numbers && i in t.wants && i != id ==> i in s.numbers && i in s.wants && t.wants[i] == s.wants[i];
  }

  lemma PutOneWriter(s: State, id: nat)
    requires WaitsOk(s) && OneWriter(s) && Enabled(s, Put(id))
    ensures OneWriter(Apply(s, Put(id)))
  {
    hide Parse, Val, InsertBySeq, Holds, RowOf;
    PutVersion(s.wants[id], s.numbers[id]);
    InsertedMembers(s.log, Version(s.wants[id], s.numbers[id]));
  }

  lemma ReleasedOneWriter(s: State, tx: int)
    requires TxStorage.Inv(s.locks) && OneWriter(s) && forall id :: id in s.numbers && id in s.wants ==> s.wants[id].tx != tx
    ensures OneWriter(s.(locks := TxStorage.Release(s.locks, tx)))
  {
    ReleasedLocks(s.locks, tx);
    hide TxStorage.Inv, TxStorage.Release, Holds;
  }

  lemma CompactedOneWriter(s: State, out: seq<Record>)
    requires OneWriter(s) && Enabled(s, Compact(out))
    ensures OneWriter(s.(log := out))
  {
    hide Holds, Parse, Val;
    forall id, x | id in s.numbers && id in s.wants && x in out && x.key == s.wants[id].key
      ensures x.seqNo < s.numbers[id]
    {
      var y := CompactedFrom(s, out, x);
    }
  }

  lemma OneWriterKept(s: State, a: Action)
    requires RunInv(s) && OneWriter(s) && Enabled(s, a) && Awaits(s, a)
    ensures OneWriter(Apply(s, a))
  {
    hide TxStorage.Inv, NumbersOk, RowOrder, WritersHold, VersionsHold, LogOk, Asked, InsertBySeq, TxStorage.Release, Compacted;
    match a
    case Begin =>
    case Ask(id, w) =>
      MayAskNow(s, a);
      AskedOneWriter(s, id, w);
    case AskAgain(id) =>
      MayAskNow(s, a);
      AskedOneWriter(s, id, s.wants[id]);
    case Put(id) => PutOneWriter(s, id);
    case MarkCommitted(tx) =>
    case ReleaseCommitted(tx) => ReleasedOneWriter(s, tx);
    case Rollback(tx) => ReleasedOneWriter(s.(status := s.status[tx := TxStorage.RolledBack]), tx);
    case Compact(out) => CompactedOneWriter(s, out);
  }

  // ----- the order of the levels, row by row

  ghost predicate RowsBelow(a: seq<Record>, b: seq<Record>) {
    forall x, y :: x in a && y in b && x.key == y.key ==> x.seqNo < y.seqNo
  }

  ghost predicate RowsOrdered(levels: seq<seq<Record>>) {
    forall i, j :: 0 <= i < j < |levels| ==> RowsBelow(levels[i], levels[j])
  }

  lemma RowsOrderedFront(levels: seq<seq<Record>>)
    requires RowsOrdered(levels) && levels != []
    ensures RowsOrdered(levels[..|levels| - 1])
    ensures RowsBelow(Flatten(levels[..|levels| - 1]), levels[|levels| - 1])
  {
    var front, last := levels[..|levels| - 1], levels[|levels| - 1];
    hide RowsBelow;
    assert forall i :: 0 <= i < |front| ==> front[i] == levels[i];
    forall x, y | x in Flatten(front) && y in last && x.key == y.key ensures x.seqNo < y.seqNo {
      FlattenMember(front, x);
      var i :| 0 <= i < |front| && x in front[i];
      assert RowsBelow(levels[i], levels[|levels| - 1]);
      RowBelow(levels[i], last, x, y);
    }
    BelowRows(Flatten(front), last);
  }

  lemma RowBelow(a: seq<Record>, b: seq<Record>, x: Record, y: Record)
    requires RowsBelow(a, b) && x in a && y in b && x.key == y.key
    ensures x.seqNo < y.seqNo
  {}

  lemma BelowRows(a: seq<Record>, b: seq<Record>)
    requires forall x, y :: x in a && y in b && x.key == y.key ==> x.seqNo < y.seqNo
    ensures RowsBelow(a, b)
  {}

  /** Levels in order row by row are walked in order. */
  lemma {:induction false} RowWalkSorted(levels: seq<seq<Record>>, key: Bytes)
    requires EachSorted(levels) && RowsOrdered(levels)
    ensures Sorted(KeyWalk(levels, key))
  {
    if levels != [] {
      var front, last := levels[..|levels| - 1], levels[|levels| - 1];
      RowsOrderedFront(levels);
      RowWalkSorted(front, key);
      SelectSorted(last, KeyRange(key));
      KeyWalkContents(front, key);
      var older := KeyWalk(front, key);
      forall x, y | x in Select(last, KeyRange(key)) && y in older ensures !Before(y, x) {
        assert y in multiset(older);
        assert y in Select(Flatten(front), KeyRange(key));
        InKeyRange(key, x.key);
        InKeyRange(key, y.key);
      }
      SortedConcat(Select(last, KeyRange(key)), older);
    }
  }

  lemma RowWalkIsVersions(levels: seq<seq<Record>>, log: seq<Record>, key: Bytes)
    requires EachSorted(levels) && Chronological(log) && multiset(Flatten(levels)) == multiset(log)
    ensures Sorted(KeyWalk(levels, key)) <==> KeyWalk(levels, key) == Versions(log, key)
  {
    VersionsNewestFirst(log, key);
    VersionsContents(log, key);
    KeyWalkContents(levels, key);
    SelectSame(log, Flatten(levels), KeyRange(key));
    if Sorted(KeyWalk(levels, key)) { SortedUnique(KeyWalk(levels, key), Versions(log, key)); }
  }

  // ----- each move keeps the order

  lemma AddedInOrder(levels: seq<seq<Record>>, r: Record, freeze: bool)
    requires levels != [] && RowsOrdered(levels)
    requires forall x :: x in Flatten(levels[..|levels| - 1]) && x.key == r.key ==> x.seqNo < r.seqNo
    ensures RowsOrdered(Added(levels, r, freeze))
  {
    hide Insert, Flatten;
    var front, last := levels[..|levels| - 1], levels[|levels| - 1];
    var added := Added(levels, r, freeze);
    InsertMembers(last, r);
    forall i, j | 0 <= i < j < |added| ensures RowsBelow(added[i], added[j]) {
      if j < |levels| {
        assert RowsBelow(levels[i], levels[j]);
        forall x | x in front[i] ensures x in Flatten(front) { FlattenMember(front, x); }
      }
    }
  }

  lemma MergedInOrder(levels: seq<seq<Record>>, k: nat, out: seq<Record>)
    requires k < |levels| && RowsOrdered(levels)
    requires forall x :: x in out ==> exists y :: y in Flatten(levels[..k]) && y.key == x.key && y.seqNo == x.seqNo
    ensures RowsOrdered(Merged(levels, k, out))
  {
    hide RowsBelow, Flatten;
    var merged := Merged(levels, k, out);
    forall i, j | 0 <= i < j < |merged| ensures RowsBelow(merged[i], merged[j]) {
      var newer := levels[k + j - 1];
      if i > 0 {
        assert RowsBelow(levels[k + i - 1], newer);
      } else {
        forall x, z | x in out && z in newer && x.key == z.key ensures x.seqNo < z.seqNo {
          var y :| y in Flatten(levels[..k]) && y.key == x.key && y.seqNo == x.seqNo;
          FlattenMember(levels[..k], y);
          var p :| 0 <= p < k && y in levels[..k][p];
          assert RowsBelow(levels[p], newer);
          RowBelow(levels[p], newer, y, z);
        }
        BelowRows(out, newer);
      }
    }
  }

  lemma MoveInOrder(st: Store, m: Move)
    requires WaitsOk(st.s) && HoldsLog(st) && RowsOrdered(st.levels) && OneWriter(st.s) && CanMove(st, m)
    ensures RowsOrdered(Moved(st, m).levels)
  {
    hide RowsOrdered, Flatten, EachSorted, Holds, Val, Parse, WaitsOk, InsertBySeq;
    match m
    case Other(a) =>
    case PutInto(id, freeze) =>
      var v := Version(st.s.wants[id], st.s.numbers[id]);
      VersionFields(st.s, id);
      forall x | x in Flatten(st.levels[..|st.levels| - 1]) && x.key == v.key ensures x.seqNo < v.seqNo {
        FlattenLast(st.levels);
        assert x in multiset(Flatten(st.levels));
      }
      AddedInOrder(st.levels, v, freeze);
    case Merge(k, out) =>
      forall x | x in out ensures exists y :: y in Flatten(st.levels[..k]) && y.key == x.key && y.seqNo == x.seqNo {
        var y :| y in Flatten(st.levels[..k]) && CopyOf(x, y, st.s.status);
      }
      MergedInOrder(st.levels, k, out);
  }

  lemma VersionFields(s: State, id: nat)
    requires WaitsOk(s) && Enabled(s, Put(id))
    ensures Version(s.wants[id], s.numbers[id]).key == s.wants[id].key
    ensures Version(s.wants[id], s.numbers[id]).seqNo == s.numbers[id]
  {
    PutVersion(s.wants[id], s.numbers[id]);
  }

  // ----- all runs

  ghost predicate StoreInv(st: Store) { RunInv(st.s) && HoldsLog(st) }

  ghost predicate OrderInv(st: Store) { StoreInv(st) && OneWriter(st.s) && RowsOrdered(st.levels) }

  lemma MoveKeeps(st: Store, m: Move)
    requires StoreInv(st) && CanMove(st, m)
    ensures StoreInv(Moved(st, m))
    ensures OrderInv(st) && Awaits(st.s, ActionOf(st, m)) ==> OrderInv(Moved(st, m))
  {
    hide HoldsLog, OneWriter, RowsOrdered, TxStorage.Inv, WritersHold, VersionsHold, LogOk, NumbersOk, RowOrder, WaitsOk, Enabled,
      Apply, EachSorted, Flatten, Sorted, Awaits, Added, Merged;
    CanAct(st, m);
    ActionKeeps(st.s, ActionOf(st, m));
    MoveHoldsLog(st, m);
    if OrderInv(st) && Awaits(st.s, ActionOf(st, m)) {
      OneWriterKept(st.s, ActionOf(st, m));
      MoveInOrder(st, m);
    }
  }

  lemma CanAct(st: Store, m: Move)
    requires CanMove(st, m)
    ensures Enabled(st.s, ActionOf(st, m))
  {}

  lemma StartOrdered(ids: set<nat>)
    ensures OrderInv(Start(ids))
  {
    FreshInv(ids);
    hide RunInv;
    var levels := Start(ids).levels;
    assert Flatten(levels) == Flatten(levels[..0]) + [] == [];
  }

  lemma {:induction false} MovesKeep(st: Store, moves: seq<Move>, end: Store)
    requires StoreInv(st) && Moves(st, moves, end)
    ensures StoreInv(end)
    ensures OrderInv(st) && Disciplined(st, moves, end) ==> OrderInv(end)
    decreases |moves|
  {
    hide StoreInv, OrderInv, CanMove, Moved, Awaits;
    if moves != [] {
      MoveKeeps(st, moves[0]);
      MovesKeep(Moved(st, moves[0]), moves[1..], end);
    }
  }

  /** In every run that releases no lock under a write with a number, a walk over the levels finds
      the versions of a row in the order of the log, whatever the interleaving: lookups over the
      levels are lookups over the log. */
  lemma DisciplinedWalk(ids: set<nat>, moves: seq<Move>, end: Store, key: Bytes)
    requires Moves(Start(ids), moves, end) && Disciplined(Start(ids), moves, end)
    ensures KeyWalk(end.levels, key) == Versions(end.s.log, key)
  {
    hide Moves, Disciplined, Versions, KeyWalk, RowsOrdered, OneWriter;
    StartOrdered(ids);
    MovesKeep(Start(ids), moves, end);
    RowWalkSorted(end.levels, key);
    RowWalkIsVersions(end.levels, end.s.log, key);
  }

  // ----- one Put, exactly

  lemma OlderComesAfter(levels: seq<seq<Record>>, r: Record, freeze: bool, x: Record)
    requires levels != [] && x in Flatten(levels[..|levels| - 1]) && x.key == r.key && r.seqNo < x.seqNo
    ensures !Sorted(KeyWalk(Added(levels, r, freeze), r.key))
  {
    hide Insert, Sorted, Select, Flatten;
    var front, last := levels[..|levels| - 1], levels[|levels| - 1];
    var filled := front + [Insert(last, r)];
    var a, b := Select(Insert(last, r), KeyRange(r.key)), KeyWalk(front, r.key);
    assert filled[..|front|] == front;
    assert KeyWalk(filled, r.key) == a + b;
    EmptyLevel(filled, r.key);
    KeyWalkContents(front, r.key);
    assert r in multiset(Insert(last, r));
    SelectOfKey(Insert(last, r), r, r.key);
    SelectOfKey(Flatten(front), x, r.key);
    assert x in multiset(Select(Flatten(front), KeyRange(r.key)));
    assert x in multiset(b);
    NotSorted(a, b, r, x);
  }

  lemma SelectOfKey(rs: seq<Record>, x: Record, key: Bytes)
    requires x in rs && x.key == key
    ensures x in Select(rs, KeyRange(key))
  {
    InKeyRange(key, key);
    SelectCounts(rs, KeyRange(key), x);
    assert x in multiset(rs);
    assert x in multiset(Select(rs, KeyRange(key)));
  }

  lemma NotSorted(a: seq<Record>, b: seq<Record>, r: Record, x: Record)
    requires r in a && x in b && x.key == r.key && r.seqNo < x.seqNo
    ensures !Sorted(a + b)
  {
    var i :| 0 <= i < |a| && a[i] == r;
    var j :| 0 <= j < |b| && b[j] == x;
    assert (a + b)[i] == r && (a + b)[|a| + j] == x;
    NewerFirst(x, r);
  }

  lemma NewerFirst(x: Record, r: Record)
    requires x.key == r.key && r.seqNo < x.seqNo
    ensures Before(x, r)
  {}

  lemma EmptyLevel(levels: seq<seq<Record>>, key: Bytes)
    ensures KeyWalk(levels + [[]], key) == KeyWalk(levels, key)
  {
    assert (levels + [[]])[..|levels|] == levels;
  }

  lemma AddedWalksExactly(levels: seq<seq<Record>>, r: Record, freeze: bool)
    requires levels != [] && EachSorted(levels) && RowsOrdered(levels)
    requires forall x :: x in Flatten(levels) ==> x.seqNo != r.seqNo
    ensures (Sorted(KeyWalk(Added(levels, r, freeze), r.key)) <==>
               forall x :: x in Flatten(levels[..|levels| - 1]) && x.key == r.key ==> x.seqNo < r.seqNo)
  {
    hide KeyWalk, RowsOrdered, Sorted, EachSorted, Added;
    FlattenLast(levels);
    if x: Record :| x in Flatten(levels[..|levels| - 1]) && x.key == r.key && x.seqNo >= r.seqNo {
      OlderComesAfter(levels, r, freeze, x);
    } else {
      AddedInOrder(levels, r, freeze);
      AddedSorted(levels, r, freeze);
      RowWalkSorted(Added(levels, r, freeze), r.key);
    }
  }

  lemma NumberIsNew(st: Store, id: nat)
    requires StoreInv(st) && Enabled(st.s, Put(id))
    ensures forall x :: x in Flatten(st.levels) ==> x.seqNo != st.s.numbers[id]
  {
    hide Flatten, RowOrder, LogOk, WaitsOk, WritersHold, VersionsHold, TxStorage.Inv, EachSorted;
    forall x | x in Flatten(st.levels) ensures x.seqNo != st.s.numbers[id] {
      assert x in multiset(Flatten(st.levels));
    }
  }

  /** A Put into ordered levels leaves the walk over its row in order exactly when no older level
      has a larger number of that row. */
  lemma PutWalksExactly(st: Store, id: nat, freeze: bool)
    requires StoreInv(st) && RowsOrdered(st.levels) && CanMove(st, PutInto(id, freeze))
    ensures var w, n, end := st.s.wants[id], st.s.numbers[id], Moved(st, PutInto(id, freeze));
            KeyWalk(end.levels, w.key) == Versions(end.s.log, w.key) <==>
              forall x :: x in Flatten(st.levels[..|st.levels| - 1]) && x.key == w.key ==> x.seqNo < n
  {
    hide Flatten, Versions, KeyWalk, RowsOrdered, Sorted, TxStorage.Inv, WritersHold, VersionsHold, NumbersOk, RowOrder,
      EachSorted, InsertBySeq, Added, Chronological, RowOf;
    var end := Moved(st, PutInto(id, freeze));
    VersionFields(st.s, id);
    NumberIsNew(st, id);
    MoveKeeps(st, PutInto(id, freeze));
    RowWalkIsVersions(end.levels, end.s.log, st.s.wants[id].key);
    AddedWalksExactly(st.levels, Version(st.s.wants[id], st.s.numbers[id]), freeze);
  }

  // ----- why the discipline is needed

  lemma MovesPrepend(st: Store, m: Move, rest: seq<Move>, end: Store)
    requires CanMove(st, m) && Moves(Moved(st, m), rest, end)
    ensures Moves(st, [m] + rest, end)
  {
    assert ([m] + rest)[1..] == rest;
  }

  lemma NoMoves(st: Store)
    ensures Moves(st, [], st)
  {}

  function Quiet(rowLocks: map<Bytes, int>, txLocks: map<int, set<Bytes>>): TxStorage.Locks {
    TxStorage.Locks(rowLocks, txLocks, [], map[0 := TxStorage.Idle, 1 := TxStorage.Idle])
  }

  lemma QuietAcquire(id: nat, tx: int, key: Bytes)
    requires id < 2
    ensures TxStorage.TryAcquire(Quiet(map[], map[]), id, tx, key) == Quiet(map[key := tx], map[tx := {key}])
  {
    var m := TxStorage.TryAcquire(Quiet(map[], map[]), id, tx, key);
    assert m.rowLocks == map[key := tx];
    assert {} + {key} == {key} && m.txLocks == map[tx := {key}];
    assert m.phase == map[0 := TxStorage.Idle, 1 := TxStorage.Idle];
  }

  lemma QuietRelease(tx: int, key: Bytes)
    ensures TxStorage.Release(Quiet(map[key := tx], map[tx := {key}]), tx) == Quiet(map[], map[])
  {
    var m := TxStorage.Release(Quiet(map[key := tx], map[tx := {key}]), tx);
    assert m.rowLocks == map[] && m.txLocks == map[] && m.waiters == [];
    assert m.phase == map[0 := TxStorage.Idle, 1 := TxStorage.Idle];
  }

  function Both(first: TxStorage.Status, second: TxStorage.Status): Statuses { map[10 := first, 11 := second] }

  /** Transaction 11 takes number 1 for its write and commits before the record is in the tree. */
  lemma CommitsEarly(w: Write, s: State, later: seq<Move>, end: Store) returns (moves: seq<Move>)
    requires w.tx == 11 && |w.value| <= MAX_INT64
    requires s == State(12, Both(TxStorage.Started, TxStorage.Committed), Quiet(map[], map[]), map[0 := w], map[0 := 1], [], 2)
    requires Moves(Store(s, [[]]), later, end)
    ensures Moves(Start({0, 1}), moves, end)
  {
    hide Moves, TxStorage.TryAcquire, TxStorage.Release;
    var s0 := Fresh({0, 1});
    assert s0.locks == Quiet(map[], map[]);
    var s1 := Apply(s0, Begin);
    var s2 := Apply(s1, Begin);
    assert s2.status == Both(TxStorage.Started, TxStorage.Started);
    QuietAcquire(0, 11, w.key);
    var s3 := Apply(s2, Ask(0, w));
    var s4 := Apply(s3, MarkCommitted(11));
    assert s4.status == Both(TxStorage.Started, TxStorage.Committed);
    QuietRelease(11, w.key);
    MovesPrepend(Store(s4, [[]]), Other(ReleaseCommitted(11)), later, end);
    moves := [Other(ReleaseCommitted(11))] + later;
    MovesPrepend(Store(s3, [[]]), Other(MarkCommitted(11)), moves, end);
    moves := [Other(MarkCommitted(11))] + moves;
    MovesPrepend(Store(s2, [[]]), Other(Ask(0, w)), moves, end);
    moves := [Other(Ask(0, w))] + moves;
    MovesPrepend(Store(s1, [[]]), Other(Begin), moves, end);
    moves := [Other(Begin)] + moves;
    MovesPrepend(Start({0, 1}), Other(Begin), moves, end);
    moves := [Other(Begin)] + moves;
  }

  lemma OneInserted(older: seq<seq<Record>>, v: Record, freeze: bool)
    ensures Added(older + [[]], v, freeze) == older + if freeze then [[v], []] else [[v]]
  {
    assert (older + [[]])[..|older|] == older;
  }

  lemma InsertedBelow(v1: Record, v2: Record)
    requires v1.seqNo < v2.seqNo
    ensures InsertBySeq([v2], v1) == [v1, v2] && InsertBySeq([], v2) == [v2]
  {
    assert [v2][..0] == [];
    assert InsertBySeq([], v1) == [v1];
  }

  /** Transaction 10 locks the row and writes number 2, which fills the mem table; then the
      record of number 1 arrives, in the next level. */
  lemma ArrivesLate(w1: Write, w2: Write, s: State, end: Store) returns (moves: seq<Move>)
    requires w1.tx == 11 && w2.tx == 10 && w1.key == w2.key && |w1.value| <= MAX_INT64 && |w2.value| <= MAX_INT64
    requires s == State(12, Both(TxStorage.Started, TxStorage.Committed), Quiet(map[], map[]), map[0 := w1], map[0 := 1], [], 2)
    requires var v1, v2 := Version(w1, 1), Version(w2, 2);
             end == Store(State(12, s.status, Quiet(map[w2.key := 10], map[10 := {w2.key}]), map[], map[], [v1, v2], 3), [[v2], [v1]])
    ensures Moves(Store(s, [[]]), moves, end)
  {
    hide Moves, TxStorage.TryAcquire, Added, InsertBySeq, Parse, Encode;
    var v1, v2 := Version(w1, 1), Version(w2, 2);
    PutVersion(w1, 1);
    PutVersion(w2, 2);
    QuietAcquire(1, 10, w2.key);
    var s6 := Apply(s, Ask(1, w2));
    InsertedBelow(v1, v2);
    var none: seq<seq<Record>>, empty: seq<seq<Record>>, full := [], [[]], [[v2]];
    OneInserted(none, v2, true);
    OneInserted(full, v1, false);
    assert none + empty == empty && none + [[v2], []] == full + [[]] == [[v2], []] && full + [[v1]] == end.levels;
    var s7 := Apply(s6, Put(1));
    assert s7.wants == map[0 := w1] && s7.numbers == map[0 := 1];
    var s8 := Apply(s7, Put(0));
    assert s8.wants == map[] && s8.numbers == map[];
    NoMoves(end);
    MovesPrepend(Store(s7, [[v2], []]), PutInto(0, false), [], end);
    moves := [PutInto(0, false)] + [];
    MovesPrepend(Store(s6, [[]]), PutInto(1, true), moves, end);
    moves := [PutInto(1, true)] + moves;
    MovesPrepend(Store(s, [[]]), Other(Ask(1, w2)), moves, end);
    moves := [Other(Ask(1, w2))] + moves;
  }

  lemma WalkOfTwo(v1: Record, v2: Record)
    requires v1.key == v2.key
    ensures KeyWalk([[v2], [v1]], v1.key) == [v1] + [v2] && Versions([v1, v2], v1.key) == [v2] + [v1]
  {
    var levels := [[v2], [v1]];
    assert levels[..1] == [[v2]] && levels[..1][..0] == [];
    InKeyRange(v1.key, v1.key);
    assert Select([v1], KeyRange(v1.key)) == [v1] && Select([v2], KeyRange(v1.key)) == [v2];
    assert KeyWalk(levels[..1], v1.key) == [v2] + KeyWalk(levels[..1][..0], v1.key) == [v2];
    var log := [v1, v2];
    assert log[..1] == [v1] && log[..1][..0] == [];
    assert Versions(log[..1], v1.key) == [v1] + Versions(log[..1][..0], v1.key) == [v1];
  }

  lemma AnswerOfTwo(x: Record, y: Record, status: Statuses, reader: int)
    requires Visible(status, reader, Val(x)) && !Val(x).deleted
    ensures Answer([x] + [y], status, reader) == Some((x.seqNo, Val(x).value))
  {
    AnswerConcat([x], [y], status, reader);
    AnswerOfOne(x, status, reader);
  }

  /** The discipline is needed: when a transaction commits under its own write and the mem table
      fills meanwhile, the late record hides the newer one, and the running transaction that
      wrote the newer one does not read it back. */
  lemma LatePutHidesWrite(key: Bytes, a: Bytes, b: Bytes) returns (moves: seq<Move>, end: Store)
    requires |a| <= MAX_INT64 && |b| <= MAX_INT64
    ensures Moves(Start({0, 1}), moves, end) && IsStarted(end.s.status, 10)
    ensures Answer(KeyWalk(end.levels, key), end.s.status, 10) == Some((1, a))
    ensures Answer(Versions(end.s.log, key), end.s.status, 10) == Some((2, b))
  {
    hide Moves, KeyWalk, Versions, Answer, Parse, Encode;
    var w1, w2 := Write(11, key, false, a), Write(10, key, false, b);
    var v1, v2 := Version(w1, 1), Version(w2, 2);
    var status := Both(TxStorage.Started, TxStorage.Committed);
    var s := State(12, status, Quiet(map[], map[]), map[0 := w1], map[0 := 1], [], 2);
    end := Store(State(12, status, Quiet(map[key := 10], map[10 := {key}]), map[], map[], [v1, v2], 3), [[v2], [v1]]);
    var late := ArrivesLate(w1, w2, s, end);
    moves := CommitsEarly(w1, s, late, end);
    RowHolds(key, 1, TxValue(11, false, false, a));
    RowHolds(key, 2, TxValue(10, false, false, b));
    WalkOfTwo(v1, v2);
    AnswerOfTwo(v1, v2, status, 10);
    AnswerOfTwo(v2, v1, status, 10);
  }
}
