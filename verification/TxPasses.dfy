/** Scans and compactions that are suspended between rows: row `i` is judged by the transaction
    table of its moment. */
module TxPasses {
  import opened ByteStrings
  import opened Buffers
  import opened Records
  import opened Levels
  import opened TxValues
  import opened FirstPerKey
  import opened TxTables
  import TxStorage
  import TxRuns

  function ScanOver(rs: seq<Record>, statuses: seq<Statuses>, reader: int, last: Option<Bytes>): seq<Record>
    requires |statuses| == |rs|
  {
    if rs == [] then []
    else if Listed(statuses[0], reader, Val(rs[0])) && last != Some(rs[0].key) then
      [rs[0]] + ScanOver(rs[1..], statuses[1..], reader, Some(rs[0].key))
    else ScanOver(rs[1..], statuses[1..], reader, last)
  }

  function CompactOver(rs: seq<Record>, statuses: seq<Statuses>, last: Option<Bytes>): seq<Record>
    requires |statuses| == |rs|
  {
    if rs == [] then []
    else if Kept(statuses[0], Val(rs[0])) && last != Some(rs[0].key) then
      [Rewrite(statuses[0], rs[0])] + CompactOver(rs[1..], statuses[1..], Some(rs[0].key))
    else CompactOver(rs[1..], statuses[1..], last)
  }

  // ----- scans

  lemma {:induction false} ScanOverIs(
    rs: seq<Record>, statuses: seq<Statuses>, reader: int, keep: Record -> bool, last: Option<Bytes>)
    requires |statuses| == |rs| && forall i :: 0 <= i < |rs| ==> Listed(statuses[i], reader, Val(rs[i])) == keep(rs[i])
    ensures ScanOver(rs, statuses, reader, last) == OnePerKey(rs, keep, last)
  {
    hide Listed, Val;
    if rs != [] {
      assert Listed(statuses[0], reader, Val(rs[0])) == keep(rs[0]);
      forall i | 0 <= i < |rs[1..]| ensures Listed(statuses[1..][i], reader, Val(rs[1..][i])) == keep(rs[1..][i]) {
        assert Listed(statuses[i + 1], reader, Val(rs[i + 1])) == keep(rs[i + 1]);
      }
      ScanOverIs(rs[1..], statuses[1..], reader, keep, if keep(rs[0]) && last != Some(rs[0].key) then Some(rs[0].key) else last);
    }
  }

  /** Without suspensions a scan reads one transaction table. */
  lemma ScanAtOnce(rs: seq<Record>, status: Statuses, reader: int)
    ensures ScanOver(rs, seq(|rs|, _ => status), reader, None) == ScanIn(rs, status, reader)
  {
    ScanOverIs(rs, seq(|rs|, _ => status), reader, Lists(status, reader), None);
  }

  ghost predicate Distinct(rs: seq<Record>) { forall i, j :: 0 <= i < j < |rs| ==> rs[i] != rs[j] }

  /** The judgement of a row at its moment, when no row occurs twice. */
  ghost function ListedThen(rs: seq<Record>, statuses: seq<Statuses>, reader: int): Record -> bool
    requires |statuses| == |rs|
  {
    (r: Record) => exists i :: 0 <= i < |rs| && rs[i] == r && Listed(statuses[i], reader, Val(r))
  }

  lemma {:induction false} FirstSame(rs: seq<Record>, a: Record -> bool, b: Record -> bool)
    requires forall i :: 0 <= i < |rs| ==> a(rs[i]) == b(rs[i])
    ensures First(rs, a) == First(rs, b)
  {
    if rs != [] {
      assert a(rs[0]) == b(rs[0]);
      if !a(rs[0]) {
        FirstTail(rs, a);
        FirstTail(rs, b);
        FirstSame(rs[1..], a, b);
      }
    }
  }

  /** What a suspended scan shows of a key whose newest version is row `n`: only transactions that
      were running commit meanwhile, and only that version can belong to one. Then it is what an
      undisturbed scan at the moment of row `n` shows. */
  lemma ScanOfAnInstant(rs: seq<Record>, statuses: seq<Statuses>, reader: int, n: nat)
    requires Sorted(rs) && Distinct(rs) && |statuses| == |rs| && n < |rs|
    requires forall i :: 0 <= i < n ==> rs[i].key != rs[n].key
    requires forall i :: n <= i < |rs| && rs[i].key == rs[n].key ==> OnlyCommits(statuses[n], statuses[i])
    requires forall i :: n < i < |rs| && rs[i].key == rs[n].key ==> !IsStarted(statuses[n], Val(rs[i]).tx)
    ensures var range := KeyRange(rs[n].key);
            Select(ScanOver(rs, statuses, reader, None), range) == Select(ScanIn(rs, statuses[n], reader), range)
  {
    hide Val, Select, OnePerKey, First, Sorted, IsCommitted, IsStarted;
    var keep, key := ListedThen(rs, statuses, reader), rs[n].key;
    forall i | 0 <= i < |rs| ensures Listed(statuses[i], reader, Val(rs[i])) == keep(rs[i]) {}
    ScanOverIs(rs, statuses, reader, keep, None);
    PassIsFirst(rs, key, keep);
    PassIsFirst(rs, key, Lists(statuses[n], reader));
    var versions := Select(rs, KeyRange(key));
    forall k | 0 <= k < |versions| ensures keep(versions[k]) == Lists(statuses[n], reader)(versions[k]) {
      SelectedFrom(rs, key, versions[k]);
      var i :| 0 <= i < |rs| && rs[i] == versions[k];
      assert OnlyCommits(statuses[n], statuses[i]);
      var tx := Val(rs[i]).tx;
      assert IsCommitted(statuses[n], tx) ==> IsCommitted(statuses[i], tx);
      assert Listed(statuses[i], reader, Val(rs[i])) == keep(rs[i]);
    }
    FirstSame(versions, keep, Lists(statuses[n], reader));
  }

  lemma SelectedFrom(rs: seq<Record>, key: Bytes, x: Record)
    requires x in Select(rs, KeyRange(key))
    ensures x in rs && x.key == key
  {
    InKeyRange(key, x.key);
  }

  // ----- compactions

  /** What happened to a transaction between two moments: it may have committed, nothing else. */
  predicate MayCommit(before: Statuses, after: Statuses, tx: int) {
    && (IsCommitted(before, tx) ==> IsCommitted(after, tx))
    && (IsCommitted(before, tx) || IsStarted(before, tx) <==> IsCommitted(after, tx) || IsStarted(after, tx))
  }

  /** The same version, perhaps frozen or not: its transaction has committed. */
  predicate SameButFrozen(x: Record, y: Record, status: Statuses) {
    && x.key == y.key && x.seqNo == y.seqNo && Val(x).(frozen := false) == Val(y).(frozen := false)
    && (Val(x).frozen != Val(y).frozen ==> IsCommitted(status, Val(x).tx))
  }

  ghost predicate AllSameButFrozen(a: seq<Record>, b: seq<Record>, status: Statuses) {
    |a| == |b| && forall i :: 0 <= i < |a| ==> SameButFrozen(a[i], b[i], status)
  }

  lemma RewritesSame(r: Record, before: Statuses, after: Statuses)
    requires MayCommit(before, after, Val(r).tx)
    ensures SameButFrozen(Rewrite(before, r), Rewrite(after, r), after)
  {
    hide Parse, Freeze;
    if Parse(r.value).Success? { FreezeSetsTheFlag(r); }
  }

  lemma RewriteCons(status: Statuses, r: Record, rest: seq<Record>)
    ensures RewriteAll(status, [r] + rest) == [Rewrite(status, r)] + RewriteAll(status, rest)
  {
    hide Rewrite;
  }

  lemma NothingSame(status: Statuses)
    ensures AllSameButFrozen([], RewriteAll(status, []), status)
  {}

  lemma SameCons(x: Record, y: Record, a: seq<Record>, b: seq<Record>, status: Statuses)
    requires SameButFrozen(x, y, status) && AllSameButFrozen(a, b, status)
    ensures AllSameButFrozen([x] + a, [y] + b, status)
  {
    hide SameButFrozen;
  }

  /** A compaction during which transactions commit writes, up to the frozen flags, what one at its
      end would write. */
  lemma {:induction false} CompactOverSame(rs: seq<Record>, statuses: seq<Statuses>, end: Statuses, last: Option<Bytes>)
    requires |statuses| == |rs| && forall i :: 0 <= i < |rs| ==> MayCommit(statuses[i], end, Val(rs[i]).tx)
    ensures AllSameButFrozen(CompactOver(rs, statuses, last), RewriteAll(end, OnePerKey(rs, Keeps(end), last)), end)
  {
    hide Val, Rewrite, AllSameButFrozen, SameButFrozen, IsCommitted, IsStarted, RewriteAll;
    if rs == [] {
      NothingSame(end);
    } else {
      var rest, later := rs[1..], statuses[1..];
      var taken := Keeps(end)(rs[0]) && last != Some(rs[0].key);
      assert MayCommit(statuses[0], end, Val(rs[0]).tx);
      CompactOverSame(rest, later, end, if taken then Some(rs[0].key) else last);
      if taken {
        var kept := OnePerKey(rest, Keeps(end), Some(rs[0].key));
        RewritesSame(rs[0], statuses[0], end);
        RewriteCons(end, rs[0], kept);
        SameCons(Rewrite(statuses[0], rs[0]), Rewrite(end, rs[0]),
                 CompactOver(rest, later, Some(rs[0].key)), RewriteAll(end, kept), end);
      }
    }
  }

  lemma {:induction false} CompactOverIs(rs: seq<Record>, statuses: seq<Statuses>, status: Statuses, last: Option<Bytes>)
    requires |statuses| == |rs| && forall i :: 0 <= i < |rs| ==> statuses[i] == status
    ensures CompactOver(rs, statuses, last) == RewriteAll(status, OnePerKey(rs, Keeps(status), last))
  {
    hide Val, Rewrite, Kept;
    if rs != [] {
      var taken := Keeps(status)(rs[0]) && last != Some(rs[0].key);
      CompactOverIs(rs[1..], statuses[1..], status, if taken then Some(rs[0].key) else last);
      RewriteCons(status, rs[0], OnePerKey(rs[1..], Keeps(status), Some(rs[0].key)));
    }
  }

  /** Without suspensions it writes exactly that. */
  lemma CompactAtOnce(rs: seq<Record>, status: Statuses)
    ensures CompactOver(rs, seq(|rs|, _ => status), None) == CompactIn(rs, status)
  {
    CompactOverIs(rs, seq(|rs|, _ => status), status, None);
  }

  lemma SameParts(a: seq<Record>, b: seq<Record>, status: Statuses)
    requires AllSameButFrozen(a, b, status) && a != []
    ensures b != [] && SameButFrozen(a[0], b[0], status) && AllSameButFrozen(a[1..], b[1..], status)
  {
    hide SameButFrozen;
    forall i | 0 <= i < |a[1..]| ensures SameButFrozen(a[1..][i], b[1..][i], status) {
      assert SameButFrozen(a[i + 1], b[i + 1], status);
    }
  }

  lemma {:induction false} SameSelects(a: seq<Record>, b: seq<Record>, status: Statuses, range: Range)
    requires AllSameButFrozen(a, b, status)
    ensures AllSameButFrozen(Select(a, range), Select(b, range), status)
  {
    if a != [] {
      hide AllSameButFrozen, SameButFrozen, InRange;
      SameParts(a, b, status);
      SameKey(a[0], b[0], status);
      SameSelects(a[1..], b[1..], status, range);
      SameCons(a[0], b[0], Select(a[1..], range), Select(b[1..], range), status);
    }
  }

  lemma SameKey(x: Record, y: Record, status: Statuses)
    requires SameButFrozen(x, y, status)
    ensures x.key == y.key
  {}

  lemma SameAnswer(x: Record, y: Record, status: Statuses, reader: int)
    requires SameButFrozen(x, y, status)
    ensures Visible(status, reader, Val(x)) == Visible(status, reader, Val(y))
    ensures Live([x]) == Live([y])
  {
    hide Val;
    assert Val(x).(frozen := false).tx == Val(y).(frozen := false).tx;
    assert Val(x).(frozen := false).deleted == Val(y).(frozen := false).deleted;
    assert Val(x).(frozen := false).value == Val(y).(frozen := false).value;
  }

  lemma {:induction false} SameAnswers(a: seq<Record>, b: seq<Record>, status: Statuses, reader: int)
    requires AllSameButFrozen(a, b, status)
    ensures Answer(a, status, reader) == Answer(b, status, reader)
  {
    hide SameButFrozen, Val, Visible;
    if a != [] {
      assert SameButFrozen(a[0], b[0], status);
      SameAnswer(a[0], b[0], status, reader);
      var sees := Sees(status, reader);
      if sees(a[0]) {
        assert FirstIndex(a, sees) == 0 && FirstIndex(b, sees) == 0;
      } else {
        FirstTail(a, sees);
        FirstTail(b, sees);
        SameParts(a, b, status);
        SameAnswers(a[1..], b[1..], status, reader);
      }
    }
  }

  /** While transactions commit, and nothing else happens to them, a suspended compaction leaves
      every key and every reader the answer that a compaction at its end leaves. */
  lemma CompactOfAnInstant(rs: seq<Record>, statuses: seq<Statuses>, end: Statuses, key: Bytes, reader: int)
    requires |statuses| == |rs| && forall i :: 0 <= i < |rs| ==> MayCommit(statuses[i], end, Val(rs[i]).tx)
    ensures Answer(Select(CompactOver(rs, statuses, None), KeyRange(key)), end, reader)
         == Answer(Select(CompactIn(rs, end), KeyRange(key)), end, reader)
  {
    hide Val, MayCommit, OnePerKey, Select, Answer, CompactOver, RewriteAll;
    CompactOverSame(rs, statuses, end, None);
    SameSelects(CompactOver(rs, statuses, None), CompactIn(rs, end), end, KeyRange(key));
    SameAnswers(Select(CompactOver(rs, statuses, None), KeyRange(key)), Select(CompactIn(rs, end), KeyRange(key)), end, reader);
  }

  function Second(status: TxStorage.Status): Statuses { map[1 := TxStorage.Committed, 2 := status] }

  /** A rollback meanwhile is another matter: the row judged while its transaction was running
      takes the place of the committed one, which is lost. */
  lemma RollbackLosesRow(key: Bytes, value: Bytes, other: Bytes, reader: int)
    requires |value| <= MAX_INT64 && |other| <= MAX_INT64 && reader != 2
    ensures var rs := [RowOf(key, 2, TxValue(2, false, false, other)), RowOf(key, 1, TxValue(1, false, false, value))];
            var before, after := Second(TxStorage.Started), Second(TxStorage.RolledBack);
            && Sorted(rs) && Answer(CompactIn(rs, after), after, reader) == Some((1, value))
            && Answer(CompactOver(rs, [before, before], None), after, reader) == None
  {
    hide Parse, Encode;
    var running, row := RowOf(key, 2, TxValue(2, false, false, other)), RowOf(key, 1, TxValue(1, false, false, value));
    var before, after := Second(TxStorage.Started), Second(TxStorage.RolledBack);
    RowHolds(key, 2, TxValue(2, false, false, other));
    RowHolds(key, 1, TxValue(1, false, false, value));
    var rs := [running, row];
    assert rs[1..] == [row] && [row][1..] == [];
    assert [before, before][1..] == [before];
    assert Rewrite(before, running) == running;
    assert CompactOver([row], [before], Some(key)) == [];
    assert CompactOver(rs, [before, before], None) == [running] + [] == [running];
    OnePerKeyOfTwo(running, row, Keeps(after), None);
    assert CompactIn(rs, after) == [Rewrite(after, row)];
    RewriteKeepsMeaning(after, reader, row);
    AnswerOfOne(running, after, reader);
    AnswerOfOne(Rewrite(after, row), after, reader);
  }

  // ----- what is written

  /** Not a tombstone, and of a transaction that is committed or running. */
  predicate KeptFor(r: Record, status: Statuses) {
    !Val(r).deleted && Val(r).tx in status && status[Val(r).tx] in {TxStorage.Committed, TxStorage.Started}
  }

  /** A kept row as it is written: with the frozen flag set if its transaction is committed, and
      byte for byte otherwise. */
  predicate WrittenFor(x: Record, r: Record, status: Statuses) {
    && KeptFor(r, status) && x.key == r.key && x.seqNo == r.seqNo
    && if status[Val(r).tx] == TxStorage.Committed then Parse(x.value) == Success(Val(r).(frozen := true)) else x == r
  }

  lemma RewritesFor(r: Record, status: Statuses)
    requires Parse(r.value).Success?
    ensures Kept(status, Val(r)) <==> KeptFor(r, status)
    ensures KeptFor(r, status) ==> WrittenFor(Rewrite(status, r), r, status)
  {
    hide Parse, Encode;
    FreezeSetsTheFlag(r);
  }

  /** Everything a compaction writes is a row as judged at its moment. */
  lemma {:induction false} CompactOverWrites(rs: seq<Record>, statuses: seq<Statuses>, last: Option<Bytes>)
    requires |statuses| == |rs| && WellFormed(rs)
    ensures forall x :: x in CompactOver(rs, statuses, last) ==>
              exists i :: 0 <= i < |statuses| && WrittenFor(x, rs[i], statuses[i])
  {
    hide Parse, Val, Rewrite, Kept, KeptFor, WrittenFor;
    if rs != [] {
      assert rs[0] in rs;
      RewritesFor(rs[0], statuses[0]);
      var taken := Kept(statuses[0], Val(rs[0])) && last != Some(rs[0].key);
      var next := if taken then Some(rs[0].key) else last;
      CompactOverWrites(rs[1..], statuses[1..], next);
      forall x | x in CompactOver(rs, statuses, last)
        ensures exists i :: 0 <= i < |statuses| && WrittenFor(x, rs[i], statuses[i])
      {
        if taken && x == Rewrite(statuses[0], rs[0]) {
          assert WrittenFor(x, rs[0], statuses[0]);
        } else {
          assert x in CompactOver(rs[1..], statuses[1..], next);
          var i :| 0 <= i < |statuses[1..]| && WrittenFor(x, rs[1..][i], statuses[1..][i]);
          assert WrittenFor(x, rs[i + 1], statuses[i + 1]);
        }
      }
    }
  }

  ghost predicate NewestKept(r: Record, rs: seq<Record>, status: Statuses) {
    r in rs && KeptFor(r, status) && forall x :: x in rs && x.key == r.key && KeptFor(x, status) ==> x.seqNo <= r.seqNo
  }

  /** Exactly the newest kept versions, each as it is written. */
  ghost predicate CompactionOf(rs: seq<Record>, out: seq<Record>, status: Statuses) {
    && (forall x :: x in out ==> exists r :: NewestKept(r, rs, status) && WrittenFor(x, r, status))
    && (forall r :: NewestKept(r, rs, status) ==> exists x :: x in out && WrittenFor(x, r, status))
  }

  lemma KeepsFor(rs: seq<Record>, status: Statuses, r: Record)
    requires Sorted(rs) && WellFormed(rs) && forall x, y :: x in rs && y in rs && x.seqNo == y.seqNo ==> x == y
    ensures r in OnePerKey(rs, Keeps(status), None) <==> NewestKept(r, rs, status)
  {
    hide Parse, Val, Kept, KeptFor, OnePerKey, Sorted;
    forall x | x in rs ensures Keeps(status)(x) == KeptFor(x, status) { RewritesFor(x, status); }
    PassIsNewest(rs, Keeps(status), r);
  }

  lemma CompactInWrites(rs: seq<Record>, status: Statuses)
    requires Sorted(rs) && WellFormed(rs) && forall x, y :: x in rs && y in rs && x.seqNo == y.seqNo ==> x == y
    ensures CompactionOf(rs, CompactIn(rs, status), status)
  {
    hide Parse, Val, Rewrite, Kept, KeptFor, WrittenFor, OnePerKey, Sorted, NewestKept;
    var kept, out := OnePerKey(rs, Keeps(status), None), CompactIn(rs, status);
    forall r: Record { KeepsFor(rs, status, r); }
    forall x | x in out ensures exists r :: NewestKept(r, rs, status) && WrittenFor(x, r, status) {
      var i :| 0 <= i < |out| && out[i] == x;
      assert kept[i] in kept;
      KeptIn(rs, status, kept[i]);
      RewritesFor(kept[i], status);
    }
    forall r | NewestKept(r, rs, status) ensures exists x :: x in out && WrittenFor(x, r, status) {
      var i :| 0 <= i < |kept| && kept[i] == r;
      KeptIn(rs, status, r);
      RewritesFor(r, status);
      assert out[i] in out;
    }
  }

  lemma KeptIn(rs: seq<Record>, status: Statuses, r: Record)
    requires NewestKept(r, rs, status)
    ensures r in rs && KeptFor(r, status)
  {}

  lemma SameRecords(a: seq<Record>, b: seq<Record>, out: seq<Record>, status: Statuses)
    requires forall x :: x in a <==> x in b
    ensures forall r :: NewestKept(r, a, status) <==> NewestKept(r, b, status)
    ensures CompactionOf(a, out, status) <==> CompactionOf(b, out, status)
  {
    hide KeptFor, WrittenFor;
    assert forall r :: NewestKept(r, a, status) <==> NewestKept(r, b, status);
  }

  /** A committed version that a compaction keeps is read by everybody, whatever becomes of the
      transaction table. */
  lemma KeptIsFound(rs: seq<Record>, status: Statuses, r: Record, reader: int)
    requires Sorted(rs) && WellFormed(rs) && forall x, y :: x in rs && y in rs && x.seqNo == y.seqNo ==> x == y
    requires NewestKept(r, rs, status) && status[Val(r).tx] == TxStorage.Committed
    ensures Answer(Select(CompactIn(rs, status), KeyRange(r.key)), map[], reader) == Some((r.seqNo, Val(r).value))
  {
    hide Parse, Encode, Kept, OnePerKey, Sorted, Select, First;
    var kept := OnePerKey(rs, Keeps(status), None);
    KeepsFor(rs, status, r);
    PassIsFirst(rs, r.key, Keeps(status));
    SelectRewrites(status, kept, KeyRange(r.key));
    InKeyRange(r.key, r.key);
    FirstIsOne(Select(rs, KeyRange(r.key)), Keeps(status));
    var x := Rewrite(status, r);
    assert Select(kept, KeyRange(r.key)) == [r];
    assert RewriteAll(status, [r]) == [x];
    RewritesFor(r, status);
    AnswerOfOne(x, map[], reader);
  }

  // ----- in every run

  ghost predicate KeyFirst(rs: seq<Record>, n: nat)
    requires n < |rs|
  {
    forall i :: 0 <= i < n ==> rs[i].key != rs[n].key
  }

  lemma OlderRowsSettled(s: TxRuns.State, rs: seq<Record>, n: nat, i: nat)
    requires TxRuns.RunInv(s) && Sorted(rs) && multiset(rs) == multiset(s.log)
    requires n < i < |rs| && rs[i].key == rs[n].key
    ensures !IsStarted(s.status, Val(rs[i]).tx) && Val(rs[i]).tx in s.status
  {
    hide TxRuns.RunningIsAbove, TxRuns.WritersAreAbove, TxRuns.WaitsOk, TxRuns.NumbersOk, TxRuns.WritersHold,
         TxRuns.VersionsHold, Val;
    assert rs[i] in multiset(rs) && rs[n] in multiset(rs);
    assert rs[i] in s.log && rs[n] in s.log;
    RowsDiffer(s.log, rs, n, i);
    assert !Before(rs[i], rs[n]);
  }

  lemma RowsDiffer(log: seq<Record>, rs: seq<Record>, n: nat, i: nat)
    requires Chronological(log) && multiset(rs) == multiset(log) && n < i < |rs|
    ensures rs[n].seqNo != rs[i].seqNo
  {
    assert rs[n] in multiset(rs) && rs[i] in multiset(rs);
    var p :| 0 <= p < |log| && log[p] == rs[n];
    var q :| 0 <= q < |log| && log[q] == rs[i];
    OnceIn(log, rs[n]);
    if rs[n] == rs[i] { TwiceIn(rs, n, i); }
  }

  lemma TwiceIn(rs: seq<Record>, n: nat, i: nat)
    requires n < i < |rs| && rs[n] == rs[i]
    ensures multiset(rs)[rs[n]] >= 2
  {
    assert rs == rs[..i] + [rs[i]] + rs[i + 1..];
    assert rs[n] in rs[..i];
  }

  lemma {:induction false} OnceIn(log: seq<Record>, x: Record)
    requires Chronological(log)
    ensures multiset(log)[x] <= 1
  {
    if log != [] {
      var front, last := log[..|log| - 1], log[|log| - 1];
      assert log == front + [last];
      OnceIn(front, x);
      if x == last { assert x !in front; }
    }
  }

  /** In every run a scan of the whole table that is suspended between rows, while running
      transactions commit, shows of each key what an undisturbed scan shows at the moment the
      newest version of that key is judged. */
  lemma SuspendedScan(
    ids: set<nat>, actions: seq<TxRuns.Action>, end: TxRuns.State, rs: seq<Record>, statuses: seq<Statuses>, reader: int, n: nat)
    requires TxRuns.RunOf(TxRuns.Fresh(ids), actions, end)
    requires Sorted(rs) && multiset(rs) == multiset(end.log) && |statuses| == |rs| && n < |rs| && KeyFirst(rs, n)
    requires forall i :: n <= i < |rs| ==> OnlyCommits(statuses[n], statuses[i])
    requires forall tx :: tx in end.status && IsStarted(statuses[n], tx) ==> IsStarted(end.status, tx)
    ensures var range := KeyRange(rs[n].key);
            Select(ScanOver(rs, statuses, reader, None), range) == Select(ScanIn(rs, statuses[n], reader), range)
  {
    hide TxRuns.RunOf, TxRuns.RunInv, Sorted, Val, Select, ScanIn, ScanOver, OnlyCommits;
    TxRuns.FreshInv(ids);
    TxRuns.RunKeepsInv(TxRuns.Fresh(ids), actions, end);
    forall i, j | 0 <= i < j < |rs| ensures rs[i] != rs[j] {
      LogInOrder(end);
      RowsDiffer(end.log, rs, i, j);
    }
    forall i | n < i < |rs| && rs[i].key == rs[n].key ensures !IsStarted(statuses[n], Val(rs[i]).tx) {
      OlderRowsSettled(end, rs, n, i);
    }
    ScanOfAnInstant(rs, statuses, reader, n);
  }

  lemma LogInOrder(s: TxRuns.State)
    requires TxRuns.RunInv(s)
    ensures Chronological(s.log)
  {}
}
