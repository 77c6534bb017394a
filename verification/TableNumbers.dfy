/** How table files are numbered. Flush numbers a file by the count of tables, Compact by
    the number of the newest table plus one; a restart lists the files by name. */
module TableNumbers {
  import opened ByteStrings
  import opened FileNames

  /** Numbers of the open tables, oldest first, and the numbers present in the directory. */
  datatype Directory = Directory(live: seq<nat>, disk: set<nat>)

  function AfterFlush(d: Directory): Directory {
    Directory(d.live + [|d.live|], d.disk + {|d.live|})
  }

  function CompactNumber(live: seq<nat>): nat {
    if live == [] then 0 else live[|live| - 1] + 1
  }

  /** The new file is written, the tables are replaced, then the old names are removed. */
  function AfterCompact(d: Directory): Directory {
    var n := CompactNumber(d.live);
    Directory([n], (d.disk + {n}) - (set x | x in d.live))
  }

  /** A restart, which lists the files by name, opens exactly the live tables, in their age order. */
  ghost predicate Faithful(d: Directory) {
    Listing(d.live, d.disk, SST_SUFFIX)
  }

  /** Numbers grow with age. */
  ghost predicate ByNumber(d: Directory) {
    Ascending(d.live) && d.disk == set x | x in d.live
  }

  /** With at most four digits the two are the same. */
  lemma ByNumberIsFaithful(d: Directory)
    requires FourDigits(d.disk) && forall n :: n in d.live ==> n < 10000
    ensures ByNumber(d) <==> Faithful(d)
  {
    if Faithful(d) { ListingAscends(d.live, d.disk, SST_SUFFIX); }
    if ByNumber(d) { AscendingLists(d.live, SST_SUFFIX); }
  }

  function UpTo(n: nat): (s: seq<nat>)
    ensures |s| == n && forall i :: 0 <= i < n ==> s[i] == i
  {
    seq(n, i => i)
  }

  /** Without Compact the files are numbered by age. */
  lemma FlushFromConsecutive(d: Directory)
    requires ByNumber(d) && d.live == UpTo(|d.live|)
    ensures ByNumber(AfterFlush(d)) && AfterFlush(d).live == UpTo(|d.live| + 1)
  {}

  lemma {:induction false} AscendingIsAtLeast(s: seq<nat>, i: nat)
    requires Ascending(s) && i < |s|
    ensures s[i] >= i
  {
    if i > 0 { AscendingIsAtLeast(s, i - 1); }
  }

  lemma {:induction false} AscendingIsUpTo(s: seq<nat>)
    requires Ascending(s) && (s != [] ==> s[|s| - 1] < |s|)
    ensures s == UpTo(|s|)
  {
    if s != [] {
      AscendingIsAtLeast(s, |s| - 1);
      var front := s[..|s| - 1];
      if front != [] { AscendingIsAtLeast(front, |front| - 1); }
      AscendingIsUpTo(front);
      assert s == front + [s[|s| - 1]];
    }
  }

  /** A flush keeps the directory readable in age order exactly when the files are numbered
      0, 1, 2, ... and there are fewer than 10000. */
  lemma FlushKeepsExactly(d: Directory)
    requires Faithful(d) && FourDigits(d.disk)
    ensures Faithful(AfterFlush(d)) <==> d.live == UpTo(|d.live|) && |d.live| < 10000
  {
    var e, k := AfterFlush(d), |d.live|;
    ListingAscends(d.live, d.disk, SST_SUFFIX);
    assert forall n :: n in d.live ==> n < 10000;
    if k < 10000 {
      assert forall n :: n in e.live ==> n in d.live || n == k;
      ByNumberIsFaithful(e);
      if Faithful(e) && k > 0 {
        assert e.live[k - 1] == d.live[k - 1] && e.live[k] == k;
      }
      if Faithful(e) { AscendingIsUpTo(d.live); }
    } else {
      AscendingIsAtLeast(d.live, k - 1);
      assert d.live[k - 1] in d.live;
      if Faithful(e) {
        assert k == 10000 && e.live[k - 1] == 9999 && e.live[k] == 10000;
        TenThousandIsFirst(SST_SUFFIX);
        LessAsymmetric(FileName(10000, SST_SUFFIX), FileName(9999, SST_SUFFIX));
      }
    }
  }

  /** A Compact removes the file it has just written exactly when the new number is still the
      number of an open table, which cannot be as long as numbers grow with age. */
  lemma CompactKeepsFileExactly(d: Directory)
    ensures CompactNumber(d.live) in AfterCompact(d).disk <==> CompactNumber(d.live) !in d.live
    ensures ByNumber(d) ==> ByNumber(AfterCompact(d)) && Faithful(AfterCompact(d))
  {
    if d.live != [] { assert CompactNumber(d.live) > d.live[|d.live| - 1]; }
  }

  function AfterFlushes(d: Directory, k: nat): Directory {
    if k == 0 then d else AfterFlush(AfterFlushes(d, k - 1))
  }

  lemma {:induction false} FlushesLive(d: Directory, k: nat)
    ensures |AfterFlushes(d, k).live| == |d.live| + k
    ensures forall i :: 0 <= i < |d.live| ==> AfterFlushes(d, k).live[i] == d.live[i]
    ensures forall i :: |d.live| <= i < |d.live| + k ==> AfterFlushes(d, k).live[i] == i
  {
    if k > 0 { FlushesLive(d, k - 1); }
  }

  /** Compacting `n` tables numbered by age and then flushing `k` more leaves a directory
      that a restart reads back in age order exactly when `n` is 0 and names suffice, or `k` is 0:
      otherwise the flushed files sort before the compacted one, and the `n`-th overwrites it. */
  lemma CompactThenFlush(n: nat, k: nat)
    ensures var d := AfterFlushes(AfterCompact(Directory(UpTo(n), set x | x in UpTo(n))), k);
            Faithful(d) <==> (n == 0 && k < 10000) || k == 0
  {
    var d0 := Directory(UpTo(n), set x | x in UpTo(n));
    var d1 := AfterCompact(d0);
    assert ByNumber(d0);
    CompactKeepsFileExactly(d0);
    assert d1.live == [n];
    FlushesLive(d1, k);
    var d := AfterFlushes(d1, k);
    if n == 0 {
      FlushesByNumber(d1, k);
      assert d.live == UpTo(k + 1);
      UpToListed(k + 1, d.disk);
    } else if k > 0 {
      assert d.live[0] == n && d.live[1] == 1;
      OneIsBefore(n, SST_SUFFIX);
    }
  }

  lemma UpToListed(n: nat, disk: set<nat>)
    requires n > 0 && disk == set x | x in UpTo(n)
    ensures Faithful(Directory(UpTo(n), disk)) <==> n <= 10000
  {
    forall x: nat ensures x in disk <==> x <= n - 1 { if x < n { assert UpTo(n)[x] == x; } }
    if Faithful(Directory(UpTo(n), disk)) { ListingAscendsExactly(UpTo(n), disk, n - 1, SST_SUFFIX); }
    if n <= 10000 { AscendingLists(UpTo(n), SST_SUFFIX); }
  }

  lemma {:induction false} FlushesByNumber(d: Directory, k: nat)
    requires ByNumber(d) && d.live == UpTo(|d.live|)
    ensures ByNumber(AfterFlushes(d, k)) && AfterFlushes(d, k).live == UpTo(|d.live| + k)
  {
    if k > 0 {
      FlushesByNumber(d, k - 1);
      FlushFromConsecutive(AfterFlushes(d, k - 1));
    }
  }

  /** Flush, flush, Compact, flush, Compact: two tables' worth of data, no file left. */
  lemma SecondCompactRemovesItsOwnFile()
    ensures var d := AfterCompact(AfterFlush(AfterCompact(AfterFlushes(Directory([], {}), 2))));
            d.live == [2] && d.disk == {}
  {
    assert AfterFlush(Directory([], {})) == Directory([0], {0});
    assert AfterFlushes(Directory([], {}), 1) == AfterFlush(AfterFlushes(Directory([], {}), 0));
    assert AfterFlushes(Directory([], {}), 2) == Directory([0, 1], {0, 1});
    assert AfterCompact(Directory([0, 1], {0, 1})) == Directory([2], {2});
    assert AfterFlush(Directory([2], {2})) == Directory([2, 1], {2, 1});
  }
}
