/** Reading a list of versions sorted by key and then newest first: which version of each
    key comes first among those that qualify. */
module FirstPerKey {
  import opened ByteStrings
  import opened Records

  /** The position of the first record that qualifies, or the length of the list. */
  function FirstIndex(rs: seq<Record>, keep: Record -> bool): (n: nat)
    ensures n <= |rs| && (n < |rs| ==> keep(rs[n])) && forall i :: 0 <= i < n ==> !keep(rs[i])
  {
    if rs == [] || keep(rs[0]) then 0 else 1 + FirstIndex(rs[1..], keep)
  }

  /** The first qualifying record, as a list of at most one. */
  function First(rs: seq<Record>, keep: Record -> bool): seq<Record> {
    var n := FirstIndex(rs, keep);
    if n < |rs| then [rs[n]] else []
  }

  lemma FirstTail(rs: seq<Record>, keep: Record -> bool)
    requires rs != [] && !keep(rs[0])
    ensures First(rs, keep) == First(rs[1..], keep)
  {}

  lemma {:induction false} FirstConcat(a: seq<Record>, b: seq<Record>, keep: Record -> bool)
    ensures First(a + b, keep) == if First(a, keep) != [] then First(a, keep) else First(b, keep)
  {
    if a == [] {
      assert a + b == b;
    } else {
      assert (a + b)[1..] == a[1..] + b && (a + b)[0] == a[0];
      if keep(a[0]) {
        assert FirstIndex(a, keep) == 0 == FirstIndex(a + b, keep);
      } else {
        FirstConcat(a[1..], b, keep);
        FirstTail(a, keep);
        FirstTail(a + b, keep);
      }
    }
  }

  /** In a list sorted newest first, the first that qualifies is the newest that does. */
  lemma FirstIsNewest(rs: seq<Record>, key: Bytes, keep: Record -> bool)
    requires Sorted(rs) && forall r :: r in rs ==> r.key == key
    ensures First(rs, keep) == [] <==> forall r :: r in rs ==> !keep(r)
    ensures forall r, x :: First(rs, keep) == [r] && x in rs && keep(x) ==> r in rs && keep(r) && x.seqNo <= r.seqNo
  {
    var n := FirstIndex(rs, keep);
    forall x | x in rs && keep(x) ensures n < |rs| && x.seqNo <= rs[n].seqNo {
      var i :| 0 <= i < |rs| && rs[i] == x;
      assert n <= i;
      assert n < i ==> !Before(rs[i], rs[n]);
    }
  }

  /** One pass that takes a qualifying record unless its key is the one taken last. */
  function OnePerKey(rs: seq<Record>, keep: Record -> bool, last: Option<Bytes>): seq<Record> {
    if rs == [] then []
    else if keep(rs[0]) && last != Some(rs[0].key) then [rs[0]] + OnePerKey(rs[1..], keep, Some(rs[0].key))
    else OnePerKey(rs[1..], keep, last)
  }

  lemma {:induction false} OnePerKeyMember(rs: seq<Record>, keep: Record -> bool, last: Option<Bytes>)
    ensures forall x :: x in OnePerKey(rs, keep, last) ==> x in rs && keep(x)
  {
    if rs != [] {
      OnePerKeyMember(rs[1..], keep, if keep(rs[0]) && last != Some(rs[0].key) then Some(rs[0].key) else last);
    }
  }

  lemma OnePerKeyOfTwo(a: Record, b: Record, keep: Record -> bool, last: Option<Bytes>)
    ensures OnePerKey([b], keep, last) == if keep(b) && last != Some(b.key) then [b] else []
    ensures OnePerKey([a, b], keep, None)
         == if keep(a) then [a] + OnePerKey([b], keep, Some(a.key)) else OnePerKey([b], keep, None)
  {
    assert [a, b][1..] == [b] && [b][1..] == [];
  }

  /** On versions of one key the pass takes the first that qualifies. */
  lemma {:induction false} OnePerKeyOfOne(rs: seq<Record>, key: Bytes, keep: Record -> bool)
    requires forall r :: r in rs ==> r.key == key
    ensures OnePerKey(rs, keep, None) == First(rs, keep)
    ensures OnePerKey(rs, keep, Some(key)) == []
  {
    if rs != [] {
      OnePerKeyOfOne(rs[1..], key, keep);
    }
  }

  ghost predicate NotBelow(rs: seq<Record>, last: Option<Bytes>) {
    forall r :: r in rs && last.Some? ==> AtMost(last.value, r.key)
  }

  lemma NextNotBelow(rs: seq<Record>)
    requires Sorted(rs) && rs != []
    ensures NotBelow(rs[1..], Some(rs[0].key))
  {
    forall r | r in rs[1..] ensures AtMost(rs[0].key, r.key) {
      var i :| 0 <= i < |rs[1..]| && rs[1..][i] == r;
      SortedKeys(rs, 0, i + 1);
    }
  }

  lemma {:induction false} SelectNone(rs: seq<Record>, range: Range)
    requires forall r :: r in rs ==> !InRange(range, r.key)
    ensures Select(rs, range) == []
  {
    if rs != [] { SelectNone(rs[1..], range); }
  }

  lemma PastTheKey(rs: seq<Record>, key: Bytes)
    requires Sorted(rs) && rs != [] && NotBelow(rs, Some(key)) && rs[0].key != key
    ensures Select(rs[1..], KeyRange(key)) == []
  {
    forall r | r in rs[1..] ensures !InRange(KeyRange(key), r.key) {
      InKeyRange(key, r.key);
      NextNotBelow(rs);
      if r.key == key { LessAsymmetric(key, rs[0].key); }
    }
    SelectNone(rs[1..], KeyRange(key));
  }

  /** On a sorted list the pass over everything acts on each key alone. */
  lemma {:induction false} OnePerKeyByKey(rs: seq<Record>, key: Bytes, keep: Record -> bool, last: Option<Bytes>)
    requires Sorted(rs) && NotBelow(rs, last)
    ensures Select(OnePerKey(rs, keep, last), KeyRange(key))
         == OnePerKey(Select(rs, KeyRange(key)), keep, if last == Some(key) then last else None)
  {
    hide Sorted;
    if rs != [] {
      var r := rs[0];
      SortedTail(rs);
      InKeyRange(key, r.key);
      NextNotBelow(rs);
      assert NotBelow(rs[1..], last);
      var next := if keep(r) && last != Some(r.key) then Some(r.key) else last;
      OnePerKeyByKey(rs[1..], key, keep, next);
      if r.key != key {
        if last == Some(key) { PastTheKey(rs, key); }
      } else {
        assert ([r] + Select(rs[1..], KeyRange(key)))[1..] == Select(rs[1..], KeyRange(key));
        if next != last {
          var rest := OnePerKey(rs[1..], keep, next);
          assert ([r] + rest)[1..] == rest;
        }
      }
    }
  }

  /** For every key, the pass over a sorted list returns the newest version that qualifies. */
  lemma PassIsFirst(rs: seq<Record>, key: Bytes, keep: Record -> bool)
    requires Sorted(rs)
    ensures Select(OnePerKey(rs, keep, None), KeyRange(key)) == First(Select(rs, KeyRange(key)), keep)
  {
    hide OnePerKey, First, Select;
    OnePerKeyByKey(rs, key, keep, None);
    forall r | r in Select(rs, KeyRange(key)) ensures r.key == key { InKeyRange(key, r.key); }
    OnePerKeyOfOne(Select(rs, KeyRange(key)), key, keep);
  }

  lemma FirstIsOne(rs: seq<Record>, keep: Record -> bool)
    ensures |First(rs, keep)| <= 1 && forall x :: x in First(rs, keep) ==> x in rs && keep(x)
  {}

  /** What the pass takes of a sorted list are the newest qualifying versions. */
  lemma PassIsNewest(rs: seq<Record>, keep: Record -> bool, r: Record)
    requires Sorted(rs)
    requires forall x, y :: x in rs && y in rs && x.seqNo == y.seqNo ==> x == y
    ensures r in OnePerKey(rs, keep, None)
       <==> r in rs && keep(r) && forall x :: x in rs && x.key == r.key && keep(x) ==> x.seqNo <= r.seqNo
  {
    hide OnePerKey, First, Sorted, Select;
    var versions := Select(rs, KeyRange(r.key));
    PassIsFirst(rs, r.key, keep);
    InKeyRange(r.key, r.key);
    SelectSorted(rs, KeyRange(r.key));
    forall x ensures x in versions <==> x in rs && x.key == r.key { InKeyRange(r.key, x.key); }
    FirstIsNewest(versions, r.key, keep);
    FirstIsOne(versions, keep);
    assert r in OnePerKey(rs, keep, None) <==> r in First(versions, keep);
    if First(versions, keep) != [] {
      var f := First(versions, keep)[0];
      assert First(versions, keep) == [f] && f in versions;
      assert keep(r) && r in versions ==> r.seqNo <= f.seqNo;
    }
  }

  ghost predicate KeysAscend(rs: seq<Record>) {
    forall i, j :: 0 <= i < j < |rs| ==> Less(rs[i].key, rs[j].key)
  }

  /** Each key at most once, keys strictly ascending. */
  lemma {:induction false} OnePerKeyAscends(rs: seq<Record>, keep: Record -> bool, last: Option<Bytes>)
    requires Sorted(rs) && NotBelow(rs, last)
    ensures KeysAscend(OnePerKey(rs, keep, last))
    ensures last.Some? ==> forall x :: x in OnePerKey(rs, keep, last) ==> Less(last.value, x.key)
  {
    hide Sorted;
    if rs != [] {
      SortedTail(rs);
      NextNotBelow(rs);
      var taken := keep(rs[0]) && last != Some(rs[0].key);
      OnePerKeyAscends(rs[1..], keep, if taken then Some(rs[0].key) else last);
      if taken && last.Some? {
        forall x | x in OnePerKey(rs[1..], keep, Some(rs[0].key)) ensures Less(last.value, x.key) {
          LessTransitive(last.value, rs[0].key, x.key);
        }
      }
    }
  }
}
