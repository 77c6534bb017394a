/** MergeIterator: one sorted output from any number of sorted inputs. An input
    iterator is the list of records it still has to return. */
module Merging {
  import opened Sequences
  import opened Records

  /** A record taken from an iterator, and the iterator. */
  datatype Item = Item(record: Record, rest: seq<Record>)

  function Lists(heap: seq<Item>): (ls: seq<seq<Record>>)
    ensures |ls| == |heap| && forall i :: 0 <= i < |heap| ==> ls[i] == [heap[i].record] + heap[i].rest
  {
    if heap == [] then [] else [[heap[0].record] + heap[0].rest] + Lists(heap[1..])
  }

  /** Everything the merge still has to return. */
  function Pending(heap: seq<Item>): multiset<Record> {
    multiset(Flatten(Lists(heap)))
  }

  ghost predicate SortedItems(heap: seq<Item>) {
    forall i :: 0 <= i < |heap| ==> Sorted([heap[i].record] + heap[i].rest)
  }

  /** The item a std::priority_queue ordered by the reversed record order may return. */
  predicate IsTop(heap: seq<Item>, i: nat) {
    i < |heap| && forall j :: 0 <= j < |heap| ==> !Before(heap[j].record, heap[i].record)
  }

  lemma {:induction false} TopExists(heap: seq<Item>) returns (i: nat)
    requires heap != []
    ensures IsTop(heap, i)
  {
    if |heap| == 1 {
      BeforeIrreflexive(heap[0].record);
      i := 0;
    } else {
      var front := heap[..|heap| - 1];
      i := TopExists(front);
      var last := heap[|heap| - 1].record;
      if Before(last, heap[i].record) {
        BeforeAsymmetric(last, heap[i].record);
        forall j | 0 <= j < |heap| ensures !Before(heap[j].record, last) {
          BeforeIrreflexive(last);
          if j < |front| {
            assert front[j] == heap[j];
            NotAfterTransitive(last, heap[i].record, heap[j].record);
          }
        }
        i := |heap| - 1;
      } else {
        forall j | 0 <= j < |heap| ensures !Before(heap[j].record, heap[i].record) {
          if j < |front| { assert front[j] == heap[j]; }
        }
      }
    }
  }

  lemma ListsWithout(heap: seq<Item>, i: nat)
    requires i < |heap|
    ensures Pending(heap) == multiset{heap[i].record} + multiset(heap[i].rest) + Pending(heap[..i] + heap[i + 1..])
  {
    hide Flatten, Lists;
    var ls := Lists(heap);
    var others := heap[..i] + heap[i + 1..];
    assert Lists(others) == ls[..i] + ls[i + 1..];
    assert ls == ls[..i] + ls[i..];
    FlattenConcat(ls[..i], ls[i..]);
    FlattenFirst(ls[i..]);
    FlattenConcat(ls[..i], ls[i + 1..]);
    assert ls[i..][1..] == ls[i + 1..];
  }

  lemma ListsWith(heap: seq<Item>, item: Item)
    ensures Pending(heap + [item]) == Pending(heap) + multiset{item.record} + multiset(item.rest)
  {
    hide Flatten, Lists;
    assert Lists(heap + [item]) == Lists(heap) + [[item.record] + item.rest];
    FlattenAppend(Lists(heap), [item.record] + item.rest);
  }

  /** The top item is the smallest record of all inputs. */
  lemma TopIsLeast(heap: seq<Item>, i: nat, x: Record)
    requires SortedItems(heap) && IsTop(heap, i) && x in Pending(heap)
    ensures !Before(x, heap[i].record)
  {
    hide Flatten;
    var ls := Lists(heap);
    assert x in Flatten(ls);
    FlattenMember(ls, x);
    var j :| 0 <= j < |ls| && x in ls[j];
    SortedTail(ls[j]);
    NotAfterTransitive(heap[i].record, heap[j].record, x);
  }

  class MergeIterator {
    var heap: seq<Item>

    ghost predicate Valid()
      reads this
    {
      SortedItems(heap)
    }

    constructor ()
      ensures Valid() && heap == []
    {
      heap := [];
    }

    predicate HasMore()
      reads this
    {
      heap != []
    }

    method Add(iter: seq<Record>)
      requires Valid() && Sorted(iter)
      modifies this
      ensures Valid() && Pending(heap) == old(Pending(heap)) + multiset(iter)
    {
      hide Pending;
      if iter != [] {
        var item := Item(iter[0], iter[1..]);
        assert iter == [item.record] + item.rest;
        ListsWith(heap, item);
        heap := heap + [item];
      }
    }

    /** Returns the smallest record of all inputs and removes that one occurrence. */
    method Next() returns (r: Record)
      requires Valid() && HasMore()
      modifies this
      ensures Valid()
      ensures old(Pending(heap)) == multiset{r} + Pending(heap)
      ensures forall x :: x in old(Pending(heap)) ==> !Before(x, r)
    {
      hide Pending;
      ghost var some := TopExists(heap);
      var i: nat :| i < |heap| && IsTop(heap, i);
      forall x | x in Pending(heap) ensures !Before(x, heap[i].record) { TopIsLeast(heap, i, x); }
      ListsWithout(heap, i);
      var top := heap[i];
      SortedTail([top.record] + top.rest);
      assert ([top.record] + top.rest)[1..] == top.rest;
      heap := heap[..i] + heap[i + 1..];
      Add(top.rest);
      r := top.record;
    }
  }

  /** Draining a merge gives the sorted arrangement of all the inputs together. */
  method Merge(inputs: seq<seq<Record>>) returns (out: seq<Record>)
    requires forall i :: 0 <= i < |inputs| ==> Sorted(inputs[i])
    ensures Sorted(out) && multiset(out) == multiset(Flatten(inputs)) && |out| == |Flatten(inputs)|
  {
    hide Pending, Sorted;
    var merge := new MergeIterator();
    NothingPending();
    var i := 0;
    while i < |inputs|
      invariant 0 <= i <= |inputs| && fresh(merge) && merge.Valid()
      invariant Pending(merge.heap) == multiset(Flatten(inputs[..i]))
    {
      FlattenAppend(inputs[..i], inputs[i]);
      assert inputs[..i + 1] == inputs[..i] + [inputs[i]];
      merge.Add(inputs[i]);
      i := i + 1;
    }
    assert inputs[..i] == inputs;
    out := [];
    SortedNothing();
    while merge.HasMore()
      invariant fresh(merge) && merge.Valid() && Sorted(out)
      invariant multiset(out) + Pending(merge.heap) == multiset(Flatten(inputs))
      invariant forall x, y :: x in out && y in Pending(merge.heap) ==> !Before(y, x)
      decreases |Pending(merge.heap)|
    {
      var r := merge.Next();
      SortedSnoc(out, r);
      out := out + [r];
    }
    NothingPending();
    assert multiset(out) == multiset(Flatten(inputs));
    assert |multiset(out)| == |out| && |multiset(Flatten(inputs))| == |Flatten(inputs)|;
  }

  lemma NothingPending()
    ensures Pending([]) == multiset{}
  {}

  lemma SortedNothing()
    ensures Sorted([])
  {}

  lemma SortedSnoc(s: seq<Record>, r: Record)
    requires Sorted(s) && forall x :: x in s ==> !Before(r, x)
    ensures Sorted(s + [r])
  {
    var t := s + [r];
    forall i, j | 0 <= i < j < |t| ensures !Before(t[j], t[i]) {
      assert t[i] == s[i];
    }
  }
}
