/** Concatenation of a list of lists, shared by every layer. */
module Sequences {

  function Flatten<T>(ss: seq<seq<T>>): (r: seq<T>) {
    if ss == [] then [] else Flatten(ss[..|ss| - 1]) + ss[|ss| - 1]
  }

  lemma {:induction false} FlattenConcat<T>(a: seq<seq<T>>, b: seq<seq<T>>)
    ensures Flatten(a + b) == Flatten(a) + Flatten(b)
  {
    if b == [] {
      assert a + b == a;
    } else {
      var c := b[..|b| - 1];
      assert (a + b)[..|a + b| - 1] == a + c;
      FlattenConcat(a, c);
    }
  }

  lemma FlattenAppend<T>(a: seq<seq<T>>, x: seq<T>)
    ensures Flatten(a + [x]) == Flatten(a) + x
  {
    assert (a + [x])[..|a|] == a;
  }

  lemma FlattenCons<T>(x: seq<T>, b: seq<seq<T>>)
    ensures Flatten([x] + b) == x + Flatten(b)
  {
    FlattenConcat([x], b);
    assert Flatten([x]) == Flatten([]) + x == x;
  }

  lemma FlattenFirst<T>(ss: seq<seq<T>>)
    requires ss != []
    ensures Flatten(ss) == ss[0] + Flatten(ss[1..])
  {
    assert ss == [ss[0]] + ss[1..];
    FlattenCons(ss[0], ss[1..]);
  }

  /** The concatenation has exactly the elements of the lists. */
  lemma {:induction false} FlattenMember<T>(ss: seq<seq<T>>, x: T)
    ensures x in Flatten(ss) <==> exists i :: 0 <= i < |ss| && x in ss[i]
  {
    if ss != [] {
      var front := ss[..|ss| - 1];
      FlattenMember(front, x);
      if x in Flatten(front) {
        var i :| 0 <= i < |front| && x in front[i];
        assert x in ss[i];
      }
      if i :| 0 <= i < |ss| && x in ss[i] && i < |front| {
        assert x in front[i];
      }
    }
  }

  /** Position in the concatenation of the first element of list `p`. */
  ghost function Offset<T>(ss: seq<seq<T>>, p: nat): nat
    requires p <= |ss|
  {
    |Flatten(ss[..p])|
  }

  lemma FlattenIndex<T>(ss: seq<seq<T>>, p: nat, j: nat)
    requires p < |ss| && j < |ss[p]|
    ensures Offset(ss, p) + j < |Flatten(ss)|
    ensures Flatten(ss)[Offset(ss, p) + j] == ss[p][j]
  {
    FlattenConcat(ss[..p], ss[p..]);
    FlattenFirst(ss[p..]);
    assert ss == ss[..p] + ss[p..];
  }

  lemma OffsetGrows<T>(ss: seq<seq<T>>, p: nat, q: nat)
    requires p < q <= |ss|
    ensures Offset(ss, p) + |ss[p]| <= Offset(ss, q)
    ensures Offset(ss, p + 1) == Offset(ss, p) + |ss[p]|
  {
    FlattenAppend(ss[..p], ss[p]);
    assert ss[..p + 1] == ss[..p] + [ss[p]];
    FlattenConcat(ss[..p + 1], ss[p + 1..q]);
    assert ss[..q] == ss[..p + 1] + ss[p + 1..q];
  }

  lemma OffsetStart<T>(ss: seq<seq<T>>)
    ensures Offset(ss, 0) == 0
  {}

  lemma OffsetEnd<T>(ss: seq<seq<T>>)
    ensures Offset(ss, |ss|) == |Flatten(ss)|
  {
    assert ss[..|ss|] == ss;
  }
}
