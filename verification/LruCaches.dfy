/** The page cache: a fixed-capacity cache that evicts the least recently used entry. */
module LruCaches {
  import opened ByteStrings

  datatype Entry<K, V> = Entry(key: K, value: V)

  predicate Holds<K(==), V>(es: seq<Entry<K, V>>, key: K) {
    exists i :: 0 <= i < |es| && es[i].key == key
  }

  ghost predicate Distinct<K, V>(es: seq<Entry<K, V>>) {
    forall i, j :: 0 <= i < j < |es| ==> es[i].key != es[j].key
  }

  function Keys<K, V>(es: seq<Entry<K, V>>): set<K> {
    set i | 0 <= i < |es| :: es[i].key
  }

  function Without<K(==), V>(es: seq<Entry<K, V>>, key: K): (r: seq<Entry<K, V>>)
    ensures forall i :: 0 <= i < |r| ==> r[i] in es
  {
    if es == [] then [] else if es[0].key == key then es[1..] else [es[0]] + Without(es[1..], key)
  }

  function ValueOf<K(==), V>(es: seq<Entry<K, V>>, key: K): V
    requires Holds(es, key)
  {
    if es[0].key == key then es[0].value else
      assert Holds(es[1..], key) by {
        var i :| 0 <= i < |es| && es[i].key == key;
        assert es[1..][i - 1].key == key;
      }
      ValueOf(es[1..], key)
  }

  /** Most recently used entry first. */
  function Promote<K(==), V>(es: seq<Entry<K, V>>, key: K, value: V): seq<Entry<K, V>> {
    [Entry(key, value)] + Without(es, key)
  }

  function Trim<T>(s: seq<T>, capacity: nat): seq<T> {
    if |s| <= capacity then s else s[..capacity]
  }

  lemma {:induction false} WithoutAt<K, V>(es: seq<Entry<K, V>>, i: nat)
    requires Distinct(es) && i < |es|
    ensures Holds(es, es[i].key) && ValueOf(es, es[i].key) == es[i].value
    ensures Without(es, es[i].key) == es[..i] + es[i + 1..]
  {
    if i > 0 { WithoutAt(es[1..], i - 1); }
  }

  lemma {:induction false} WithoutAbsent<K, V>(es: seq<Entry<K, V>>, key: K)
    requires !Holds(es, key)
    ensures Without(es, key) == es
  {
    if es != [] {
      assert forall i :: 0 <= i < |es[1..]| ==> es[1..][i] == es[i + 1];
      WithoutAbsent(es[1..], key);
    }
  }

  lemma {:induction false} WithoutDistinct<K, V>(es: seq<Entry<K, V>>, key: K)
    requires Distinct(es)
    ensures Distinct(Without(es, key)) && !Holds(Without(es, key), key)
  {
    if es != [] && es[0].key != key {
      WithoutDistinct(es[1..], key);
      var tail := Without(es[1..], key);
      assert forall e :: e in tail ==> e.key != es[0].key;
    }
  }

  /** std::list::splice of node `i` to the front, with its value replaced. */
  function Splice<K, V>(es: seq<Entry<K, V>>, i: nat, value: V): seq<Entry<K, V>>
    requires i < |es|
  {
    [Entry(es[i].key, value)] + es[..i] + es[i + 1..]
  }

  lemma SpliceIsPromote<K, V>(es: seq<Entry<K, V>>, i: nat, value: V)
    requires Distinct(es) && i < |es|
    ensures Splice(es, i, value) == Promote(es, es[i].key, value)
    ensures |Promote(es, es[i].key, value)| == |es|
  {
    WithoutAt(es, i);
    assert Splice(es, i, value) == [Entry(es[i].key, value)] + (es[..i] + es[i + 1..]);
  }

  lemma {:induction false} WithoutKeys<K, V>(es: seq<Entry<K, V>>, key: K)
    requires Distinct(es)
    ensures Keys(Without(es, key)) == Keys(es) - {key}
  {
    if es != [] {
      KeysCons(es[0], es[1..]);
      assert es == [es[0]] + es[1..];
      WithoutKeys(es[1..], key);
      if es[0].key == key {
        assert key !in Keys(es[1..]);
      } else {
        KeysCons(es[0], Without(es[1..], key));
      }
    }
  }

  lemma PromoteKeys<K, V>(es: seq<Entry<K, V>>, key: K, value: V)
    requires Distinct(es)
    ensures Distinct(Promote(es, key, value)) && Keys(Promote(es, key, value)) == Keys(es) + {key}
  {
    WithoutDistinct(es, key);
    WithoutKeys(es, key);
    KeysCons(Entry(key, value), Without(es, key));
  }

  lemma KeysCons<K, V>(e: Entry<K, V>, es: seq<Entry<K, V>>)
    ensures Keys([e] + es) == {e.key} + Keys(es)
  {
    forall k | k in Keys(es) ensures k in Keys([e] + es) {
      var j :| 0 <= j < |es| && es[j].key == k;
      assert ([e] + es)[j + 1].key == k;
    }
    assert ([e] + es)[0].key == e.key;
  }

  /** cache::LruCache. `index` is the key set of the source's hash map, which
      finds the list node of a key. */
  class LruCache<K(==), V> {
    const capacity: nat
    var entries: seq<Entry<K, V>>
    var index: set<K>

    ghost predicate Valid()
      reads this
    {
      Distinct(entries) && index == Keys(entries) && |entries| <= capacity
    }

    constructor (capacity: nat)
      ensures Valid() && entries == [] && this.capacity == capacity
    {
      this.capacity := capacity;
      entries := [];
      index := {};
    }

    method Get(key: K) returns (r: Option<V>)
      requires Valid()
      modifies this
      ensures Valid()
      ensures Holds(old(entries), key) ==>
                r == Some(ValueOf(old(entries), key)) && entries == Promote(old(entries), key, r.value)
      ensures !Holds(old(entries), key) ==> r == None && entries == old(entries)
    {
      if key !in index { return None; }
      var i :| 0 <= i < |entries| && entries[i].key == key;
      WithoutAt(entries, i);
      r := Some(entries[i].value);
      PromoteKeys(entries, key, entries[i].value);
      SpliceIsPromote(entries, i, entries[i].value);
      entries := Splice(entries, i, entries[i].value);
    }

    method Put(key: K, value: V)
      requires Valid()
      modifies this
      ensures Valid()
      ensures entries == Trim(Promote(old(entries), key, value), capacity)
    {
      hide Without, ValueOf;
      if capacity == 0 { return; }
      PromoteKeys(entries, key, value);
      if key in index {
        var i :| 0 <= i < |entries| && entries[i].key == key;
        SpliceIsPromote(entries, i, value);
        entries := Splice(entries, i, value);
        return;
      }
      WithoutAbsent(entries, key);
      var es := [Entry(key, value)] + entries;
      entries, index := es, index + {key};
      if |es| > capacity {
        DropLastKeys(es);
        entries, index := es[..|es| - 1], index - {es[|es| - 1].key};
      }
    }

    predicate Contains(key: K)
      reads this
    {
      key in index
    }

    method Clear()
      modifies this
      ensures Valid() && entries == []
    {
      entries := [];
      index := {};
    }
  }

  lemma DropLastKeys<K, V>(es: seq<Entry<K, V>>)
    requires Distinct(es) && es != []
    ensures Distinct(es[..|es| - 1])
    ensures Keys(es[..|es| - 1]) == Keys(es) - {es[|es| - 1].key}
  {
    var front := es[..|es| - 1];
    forall k | k in Keys(es) && k != es[|es| - 1].key ensures k in Keys(front) {
      var j :| 0 <= j < |es| && es[j].key == k;
      assert front[j].key == k;
    }
  }

  // ----- reading pages through the cache

  /** One page read: a hit promotes the entry, a miss loads and stores the page. */
  function Access<K(==), V>(es: seq<Entry<K, V>>, capacity: nat, load: K -> V, key: K): seq<Entry<K, V>> {
    if Holds(es, key) then Promote(es, key, ValueOf(es, key))
    else Trim(Promote(es, key, load(key)), capacity)
  }

  function AfterReads<K(==), V>(capacity: nat, load: K -> V, keys: seq<K>): seq<Entry<K, V>> {
    if keys == [] then []
    else Access(AfterReads(capacity, load, keys[..|keys| - 1]), capacity, load, keys[|keys| - 1])
  }

  /** All keys read so far, most recent first: the contents of a cache that never evicts. */
  function Recency<K(==), V>(load: K -> V, keys: seq<K>): seq<Entry<K, V>> {
    if keys == [] then []
    else
      var key := keys[|keys| - 1];
      Promote(Recency(load, keys[..|keys| - 1]), key, load(key))
  }

  lemma {:induction false} RecencyDistinct<K, V>(load: K -> V, keys: seq<K>)
    ensures Distinct(Recency(load, keys))
    ensures forall e :: e in Recency(load, keys) ==> e.value == load(e.key)
  {
    if keys != [] {
      RecencyDistinct(load, keys[..|keys| - 1]);
      var before := Recency(load, keys[..|keys| - 1]);
      WithoutDistinct(before, keys[|keys| - 1]);
    }
  }

  /** A cache of any capacity holds exactly the most recently read pages. */
  lemma {:induction false} CacheIsRecencyPrefix<K, V>(capacity: nat, load: K -> V, keys: seq<K>)
    ensures AfterReads(capacity, load, keys) == Trim(Recency(load, keys), capacity)
  {
    if keys != [] {
      var front, key := keys[..|keys| - 1], keys[|keys| - 1];
      CacheIsRecencyPrefix(capacity, load, front);
      RecencyDistinct(load, front);
      AccessTrimmed(Recency(load, front), capacity, load, key);
    }
  }

  /** Trimming before or after a removal gives the same front. */
  lemma {:induction false} WithoutTrimmed<K, V>(rs: seq<Entry<K, V>>, n: nat, key: K)
    requires Distinct(rs) && n <= |rs|
    ensures Holds(rs[..n], key) ==> n > 0 && |Without(rs, key)| == |rs| - 1 && Without(rs[..n], key) == Without(rs, key)[..n - 1]
    ensures !Holds(rs[..n], key) ==> n <= |Without(rs, key)| && Without(rs, key)[..n] == rs[..n]
  {
    if n > 0 {
      var front := rs[..n];
      assert front[0] == rs[0] && front[1..] == rs[1..][..n - 1];
      if rs[0].key != key {
        WithoutTrimmed(rs[1..], n - 1, key);
        HoldsTail(front, key);
      }
    }
  }

  lemma HoldsTail<K, V>(es: seq<Entry<K, V>>, key: K)
    requires es != [] && es[0].key != key
    ensures Holds(es, key) <==> Holds(es[1..], key)
  {
    if i :| 0 <= i < |es| && es[i].key == key { assert es[1..][i - 1].key == key; }
  }

  lemma AccessTrimmed<K, V>(rs: seq<Entry<K, V>>, capacity: nat, load: K -> V, key: K)
    requires Distinct(rs) && forall e :: e in rs ==> e.value == load(e.key)
    ensures Access(Trim(rs, capacity), capacity, load, key) == Trim(Promote(rs, key, load(key)), capacity)
  {
    hide Without, ValueOf;
    var n := if |rs| <= capacity then |rs| else capacity;
    var es := rs[..n];
    assert Trim(rs, capacity) == es;
    WithoutTrimmed(rs, n, key);
    if Holds(es, key) {
      assert ValueOf(es, key) == load(key) by {
        var i :| 0 <= i < n && es[i].key == key;
        WithoutAt(es, i);
        assert rs[i] in rs;
      }
      assert Promote(es, key, load(key)) == Promote(rs, key, load(key))[..n];
    } else {
      WithoutAbsent(es, key);
      assert Promote(es, key, load(key)) == Promote(rs, key, load(key))[..n + 1];
    }
  }

  /** Transparent: whatever was read before, a hit returns the page that a load would. */
  lemma CacheTransparent<K, V>(capacity: nat, load: K -> V, keys: seq<K>, key: K)
    requires Holds(AfterReads(capacity, load, keys), key)
    ensures ValueOf(AfterReads(capacity, load, keys), key) == load(key)
  {
    CacheIsRecencyPrefix(capacity, load, keys);
    RecencyDistinct(load, keys);
    var es := AfterReads(capacity, load, keys);
    var i :| 0 <= i < |es| && es[i].key == key;
    WithoutAt(es, i);
    assert es[i] == Recency(load, keys)[i];
    assert es[i] in Recency(load, keys);
  }

  /** Disk reads over a run of page reads. */
  function Misses<K(==), V>(capacity: nat, load: K -> V, keys: seq<K>): nat {
    if keys == [] then 0
    else
      var front := keys[..|keys| - 1];
      Misses(capacity, load, front)
      + if Holds(AfterReads(capacity, load, front), keys[|keys| - 1]) then 0 else 1
  }

  /** Inclusion: a smaller cache never holds a page that a larger one has lost. */
  lemma Inclusion<K, V>(small: nat, large: nat, load: K -> V, keys: seq<K>, key: K)
    requires small <= large && Holds(AfterReads(small, load, keys), key)
    ensures Holds(AfterReads(large, load, keys), key)
  {
    CacheIsRecencyPrefix(small, load, keys);
    CacheIsRecencyPrefix(large, load, keys);
    var es := AfterReads(small, load, keys);
    var i :| 0 <= i < |es| && es[i].key == key;
    assert AfterReads(large, load, keys)[i].key == key;
  }

  /** More capacity never causes more disk reads. */
  lemma {:induction false} MissesMonotone<K, V>(small: nat, large: nat, load: K -> V, keys: seq<K>)
    requires small <= large
    ensures Misses(large, load, keys) <= Misses(small, load, keys)
  {
    if keys != [] {
      var front := keys[..|keys| - 1];
      MissesMonotone(small, large, load, front);
      if Holds(AfterReads(small, load, front), keys[|keys| - 1]) {
        Inclusion(small, large, load, front, keys[|keys| - 1]);
      }
    }
  }
}
