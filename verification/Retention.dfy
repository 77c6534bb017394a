/** The cleaner next to a stream: what it removes from the leader's directory are cleaning steps of
    the streaming protocol, so it never takes a segment that a follower still needs. */
module Retention {
  import opened ByteStrings
  import opened WalFiles
  import opened Recovery
  import Cleaning
  import Streaming

  ghost predicate Measures(sizes: map<nat, nat>, files: map<nat, Bytes>) {
    sizes.Keys == files.Keys && forall n :: n in files ==> sizes[n] == |files[n]|
  }

  /** Removing files below the retained segment, in any order, is a run of removals. */
  lemma {:induction false} RemoveAll(s: Streaming.State, removed: set<nat>) returns (steps: seq<Streaming.Step>)
    requires s.retain.Some? && forall n :: n in removed ==> n < s.retain.value
    ensures Streaming.Run(s, steps, s.(sizes := s.sizes - removed))
    decreases removed
  {
    if removed == {} {
      assert s.sizes - removed == s.sizes;
      steps := [];
    } else {
      var n :| n in removed;
      var t := Streaming.Apply(s, Streaming.CleanRemove(n));
      var rest := RemoveAll(t, removed - {n});
      assert t.sizes - (removed - {n}) == s.sizes - removed;
      Streaming.OneStep(s, Streaming.CleanRemove(n));
      Streaming.RunConcat(s, [Streaming.CleanRemove(n)], t, rest, s.(sizes := s.sizes - removed));
      steps := [Streaming.CleanRemove(n)] + rest;
    }
  }

  /** WalCleaner::Step beside the stream of one follower: each removal is a step that the protocol
      allows from the moment the registry was read, and no segment that some follower needs goes. */
  method CleanStep(
    registry: Streaming.FollowerRegistry, d: Database, files: map<nat, Bytes>, ghost token: nat, ghost s: Streaming.State)
    returns (left: map<nat, Bytes>, ghost steps: seq<Streaming.Step>, ghost end: Streaming.State)
    requires token in registry.positions && registry.positions[token] == s.needed && Measures(s.sizes, files)
    ensures Streaming.Run(s, steps, end) && Measures(end.sizes, left)
    ensures end.retain.Some? && end == s.(sizes := end.sizes, retain := end.retain)
    ensures forall n, u: Streaming.State ::
              n in files && n !in left && u.retain == end.retain ==> Streaming.Enabled(u, Streaming.CleanRemove(n))
    ensures forall n, t :: n in files && t in registry.positions && n >= registry.positions[t].segment ==> n in left
  {
    hide ReadSegment, Obsolete, Keep, Cleaning.HoldsUnpersisted;
    var retainFrom := registry.MinRetainedSegment();
    ghost var names, kept;
    left, names, kept := Cleaning.CleanFiles(d, files, retainFrom);
    ghost var started := Streaming.Apply(s, Streaming.CleanStart(retainFrom.value));
    ghost var removed := files.Keys - left.Keys;
    end := started.(sizes := s.sizes - removed);
    ghost var removals := RemoveAll(started, removed);
    Streaming.OneStep(s, Streaming.CleanStart(retainFrom.value));
    Streaming.RunConcat(s, [Streaming.CleanStart(retainFrom.value)], started, removals, end);
    steps := [Streaming.CleanStart(retainFrom.value)] + removals;
  }
}
