/**
 `filter_duplicates` in src/ldup.py: prunes the store in place so that only
 duplicate files remain.

 As written, `filter_duplicates` deletes a whole size bucket as soon as any one of
 its hash groups has at most one file: after deleting the marked hashes it
 deletes `store[size]` under the guard `len(store[size]) >= 0`, which always
 holds. Its docstring names as non-duplicates only unresolved sizes and
 single-file hash groups, which suggests that a size's groups of two or more
 files were meant to survive. This model follows the code as written.
 */
module Prune {
  import opened Index

  /** The bucket has a hash group of at most one file. */
  ghost predicate HasSingleton(b: Bucket)
    requires b.Resolved?
  {
    exists h :: h in b.groups && |b.groups[h]| <= 1
  }

  /** The bucket is resolved and every one of its hash groups holds at least two files. */
  predicate AllDuplicates(b: Bucket)
  {
    b.Resolved? && forall h :: h in b.groups ==> |b.groups[h]| >= 2
  }

  /** What `filter_duplicates` leaves of a store. */
  function Filtered(buckets: map<nat, Bucket>): map<nat, Bucket>
  {
    map s | s in buckets && AllDuplicates(buckets[s]) :: buckets[s]
  }

  /** The resolved buckets of `buckets`. */
  function ResolvedOnly(buckets: map<nat, Bucket>): map<nat, Bucket>
  {
    map s | s in buckets && buckets[s].Resolved? :: buckets[s]
  }

  /**
   Prunes `store`: first every unresolved size, then every size having a
   hash group of at most one file, together with all of that size's groups.
   */
  method FilterDuplicates(store: Store)
    modifies store
    ensures store.buckets == Filtered(old(store.buckets))
  {
    DropUnresolved(store);
    var singles := MarkSingletons(store);
    CommitDeletions(store, singles);
    assert store.buckets.Keys == Filtered(old(store.buckets)).Keys;
  }

  /** Marks the sizes whose value is still a bare file name, then deletes them. */
  method DropUnresolved(store: Store)
    modifies store
    ensures store.buckets == ResolvedOnly(old(store.buckets))
  {
    var marked: seq<nat> := [];
    var unvisited := store.buckets.Keys;
    while unvisited != {}
      invariant unvisited <= store.buckets.Keys
      invariant store.buckets == old(store.buckets)
      invariant forall s :: s in marked <==> s in store.buckets && s !in unvisited && store.buckets[s].Unresolved?
      decreases unvisited
    {
      var s :| s in unvisited;
      if store.buckets[s].Unresolved? {
        marked := marked + [s];
      }
      unvisited := unvisited - {s};
    }
    for i := 0 to |marked|
      invariant forall s :: s in store.buckets <==> s in old(store.buckets) && s !in marked[..i]
      invariant forall s :: s in store.buckets ==> store.buckets[s] == old(store.buckets)[s]
    {
      store.buckets := store.buckets - {marked[i]};
    }
    assert marked[..|marked|] == marked;
  }

  /**
   Marks, per size, the hashes whose group holds at most one file; a size is
   marked iff it has such a hash, and then with exactly those hashes.
   */
  method MarkSingletons(store: Store) returns (singles: map<nat, seq<string>>)
    requires forall s :: s in store.buckets ==> store.buckets[s].Resolved?
    ensures forall s :: s in singles <==> s in store.buckets && HasSingleton(store.buckets[s])
    ensures forall s, h :: s in singles ==>
      (h in singles[s] <==> h in store.buckets[s].groups && |store.buckets[s].groups[h]| <= 1)
  {
    singles := map[];
    var sizes := store.buckets.Keys;
    while sizes != {}
      invariant sizes <= store.buckets.Keys
      invariant forall s :: s in singles ==> s in store.buckets && s !in sizes
      invariant forall s :: s in store.buckets && s !in sizes ==> (s in singles <==> HasSingleton(store.buckets[s]))
      invariant forall s, h :: s in singles ==>
        (h in singles[s] <==> h in store.buckets[s].groups && |store.buckets[s].groups[h]| <= 1)
      decreases sizes
    {
      var s :| s in sizes;
      var groups := store.buckets[s].groups;
      var hashes := groups.Keys;
      while hashes != {}
        invariant hashes <= groups.Keys
        invariant forall t :: t in singles ==> t in store.buckets && (t !in sizes || t == s)
        invariant forall t :: t in store.buckets && t !in sizes ==> (t in singles <==> HasSingleton(store.buckets[t]))
        invariant forall t, h :: t in singles && t != s ==>
          (h in singles[t] <==> h in store.buckets[t].groups && |store.buckets[t].groups[h]| <= 1)
        invariant s in singles <==> exists h :: h in groups && h !in hashes && |groups[h]| <= 1
        invariant forall h :: s in singles ==>
          (h in singles[s] <==> h in groups && h !in hashes && |groups[h]| <= 1)
        decreases hashes
      {
        var h :| h in hashes;
        if |groups[h]| <= 1 {
          if s !in singles {
            singles := singles[s := []];
          }
          singles := singles[s := singles[s] + [h]];
        }
        hashes := hashes - {h};
      }
      sizes := sizes - {s};
    }
  }

  /** Deletes the marked hashes of each marked size, then that whole size. */
  method CommitDeletions(store: Store, singles: map<nat, seq<string>>)
    requires forall s :: s in singles ==> s in store.buckets && store.buckets[s].Resolved?
    modifies store
    ensures store.buckets == map s | s in old(store.buckets) && s !in singles :: old(store.buckets)[s]
  {
    var pending := singles.Keys;
    while pending != {}
      invariant pending <= singles.Keys
      invariant forall s :: s in store.buckets <==> s in old(store.buckets) && (s !in singles || s in pending)
      invariant forall s :: s in store.buckets ==> store.buckets[s] == old(store.buckets)[s]
      decreases pending
    {
      var s :| s in pending;
      ghost var before := store.buckets;
      var hashes := singles[s];
      for j := 0 to |hashes|
        invariant s in store.buckets && store.buckets[s].Resolved?
        invariant store.buckets - {s} == before - {s}
      {
        store.buckets := store.buckets[s := Resolved(store.buckets[s].groups - {hashes[j]})];
      }
      // The number of remaining hashes is never negative, so the size always goes.
      if |store.buckets[s].groups| >= 0 {
        store.buckets := store.buckets - {s};
      }
      assert store.buckets == before - {s};
      pending := pending - {s};
    }
  }

  // ---------------------------------------------------------------------------
  // Properties of the pruned store.
  // ---------------------------------------------------------------------------

  /** Pruning only deletes: every surviving size keeps exactly its original hash map and lists. */
  lemma FilteredOnlyDeletes(buckets: map<nat, Bucket>)
    ensures Filtered(buckets).Keys <= buckets.Keys
    ensures forall s :: s in Filtered(buckets) ==> Filtered(buckets)[s] == buckets[s]
  {
  }

  /** No bare file name survives, and every surviving hash group has at least two files. */
  lemma FilteredAllDuplicates(buckets: map<nat, Bucket>)
    ensures forall s :: s in Filtered(buckets) ==>
      Filtered(buckets)[s].Resolved? &&
      forall h :: h in Filtered(buckets)[s].groups ==> |Filtered(buckets)[s].groups[h]| >= 2
  {
  }

  /**
   One hash group of at most one file removes its whole size, whatever its
   other groups hold.
   */
  lemma FilteredDropsWholeBucket(buckets: map<nat, Bucket>, s: nat, h: string)
    requires s in buckets && buckets[s].Resolved?
    requires h in buckets[s].groups && |buckets[s].groups[h]| <= 1
    ensures s !in Filtered(buckets)
  {
  }

  /** A size whose groups all hold two or more files survives. */
  lemma FilteredKeepsDuplicateBuckets(buckets: map<nat, Bucket>, s: nat)
    requires s in buckets && AllDuplicates(buckets[s])
    ensures s in Filtered(buckets) && Filtered(buckets)[s] == buckets[s]
  {
  }

  /** Pruning judges each size on its own bucket alone. */
  lemma FilteredUpdate(buckets: map<nat, Bucket>, s: nat, b: Bucket)
    ensures Filtered(buckets[s := b]) ==
      if AllDuplicates(b) then Filtered(buckets)[s := b] else Filtered(buckets) - {s}
  {
    var l := Filtered(buckets[s := b]);
    var r := if AllDuplicates(b) then Filtered(buckets)[s := b] else Filtered(buckets) - {s};
    assert l.Keys == r.Keys;
  }

  /** Pruning twice is pruning once. */
  lemma FilteredIdempotent(buckets: map<nat, Bucket>)
    ensures Filtered(Filtered(buckets)) == Filtered(buckets)
  {
  }

  /**
   A size holding a group of two files and a group of one loses both: the
   pair is not reported.
   */
  lemma MixedBucketDropped(a: string, b: string, c: string, h: string, h': string)
    requires h != h'
    ensures Filtered(map[10 := Resolved(map[h := [a, b], h' := [c]])]) == map[]
  {
    FilteredDropsWholeBucket(map[10 := Resolved(map[h := [a, b], h' := [c]])], 10, h');
  }
}
