/**
 The duplicate-finding core of `main` in src/ldup.py: admit the file names
 into a new store, then prune it. The lemmas describe the pruned store
 directly in terms of the admitted list.
 */
module Pipeline {
  import opened Seqs
  import opened Index
  import opened Prune

  /** The store `main` hands to `output`, as a function of the admitted files. */
  function Duplicates(size: string -> nat, hash: string -> string, fs: seq<string>): map<nat, Bucket>
  {
    Filtered(Grouped(size, hash, fs))
  }

  /** `collect_data` followed by `filter_duplicates`. */
  method FindDuplicates(size: string -> nat, hash: string -> string, filenames: seq<string>)
    returns (store: Store, ghost hashed: seq<string>)
    ensures fresh(store)
    ensures store.buckets == Duplicates(size, hash, filenames)
    ensures multiset(hashed) == multiset(SharedFiles(size, filenames))
  {
    store, hashed := CollectData(size, hash, filenames);
    FilterDuplicates(store);
  }

  /**
   A size is reported iff at least two admitted files have it and every
   admitted file of that size shares its hash with another; each reported
   group is then all admitted files of that size and hash, in admission order.
   */
  lemma ReportedIff(size: string -> nat, hash: string -> string, fs: seq<string>, s: nat)
    ensures var d := Duplicates(size, hash, fs);
      s in d <==>
        |BySize(size, fs, s)| >= 2 &&
        forall f :: f in fs && size(f) == s ==> |ByKey(size, hash, fs, s, hash(f))| >= 2
    ensures var d := Duplicates(size, hash, fs);
      s in d ==> forall h :: h in d[s].groups ==> d[s].groups[h] == ByKey(size, hash, fs, s, h)
  {
    var g := Grouped(size, hash, fs);
    BucketCount(size, hash, fs, s);
    if s in g && g[s].Resolved? {
      ResolvedGroups(size, hash, fs, s);
      var groups := g[s].groups;
      forall f | f in fs && size(f) == s ensures hash(f) in groups {
        assert f in BySize(size, fs, s);
      }
    }
  }

  /** The grouping of a list with no two files of equal size: each size unresolved. */
  lemma DistinctSizesUnresolved(size: string -> nat, hash: string -> string, fs: seq<string>, i: nat)
    requires forall j, k :: 0 <= j < k < |fs| ==> size(fs[j]) != size(fs[k])
    requires i < |fs|
    ensures Grouped(size, hash, fs)[size(fs[i])] == Unresolved(fs[i])
    ensures |BySize(size, fs, size(fs[i]))| == 1
  {
    UnresolvedIffUnique(size, hash, fs, size(fs[i]), fs[i]);
    BucketCount(size, hash, fs, size(fs[i]));
  }

  /** Files of pairwise distinct sizes: nothing is reported and nothing is hashed. */
  lemma DistinctSizesNoDuplicates(size: string -> nat, hash: string -> string, fs: seq<string>)
    requires forall j, k :: 0 <= j < k < |fs| ==> size(fs[j]) != size(fs[k])
    ensures Duplicates(size, hash, fs) == map[]
    ensures SharedFiles(size, fs) == []
  {
    var g := Grouped(size, hash, fs);
    forall s | s in g ensures g[s].Unresolved? {
      var f :| f in fs && size(f) == s;
      var i :| 0 <= i < |fs| && fs[i] == f;
      DistinctSizesUnresolved(size, hash, fs, i);
    }
    forall f | f in fs ensures |BySize(size, fs, size(f))| < 2 {
      var i :| 0 <= i < |fs| && fs[i] == f;
      DistinctSizesUnresolved(size, hash, fs, i);
    }
    FilterNone(fs, f => |BySize(size, fs, size(f))| >= 2);
  }

  /** The store after admitting one file. */
  lemma GroupedOne(size: string -> nat, hash: string -> string, a: string)
    ensures Grouped(size, hash, [a]) == map[size(a) := Unresolved(a)]
  {
    assert [] + [a] == [a];
    assert Grouped(size, hash, []) == map[];
    assert Classify(size, hash, [a], size(a)) == Unresolved(a) by {
      ClassifyNewSize(size, hash, [], a);
    }
    GroupedSnoc(size, hash, [], a);
  }

  /** The store after admitting two files of equal size: one resolved bucket. */
  lemma GroupedSameSize(size: string -> nat, hash: string -> string, a: string, b: string)
    requires size(a) == size(b)
    ensures Grouped(size, hash, [a, b]) == map[size(a) := Resolved(Insert(map[hash(a) := [a]], hash(b), b))]
  {
    assert [a] + [b] == [a, b];
    GroupedOne(size, hash, a);
    assert Classify(size, hash, [a, b], size(a)) == Resolved(Insert(map[hash(a) := [a]], hash(b), b)) by {
      ClassifyFirstCollision(size, hash, [a], b);
    }
    GroupedSnoc(size, hash, [a], b);
  }

  /** The store after admitting two files of equal size and hash. */
  lemma GroupedPair(size: string -> nat, hash: string -> string, a: string, b: string)
    requires size(a) == size(b) && hash(a) == hash(b)
    ensures Grouped(size, hash, [a, b]) == map[size(a) := Resolved(map[hash(a) := [a, b]])]
  {
    GroupedSameSize(size, hash, a, b);
    assert [a] + [b] == [a, b];
    assert Insert(map[hash(a) := [a]], hash(b), b) == map[hash(a) := [a, b]];
  }

  /** Two files of equal size and hash form one group, in the order admitted. */
  lemma EqualPair(size: string -> nat, hash: string -> string, a: string, b: string)
    requires size(a) == size(b) && hash(a) == hash(b)
    ensures Duplicates(size, hash, [a, b]) == map[size(a) := Resolved(map[hash(a) := [a, b]])]
  {
    GroupedPair(size, hash, a, b);
    FilteredUpdate(map[], size(a), Resolved(map[hash(a) := [a, b]]));
  }

  /** Two files of equal size and different hash are not reported. */
  lemma DifferentPair(size: string -> nat, hash: string -> string, a: string, b: string)
    requires size(a) == size(b) && hash(a) != hash(b)
    ensures Duplicates(size, hash, [a, b]) == map[]
  {
    GroupedSameSize(size, hash, a, b);
    var groups := Insert(map[hash(a) := [a]], hash(b), b);
    assert hash(a) in groups && groups[hash(a)] == [a];
    FilteredDropsWholeBucket(Grouped(size, hash, [a, b]), size(a), hash(a));
  }

  /** The store after admitting two equal files of size 10 and one file of size 20. */
  lemma GroupedPairAndLoner(size: string -> nat, hash: string -> string, a: string, b: string, c: string)
    requires size(a) == 10 && size(b) == 10 && size(c) == 20 && hash(a) == hash(b)
    ensures Grouped(size, hash, [a, b, c]) ==
      map[10 := Resolved(map[hash(a) := [a, b]])][20 := Unresolved(c)]
  {
    assert [a, b] + [c] == [a, b, c];
    GroupedPair(size, hash, a, b);
    assert Classify(size, hash, [a, b, c], 20) == Unresolved(c) by {
      ClassifyNewSize(size, hash, [a, b], c);
    }
    GroupedSnoc(size, hash, [a, b], c);
  }

  /** Two equal files of size 10 and one file of size 20: one group, the pair. */
  lemma PairAndLoner(size: string -> nat, hash: string -> string, a: string, b: string, c: string)
    requires size(a) == 10 && size(b) == 10 && size(c) == 20 && hash(a) == hash(b)
    ensures Duplicates(size, hash, [a, b, c]) == map[10 := Resolved(map[hash(a) := [a, b]])]
  {
    var pair := map[10 := Resolved(map[hash(a) := [a, b]])];
    GroupedPairAndLoner(size, hash, a, b, c);
    assert Filtered(pair) == pair by {
      FilteredUpdate(map[], 10, pair[10]);
    }
    FilteredUpdate(pair, 20, Unresolved(c));
    assert pair - {20} == pair;
  }

  /** The store after admitting a third file of the size of a resolved pair. */
  lemma GroupedThird(size: string -> nat, hash: string -> string, a: string, b: string, c: string)
    requires size(a) == size(b) == size(c) && hash(a) == hash(b)
    ensures Grouped(size, hash, [a, b, c]) ==
      map[size(a) := Resolved(Insert(map[hash(a) := [a, b]], hash(c), c))]
  {
    assert [a, b] + [c] == [a, b, c];
    GroupedPair(size, hash, a, b);
    assert Classify(size, hash, [a, b, c], size(a)) == Resolved(Insert(map[hash(a) := [a, b]], hash(c), c)) by {
      ClassifyResolved(size, hash, [a, b], c);
    }
    GroupedSnoc(size, hash, [a, b], c);
  }

  /** The store after admitting three files of equal size and hash. */
  lemma GroupedTriple(size: string -> nat, hash: string -> string, a: string, b: string, c: string)
    requires size(a) == size(b) == size(c) && hash(a) == hash(b) == hash(c)
    ensures Grouped(size, hash, [a, b, c]) == map[size(a) := Resolved(map[hash(a) := [a, b, c]])]
  {
    GroupedThird(size, hash, a, b, c);
    assert [a, b] + [c] == [a, b, c];
    assert Insert(map[hash(a) := [a, b]], hash(c), c) == map[hash(a) := [a, b, c]];
  }

  /** Three files of size zero and equal hash form one group of three. */
  lemma ZeroByteTriple(size: string -> nat, hash: string -> string, a: string, b: string, c: string)
    requires size(a) == 0 && size(b) == 0 && size(c) == 0
    requires hash(a) == hash(b) == hash(c)
    ensures Duplicates(size, hash, [a, b, c]) == map[0 := Resolved(map[hash(a) := [a, b, c]])]
  {
    GroupedTriple(size, hash, a, b, c);
    FilteredUpdate(map[], 0, Resolved(map[hash(a) := [a, b, c]]));
  }

  /**
   Three files of one size, two of them equal: the equal pair is not
   reported, because the third file's group removes the whole size.
   */
  lemma PairBesideSingletonDropped(size: string -> nat, hash: string -> string, a: string, b: string, c: string)
    requires size(a) == size(b) == size(c)
    requires hash(a) == hash(b) && hash(c) != hash(a)
    ensures Duplicates(size, hash, [a, b, c]) == map[]
  {
    GroupedThird(size, hash, a, b, c);
    var groups := Insert(map[hash(a) := [a, b]], hash(c), c);
    assert hash(c) in groups && groups[hash(c)] == [c];
    FilteredDropsWholeBucket(Grouped(size, hash, [a, b, c]), size(a), hash(c));
  }
}
