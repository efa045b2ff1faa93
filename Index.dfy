/**
 The duplicate index built by `collect_data` in src/ldup.py: a map from a
 file size to a bucket that either still holds the one file of that size
 seen so far (nothing hashed yet) or, once a second file of that size has
 arrived, maps each content hash to the files with that size and hash, in
 the order they were admitted.

 The file size (`os.stat`) and the SHA-256 digest of a file's bytes are
 given as the functions `size` and `hash` of the file name.
 */
module Index {
  import opened Seqs

  /** The value stored under one size: a bare file name, or hash -> files. */
  datatype Bucket =
    | Unresolved(file: string)
    | Resolved(groups: map<string, seq<string>>)

  /** The dictionary that `collect_data` creates and `filter_duplicates` prunes in place. */
  class Store {
    var buckets: map<nat, Bucket>

    constructor ()
      ensures buckets == map[]
    {
      buckets := map[];
    }

    /**
     Admits one file (the body of the loop in `collect_data`). `hashed` lists
     the files passed to the hash function, in the order they are hashed.
     */
    method Admit(size: string -> nat, hash: string -> string, filename: string) returns (ghost hashed: seq<string>)
      modifies this
      ensures var s := size(filename);
        && (s !in old(buckets) ==>
              buckets == old(buckets)[s := Unresolved(filename)] && hashed == [])
        && (s in old(buckets) && old(buckets)[s].Unresolved? ==>
              var kept := old(buckets)[s].file;
              buckets == old(buckets)[s := Resolved(Insert(map[hash(kept) := [kept]], hash(filename), filename))]
              && hashed == [kept, filename])
        && (s in old(buckets) && old(buckets)[s].Resolved? ==>
              buckets == old(buckets)[s := Resolved(Insert(old(buckets)[s].groups, hash(filename), filename))]
              && hashed == [filename])
    {
      var fileSize := size(filename);
      hashed := [];
      if fileSize !in buckets {
        // keep the name; hash it only if another file of this size turns up
        buckets := buckets[fileSize := Unresolved(filename)];
      } else {
        ghost var before := buckets;
        if buckets[fileSize].Unresolved? {
          var tmp := buckets[fileSize].file;
          var digest := hash(tmp);
          hashed := hashed + [tmp];
          buckets := buckets[fileSize := Resolved(map[digest := [tmp]])];
        }
        var digest := hash(filename);
        hashed := hashed + [filename];
        var groups := buckets[fileSize].groups;
        if digest in groups {
          buckets := buckets[fileSize := Resolved(groups[digest := groups[digest] + [filename]])];
        } else {
          buckets := buckets[fileSize := Resolved(groups[digest := [filename]])];
        }
      }
    }
  }

  // ---------------------------------------------------------------------------
  // The reference grouping: what the index holds once a list is admitted,
  // defined over the whole list at once.
  // ---------------------------------------------------------------------------

  /** The admitted files of size `s`, in admission order. */
  function BySize(size: string -> nat, fs: seq<string>, s: nat): seq<string>
  {
    Filter(fs, f => size(f) == s)
  }

  /** The files of `fs` whose hash is `h`, in order. */
  function ByHash(hash: string -> string, fs: seq<string>, h: string): seq<string>
  {
    Filter(fs, f => hash(f) == h)
  }

  /** The admitted files of size `s` and hash `h`, in admission order. */
  function ByKey(size: string -> nat, hash: string -> string, fs: seq<string>, s: nat, h: string): seq<string>
  {
    Filter(fs, f => size(f) == s && hash(f) == h)
  }

  function Sizes(size: string -> nat, fs: seq<string>): set<nat>
  {
    set f | f in fs :: size(f)
  }

  function Hashes(hash: string -> string, fs: seq<string>): set<string>
  {
    set f | f in fs :: hash(f)
  }

  /** The files of `files` grouped by hash, each group in order. */
  function HashGroups(hash: string -> string, files: seq<string>): map<string, seq<string>>
  {
    map h | h in Hashes(hash, files) :: ByHash(hash, files, h)
  }

  /** The bucket for size `s`: unresolved iff one file has that size. */
  function Classify(size: string -> nat, hash: string -> string, fs: seq<string>, s: nat): Bucket
  {
    var files := BySize(size, fs, s);
    if |files| == 1 then Unresolved(files[0]) else Resolved(HashGroups(hash, files))
  }

  /** The index of all of `fs`: one bucket per size that occurs. */
  function Grouped(size: string -> nat, hash: string -> string, fs: seq<string>): map<nat, Bucket>
  {
    map s | s in Sizes(size, fs) :: Classify(size, hash, fs, s)
  }

  /** The files of `ys` whose size is shared by at least two files of `zs`. */
  function SharedIn(size: string -> nat, ys: seq<string>, zs: seq<string>): seq<string>
  {
    Filter(ys, f => |BySize(size, zs, size(f))| >= 2)
  }

  /** The admitted files whose size some other admitted file also has. */
  function SharedFiles(size: string -> nat, fs: seq<string>): seq<string>
  {
    SharedIn(size, fs, fs)
  }

  /** `m` with `f` appended to the group of hash `h` (a new group if none). */
  function Insert(m: map<string, seq<string>>, h: string, f: string): map<string, seq<string>>
  {
    if h in m then m[h := m[h] + [f]] else m[h := [f]]
  }

  // ---------------------------------------------------------------------------
  // How the reference grouping changes when one more file is admitted.
  // ---------------------------------------------------------------------------

  lemma BySizeSnoc(size: string -> nat, xs: seq<string>, x: string, s: nat)
    ensures BySize(size, xs + [x], s) == if size(x) == s then BySize(size, xs, s) + [x] else BySize(size, xs, s)
  {
    FilterSnoc(xs, x, f => size(f) == s);
  }

  lemma ByHashSnoc(hash: string -> string, xs: seq<string>, x: string, h: string)
    ensures ByHash(hash, xs + [x], h) == if hash(x) == h then ByHash(hash, xs, h) + [x] else ByHash(hash, xs, h)
  {
    FilterSnoc(xs, x, f => hash(f) == h);
  }

  lemma BySizeAbsent(size: string -> nat, xs: seq<string>, s: nat)
    requires s !in Sizes(size, xs)
    ensures BySize(size, xs, s) == []
  {
    forall f | f in xs ensures size(f) != s {
      assert size(f) in Sizes(size, xs);
    }
    FilterNone(xs, f => size(f) == s);
  }

  /** Appending a file to a list extends exactly the group of its hash. */
  lemma HashGroupsSnoc(hash: string -> string, files: seq<string>, x: string)
    ensures HashGroups(hash, files + [x]) == Insert(HashGroups(hash, files), hash(x), x)
  {
    var m, m' := HashGroups(hash, files), HashGroups(hash, files + [x]);
    var hx := hash(x);
    assert Hashes(hash, files + [x]) == Hashes(hash, files) + {hx};
    forall h | h in m'
      ensures m'[h] == Insert(m, hx, x)[h]
    {
      HashGroupSnoc(hash, files, x, h);
    }
    assert m'.Keys == Insert(m, hx, x).Keys;
  }

  /** One group of HashGroupsSnoc. */
  lemma HashGroupSnoc(hash: string -> string, files: seq<string>, x: string, h: string)
    requires h in Hashes(hash, files + [x])
    ensures HashGroups(hash, files + [x])[h] == Insert(HashGroups(hash, files), hash(x), x)[h]
  {
    var hx := hash(x);
    ByHashSnoc(hash, files, x, h);
    if h == hx && hx !in Hashes(hash, files) {
      forall f | f in files ensures hash(f) != hx {
        assert hash(f) in Hashes(hash, files);
      }
      FilterNone(files, f => hash(f) == hx);
    }
  }

  /** Admitting `x` changes only the bucket for its size. */
  lemma GroupedSnoc(size: string -> nat, hash: string -> string, xs: seq<string>, x: string)
    ensures Grouped(size, hash, xs + [x]) ==
      Grouped(size, hash, xs)[size(x) := Classify(size, hash, xs + [x], size(x))]
  {
    var g, g', s := Grouped(size, hash, xs), Grouped(size, hash, xs + [x]), size(x);
    var b := Classify(size, hash, xs + [x], s);
    assert Sizes(size, xs + [x]) == Sizes(size, xs) + {s};
    forall t | t in g' ensures g'[t] == g[s := b][t] {
      BySizeSnoc(size, xs, x, t);
    }
    assert g'.Keys == g[s := b].Keys;
  }

  /** A file of a size not seen before gets an unresolved bucket of its own. */
  lemma ClassifyNewSize(size: string -> nat, hash: string -> string, xs: seq<string>, x: string)
    requires size(x) !in Grouped(size, hash, xs)
    ensures Classify(size, hash, xs + [x], size(x)) == Unresolved(x)
  {
    BySizeSnoc(size, xs, x, size(x));
    BySizeAbsent(size, xs, size(x));
    assert [] + [x] == [x];
  }

  /** The second file of a size resolves the bucket: the kept file's group first, then the new file. */
  lemma ClassifyFirstCollision(size: string -> nat, hash: string -> string, xs: seq<string>, x: string)
    requires size(x) in Grouped(size, hash, xs) && Grouped(size, hash, xs)[size(x)].Unresolved?
    ensures var kept := Grouped(size, hash, xs)[size(x)].file;
      Classify(size, hash, xs + [x], size(x)) == Resolved(Insert(map[hash(kept) := [kept]], hash(x), x))
  {
    var s := size(x);
    var files := BySize(size, xs, s);
    var kept := Grouped(size, hash, xs)[s].file;
    BySizeSnoc(size, xs, x, s);
    assert files == [] + [kept];
    HashGroupsSnoc(hash, [], kept);
    assert HashGroups(hash, []) == map[];
    HashGroupsSnoc(hash, files, x);
  }

  /** A later file of a size joins the group of its hash in the resolved bucket. */
  lemma ClassifyResolved(size: string -> nat, hash: string -> string, xs: seq<string>, x: string)
    requires size(x) in Grouped(size, hash, xs) && Grouped(size, hash, xs)[size(x)].Resolved?
    ensures Classify(size, hash, xs + [x], size(x)) ==
      Resolved(Insert(Grouped(size, hash, xs)[size(x)].groups, hash(x), x))
  {
    var s := size(x);
    BySizeSnoc(size, xs, x, s);
    HashGroupsSnoc(hash, BySize(size, xs, s), x);
  }

  /** The files `collect_data` hashes when it admits `x`, by how many files already have its size. */
  lemma SharedSnoc(size: string -> nat, xs: seq<string>, x: string)
    ensures var files := BySize(size, xs, size(x));
      multiset(SharedFiles(size, xs + [x])) ==
        multiset(SharedFiles(size, xs))
        + (if |files| == 1 then multiset(files) else multiset{})
        + (if |files| >= 1 then multiset{x} else multiset{})
  {
    var s := size(x);
    BySizeSnoc(size, xs, x, s);
    SharedExtend(size, xs, xs, x);
    FilterSnoc(xs, x, f => |BySize(size, xs + [x], size(f))| >= 2);
    assert SharedFiles(size, xs + [x]) ==
      SharedIn(size, xs, xs + [x]) + (if |BySize(size, xs + [x], s)| >= 2 then [x] else []);
  }

  /** How the bucket for `s` reflects the number of admitted files of size `s`. */
  lemma BucketCount(size: string -> nat, hash: string -> string, xs: seq<string>, s: nat)
    ensures var g, files := Grouped(size, hash, xs), BySize(size, xs, s);
      && (s in g <==> |files| >= 1)
      && (s in g && g[s].Unresolved? <==> |files| == 1)
      && (s in g && g[s].Unresolved? ==> files == [g[s].file])
  {
    var files := BySize(size, xs, s);
    if s !in Sizes(size, xs) {
      BySizeAbsent(size, xs, s);
    } else {
      var f :| f in xs && size(f) == s;
      assert f in files;
    }
  }

  /** Growing the admitted list by `x` makes the files of its size shared once two exist. */
  lemma {:induction false} SharedExtend(size: string -> nat, ys: seq<string>, xs: seq<string>, x: string)
    ensures multiset(SharedIn(size, ys, xs + [x])) ==
      multiset(SharedIn(size, ys, xs)) +
      (if |BySize(size, xs, size(x))| == 1 then multiset(BySize(size, ys, size(x))) else multiset{})
  {
    var s := size(x);
    if ys != [] {
      var init, y := ys[..|ys| - 1], ys[|ys| - 1];
      assert ys == init + [y];
      SharedExtend(size, init, xs, x);
      FilterSnoc(init, y, f => |BySize(size, xs + [x], size(f))| >= 2);
      FilterSnoc(init, y, f => |BySize(size, xs, size(f))| >= 2);
      BySizeSnoc(size, init, y, s);
      BySizeSnoc(size, xs, x, size(y));
    }
  }

  /** Admitting `x` after `xs`, as one update of the store. */
  lemma GroupedStep(size: string -> nat, hash: string -> string, xs: seq<string>, x: string)
    ensures var g, s := Grouped(size, hash, xs), size(x);
      Grouped(size, hash, xs + [x]) ==
        if s !in g then g[s := Unresolved(x)]
        else if g[s].Unresolved? then g[s := Resolved(Insert(map[hash(g[s].file) := [g[s].file]], hash(x), x))]
        else g[s := Resolved(Insert(g[s].groups, hash(x), x))]
  {
    var g, s := Grouped(size, hash, xs), size(x);
    GroupedSnoc(size, hash, xs, x);
    if s !in g {
      ClassifyNewSize(size, hash, xs, x);
    } else if g[s].Unresolved? {
      ClassifyFirstCollision(size, hash, xs, x);
    } else {
      ClassifyResolved(size, hash, xs, x);
    }
  }

  /** The files hashed when `x` is admitted after `xs`: the log grows by exactly them. */
  lemma SharedStep(size: string -> nat, hash: string -> string, xs: seq<string>, x: string)
    ensures var g, s := Grouped(size, hash, xs), size(x);
      multiset(SharedFiles(size, xs + [x])) ==
        multiset(SharedFiles(size, xs)) +
        multiset(if s !in g then [] else if g[s].Unresolved? then [g[s].file, x] else [x])
  {
    SharedSnoc(size, xs, x);
    BucketCount(size, hash, xs, size(x));
  }

  // ---------------------------------------------------------------------------
  // collect_data
  // ---------------------------------------------------------------------------

  /**
   Admits `filenames` one at a time into a new store. A size seen for the
   first time keeps the bare file name; the second file of a size first
   hashes the kept file, then itself; later files of that size are hashed at
   once. `hashed` records, in order, every file passed to the hash function.
   */
  method CollectData(size: string -> nat, hash: string -> string, filenames: seq<string>)
    returns (store: Store, ghost hashed: seq<string>)
    ensures fresh(store)
    ensures store.buckets == Grouped(size, hash, filenames)
    ensures multiset(hashed) == multiset(SharedFiles(size, filenames))
  {
    store := new Store();
    hashed := [];
    for i := 0 to |filenames|
      invariant store.buckets == Grouped(size, hash, filenames[..i])
      invariant multiset(hashed) == multiset(SharedFiles(size, filenames[..i]))
    {
      var filename := filenames[i];
      ghost var prev := filenames[..i];
      ghost var hashedNow := store.Admit(size, hash, filename);
      hashed := hashed + hashedNow;
      // the new store and hash log are those of the reference grouping of one more file
      assert filenames[..i + 1] == prev + [filename];
      GroupedStep(size, hash, prev, filename);
      SharedStep(size, hash, prev, filename);
    }
    assert filenames[..|filenames|] == filenames;
  }

  // ---------------------------------------------------------------------------
  // Properties of the index that collect_data builds.
  // ---------------------------------------------------------------------------

  /** A size holds a bare file name iff exactly one admitted file has that size. */
  lemma UnresolvedIffUnique(size: string -> nat, hash: string -> string, fs: seq<string>, s: nat, f: string)
    ensures var g := Grouped(size, hash, fs);
      (s in g && g[s] == Unresolved(f)) <==>
      exists i :: 0 <= i < |fs| && fs[i] == f && size(f) == s &&
        forall j :: 0 <= j < |fs| && j != i ==> size(fs[j]) != s
  {
    var g, p := Grouped(size, hash, fs), (x: string) => size(x) == s;
    BucketCount(size, hash, fs, s);
    if s in g && g[s] == Unresolved(f) {
      FilterSingleton(fs, p);
      var i :| OnlyAt(fs, p, i) && fs[i] == f;
      assert forall j :: 0 <= j < |fs| && j != i ==> size(fs[j]) != s;
    }
    if exists i :: 0 <= i < |fs| && fs[i] == f && size(f) == s &&
        forall j :: 0 <= j < |fs| && j != i ==> size(fs[j]) != s
    {
      var i :| 0 <= i < |fs| && fs[i] == f && size(f) == s &&
        forall j :: 0 <= j < |fs| && j != i ==> size(fs[j]) != s;
      assert OnlyAt(fs, p, i);
      FilterOnlyAt(fs, p, i);
    }
  }

  /** Every admitted file is filed under its own size and, once resolved, its own hash. */
  lemma Placement(size: string -> nat, hash: string -> string, fs: seq<string>, i: nat)
    requires i < |fs|
    ensures var g, f := Grouped(size, hash, fs), fs[i];
      && size(f) in g
      && (g[size(f)].Unresolved? ==> g[size(f)].file == f)
      && (g[size(f)].Resolved? ==> hash(f) in g[size(f)].groups && f in g[size(f)].groups[hash(f)])
  {
    var f, s := fs[i], size(fs[i]);
    var files := BySize(size, fs, s);
    assert f in files;
    assert s in Sizes(size, fs);
    if |files| != 1 {
      assert hash(f) in Hashes(hash, files);
      assert f in ByHash(hash, files, hash(f));
    }
  }

  /** Selecting by hash among the files of one size is selecting by size and hash together. */
  lemma {:induction false} ByHashOfBySize(size: string -> nat, hash: string -> string, fs: seq<string>, s: nat, h: string)
    ensures ByHash(hash, BySize(size, fs, s), h) == ByKey(size, hash, fs, s, h)
  {
    if fs != [] {
      var init, x := fs[..|fs| - 1], fs[|fs| - 1];
      assert fs == init + [x];
      ByHashOfBySize(size, hash, init, s, h);
      BySizeSnoc(size, init, x, s);
      ByHashSnoc(hash, BySize(size, init, s), x, h);
      FilterSnoc(init, x, f => size(f) == s && hash(f) == h);
    }
  }

  /**
   A resolved bucket has at least one group, and the group of hash `h` is
   exactly the admitted files of that size and hash, in admission order,
   and is never empty.
   */
  lemma ResolvedGroups(size: string -> nat, hash: string -> string, fs: seq<string>, s: nat)
    requires s in Grouped(size, hash, fs) && Grouped(size, hash, fs)[s].Resolved?
    ensures var groups := Grouped(size, hash, fs)[s].groups;
      && groups != map[]
      && forall h :: h in groups ==> groups[h] == ByKey(size, hash, fs, s, h) && groups[h] != []
  {
    var files := BySize(size, fs, s);
    var groups := Grouped(size, hash, fs)[s].groups;
    BucketCount(size, hash, fs, s);
    assert files[0] in files;
    assert hash(files[0]) in groups;
    forall h | h in groups ensures groups[h] == ByKey(size, hash, fs, s, h) && groups[h] != [] {
      ByHashOfBySize(size, hash, fs, s, h);
      var f :| f in files && hash(f) == h;
      assert f in groups[h];
    }
  }

  /** A file is in the group of size `s` and hash `h` iff it was admitted with that size and hash. */
  lemma InGroupIff(size: string -> nat, hash: string -> string, fs: seq<string>, s: nat, h: string, f: string)
    requires s in Grouped(size, hash, fs) && Grouped(size, hash, fs)[s].Resolved?
    requires h in Grouped(size, hash, fs)[s].groups
    ensures f in Grouped(size, hash, fs)[s].groups[h] <==> f in fs && size(f) == s && hash(f) == h
  {
    ResolvedGroups(size, hash, fs, s);
  }

  /** Each group keeps every copy of each of its files, so with distinct names each file occurs once. */
  lemma GroupMultiplicity(size: string -> nat, hash: string -> string, fs: seq<string>, s: nat, h: string, f: string)
    requires s in Grouped(size, hash, fs) && Grouped(size, hash, fs)[s].Resolved?
    requires h in Grouped(size, hash, fs)[s].groups
    ensures multiset(Grouped(size, hash, fs)[s].groups[h])[f] ==
      if size(f) == s && hash(f) == h then multiset(fs)[f] else 0
    ensures NoDuplicates(fs) && f in fs && size(f) == s && hash(f) == h ==>
      multiset(Grouped(size, hash, fs)[s].groups[h])[f] == 1
  {
    ResolvedGroups(size, hash, fs, s);
    FilterCount(fs, f => size(f) == s && hash(f) == h, f);
    if NoDuplicates(fs) && f in fs {
      DistinctCount(fs, f);
    }
  }

  /** Within a group, files stand in the order in which they were admitted. */
  lemma AdmissionOrder(size: string -> nat, hash: string -> string, fs: seq<string>, s: nat, h: string, a: nat, b: nat)
    requires s in Grouped(size, hash, fs) && Grouped(size, hash, fs)[s].Resolved?
    requires h in Grouped(size, hash, fs)[s].groups
    requires a < b < |Grouped(size, hash, fs)[s].groups[h]|
    ensures var group := Grouped(size, hash, fs)[s].groups[h];
      exists i, j :: 0 <= i < j < |fs| && fs[i] == group[a] && fs[j] == group[b]
  {
    ResolvedGroups(size, hash, fs, s);
    FilterOrder(fs, f => size(f) == s && hash(f) == h, a, b);
  }

  /**
   The hash function sees exactly the admitted files that end up in a
   resolved bucket: a file alone in its size is never hashed.
   */
  lemma HashedIffResolved(size: string -> nat, hash: string -> string, fs: seq<string>, f: string)
    requires f in fs
    ensures size(f) in Grouped(size, hash, fs)
    ensures f in SharedFiles(size, fs) <==> Grouped(size, hash, fs)[size(f)].Resolved?
  {
    BucketCount(size, hash, fs, size(f));
    assert f in BySize(size, fs, size(f));
  }
}
