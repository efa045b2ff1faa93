/**
 `transform_directories` in src/ldup.py: replaces the keyword "." by the
 current directory in the caller's list (in place), then keeps the first
 occurrence of every entry that is an existing directory, falling back to
 the current directory when none is. The current directory and the
 directory test are given as `cwd` and `isDir`.
 */
module Directories {
  import opened Seqs

  /** The list with every "." replaced by `cwd`. */
  function Replaced(directories: seq<string>, cwd: string): (r: seq<string>)
    ensures |r| == |directories|
  {
    seq(|directories|, i requires 0 <= i < |directories| =>
      if directories[i] == "." then cwd else directories[i])
  }

  /** The entries of `r` stand in the order of their first occurrences in `ds`. */
  ghost predicate InFirstOccurrenceOrder(r: seq<string>, ds: seq<string>)
  {
    forall i, j :: 0 <= i < j < |r| ==>
      r[i] in ds && r[j] in ds && FirstIndex(ds, r[i]) < FirstIndex(ds, r[j])
  }

  /** Some entry of `ds` is a directory. */
  ghost predicate AnyDirectory(ds: seq<string>, isDir: string -> bool)
  {
    exists d :: d in ds && isDir(d)
  }

  /** Replaces the keyword "." in place (the first loop of `transform_directories`). */
  method ReplaceKeywords(directories: array<string>, cwd: string)
    modifies directories
    ensures directories[..] == Replaced(old(directories[..]), cwd)
  {
    for index := 0 to directories.Length
      invariant forall k :: 0 <= k < index ==>
        directories[k] == if old(directories[k]) == "." then cwd else old(directories[k])
      invariant forall k :: index <= k < directories.Length ==> directories[k] == old(directories[k])
    {
      if directories[index] == "." {
        directories[index] := cwd;
      }
    }
  }

  /**
   Keeps each directory of `directories` once, in the order of first
   occurrence; `[cwd]` when none of them is a directory.
   */
  method SelectDirectories(directories: seq<string>, cwd: string, isDir: string -> bool)
    returns (transformed: seq<string>)
    ensures |transformed| > 0
    ensures NoDuplicates(transformed)
    ensures AnyDirectory(directories, isDir) ==>
      (forall d :: d in transformed <==> d in directories && isDir(d)) &&
      InFirstOccurrenceOrder(transformed, directories)
    ensures !AnyDirectory(directories, isDir) ==> transformed == [cwd]
  {
    transformed := [];
    for i := 0 to |directories|
      invariant forall d :: d in transformed <==> d in directories[..i] && isDir(d)
      invariant NoDuplicates(transformed)
      invariant forall k :: 0 <= k < |transformed| ==>
        transformed[k] in directories && FirstIndex(directories, transformed[k]) < i
      invariant InFirstOccurrenceOrder(transformed, directories)
    {
      var directory := directories[i];
      assert directories[..i + 1] == directories[..i] + [directory];
      if directory !in transformed && isDir(directory) {
        FirstIndexAt(directories, i);
        transformed := transformed + [directory];
      }
    }
    assert directories[..|directories|] == directories;
    if |transformed| == 0 {
      transformed := transformed + [cwd];
    } else {
      assert transformed[0] in directories && isDir(transformed[0]);
    }
  }

  /** Both steps: keyword replacement in the caller's list, then selection. */
  method TransformDirectories(directories: array<string>, cwd: string, isDir: string -> bool)
    returns (transformed: seq<string>)
    modifies directories
    ensures directories[..] == Replaced(old(directories[..]), cwd)
    ensures |transformed| > 0
    ensures NoDuplicates(transformed)
    ensures AnyDirectory(directories[..], isDir) ==>
      (forall d :: d in transformed <==> d in directories[..] && isDir(d)) &&
      InFirstOccurrenceOrder(transformed, directories[..])
    ensures !AnyDirectory(directories[..], isDir) ==> transformed == [cwd]
  {
    ReplaceKeywords(directories, cwd);
    transformed := SelectDirectories(directories[..], cwd, isDir);
  }

  /** Three entries drawn from two values repeat one. */
  lemma Pigeonhole(t: seq<string>, x: string, y: string)
    requires |t| == 3 && forall k :: 0 <= k < 3 ==> t[k] == x || t[k] == y
    ensures !NoDuplicates(t)
  {
    assert t[0] == t[1] || t[1] == t[2] || t[0] == t[2];
  }

  /**
   The example in the docstring of `transform_directories`, run from /home/foo: any list
   meeting the selection's promise for it is the two home directories.
   */
  lemma HomeExample(isDir: string -> bool, transformed: seq<string>)
    requires isDir("/home/foo") && isDir("/home/foo/Downloads")
    requires var ds := Replaced([".", "/home/foo", "/home/foo/Downloads"], "/home/foo");
      NoDuplicates(transformed) &&
      (forall d :: d in transformed <==> d in ds && isDir(d)) &&
      InFirstOccurrenceOrder(transformed, ds)
    ensures transformed == ["/home/foo", "/home/foo/Downloads"]
  {
    var home, downloads := "/home/foo", "/home/foo/Downloads";
    var ds := Replaced([".", home, downloads], home);
    assert ds == [home, home, downloads];
    assert home != downloads by { assert |home| != |downloads|; }
    assert FirstIndex(ds, home) == 0;
    assert ds[..2] == [home, home];
    FirstIndexAt(ds, 2);
    assert forall k :: 0 <= k < |transformed| ==> transformed[k] == home || transformed[k] == downloads;
    assert |transformed| <= 2 by {
      if |transformed| >= 3 {
        Pigeonhole(transformed[..3], home, downloads);
      }
    }
    assert home in transformed && downloads in transformed;
    assert |transformed| == 2;
    assert FirstIndex(ds, transformed[0]) < FirstIndex(ds, transformed[1]);
  }
}
