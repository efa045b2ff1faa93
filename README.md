# ldup duplicate finder, modelled in Dafny

ldup lists duplicate files. It takes a list of directories and collects
the file names in them. It then groups the files by size, hashes only the
files whose size is shared, and prunes the result so that only groups of
identical files remain. This project models that core:

- `Directories` models `transform_directories`. It replaces the keyword
  `.` by the current directory in the caller's list, in place on an
  array. It then keeps the first occurrence of each existing directory,
  and falls back to the current directory when there is none.
- `Paths` models `is_hidden`. A path is hidden when one of its
  `/`-separated components starts with a dot.
- `Index` models `collect_data`. The store (`Index.Store`) is a map from
  file size to a bucket. A bucket holds either the one bare file name seen
  so far for that size, or a map from hash digest to the files of that
  size and digest. A file is hashed only once a second file of its size
  has shown up; a ghost log records every call to the hash function.
  `CollectData` is proved against `Grouped`, which states the same index
  for the whole list at once.
- `Prune` models `filter_duplicates`. It prunes the store in place, in
  the same three phases as the Python function, and is proved against the
  function `Filtered`.
- `Pipeline` models the duplicate-finding part of `main` (admit, then
  prune). Its lemmas describe the reported groups in terms of the admitted
  file list and work through concrete scenarios.
- `Seqs` holds the generic sequence facts the other modules use.

Outside inputs are parameters:

- the file size (`os.stat`) is `size: string -> nat`;
- the SHA-256 digest of a file's contents is `hash: string -> string`;
- the current directory is `cwd`;
- `os.path.isdir` is `isDir: string -> bool`.

Where a docstring and the code disagree, the model follows the code.
`filter_duplicates` deletes a whole size as soon as any one of its hash
groups has at most one file. Its docstring, and a reading of it as
"delete the size if nothing is left", would keep that size's other groups
of two or more files. The code deletes the size under the guard
`len(store[size]) >= 0`, which is always true. The model keeps that
behaviour (`Prune.CommitDeletions`). It proves the consequence in
`Prune.FilteredDropsWholeBucket`, `Prune.MixedBucketDropped` and
`Pipeline.PairBesideSingletonDropped`.

## Model

| member | source | states |
|---|---|---|
| Directories.ReplaceKeywords | src/ldup.py:79-85 | after the loop, the array holds the old entries with every "." replaced by the current directory, and nothing else changed |
| Directories.SelectDirectories | src/ldup.py:87-96 | the result is never empty and has no repeats; if some entry is a directory, the result holds exactly the entries that are directories, in the order of their first occurrence; otherwise it is exactly [cwd] |
| Directories.TransformDirectories | src/ldup.py:62-96 | keyword replacement in the caller's array, then the selection's guarantees over the replaced list |
| Directories.HomeExample | src/ldup.py:70-77 | for the documented input run from /home/foo, any result meeting the selection's guarantees is ["/home/foo", "/home/foo/Downloads"] |
| Paths.Split | src/ldup.py:190 | the components of `p.split("/")`, empty ones included; there is always at least one |
| Paths.SplitCount | src/ldup.py:190 | a path has exactly one component more than it has slashes |
| Paths.IsHidden | src/ldup.py:174-194 | a path is hidden iff a "." begins it or directly follows one of its "/", which is the same as one of its split components starting with "." |
| Paths.SplitJoin | src/ldup.py:190 | splitting on "/" loses nothing: joining the components with "/" gives back the path, and no component contains "/" |
| Paths.HiddenIff | src/ldup.py:190-194 | a path has a component starting with "." iff a "." starts the path or directly follows a "/" |
| Paths.LaterComponents | src/ldup.py:190-193 | a component after the first starts with "." iff some "/" in the path is directly followed by "." |
| Paths.HiddenDirectoryExample | src/ldup.py:179-180 | a file inside a dot-directory is hidden |
| Paths.HiddenFileExample | src/ldup.py:182-183 | a dot file is hidden |
| Paths.VisibleFileExample | src/ldup.py:185-186 | a dot inside a file name does not make the path hidden |
| Index.Store.constructor | src/ldup.py:207 | the store starts empty |
| Index.Store.Admit | src/ldup.py:209-237 | the new store and the files hashed, in order, in each of the three cases: a new size keeps the bare name and hashes nothing; the second file of a size hashes the kept file and then itself, and the size becomes a hash map with their groups; a later file is hashed and appended to its hash's group, or starts a new group |
| Index.CollectData | src/ldup.py:197-238 | the store built from a name list equals the whole-list grouping `Grouped`; the files passed to the hash function are, as a multiset, exactly the names whose size occurs at least twice |
| Index.GroupedStep | src/ldup.py:208-237 | admitting one more file changes the whole-list grouping exactly as Store.Admit changes the store |
| Index.SharedStep | src/ldup.py:217-228 | admitting one more file grows the set of hashed files by exactly the files Store.Admit hashes |
| Index.HashGroupsSnoc | src/ldup.py:228-237 | appending a file to a list extends exactly the group of its hash, or creates that group |
| Index.UnresolvedIffUnique | src/ldup.py:210-213 | a size holds the bare name f iff f is the only admitted file of that size |
| Index.BucketCount | src/ldup.py:210-226 | a size is present iff at least one file has it, and unresolved iff exactly one does |
| Index.Placement | src/ldup.py:209-237 | every admitted file is filed under its own size and, once that size is resolved, in the group of its own hash |
| Index.ResolvedGroups | src/ldup.py:217-237 | a resolved size has at least one group; each group is exactly the admitted files of that size and hash, in admission order, and is never empty |
| Index.InGroupIff | src/ldup.py:226-237 | a file is in the group of size s and hash h iff it was admitted with size s and hash h |
| Index.GroupMultiplicity | src/ldup.py:231-237 | a group holds a name as often as it was admitted with that size and hash, so exactly once when names are distinct |
| Index.AdmissionOrder | src/ldup.py:217-232 | within a group, files stand in the order in which they were admitted |
| Index.HashedIffResolved | src/ldup.py:210-228 | a file is hashed iff its size ends up resolved; a file whose size is unique is never read |
| Prune.FilterDuplicates | src/ldup.py:272-304 | the store after pruning is `Filtered` of the store before |
| Prune.DropUnresolved | src/ldup.py:281-290 | exactly the sizes holding a bare name are deleted, and the other buckets are unchanged |
| Prune.MarkSingletons | src/ldup.py:291-298 | a size is marked iff it has a hash group of at most one file, and it is marked with exactly those hashes |
| Prune.CommitDeletions | src/ldup.py:299-304 | every marked size is deleted whole, whatever groups remain in it, and the other sizes are unchanged |
| Prune.FilteredOnlyDeletes | src/ldup.py:289-304 | pruning only deletes: each surviving size keeps its original hash map and lists |
| Prune.FilteredAllDuplicates | src/ldup.py:272-280 | no bare name survives, and every surviving group holds at least two files |
| Prune.FilteredDropsWholeBucket | src/ldup.py:295-304 | one group of at most one file removes its whole size |
| Prune.FilteredKeepsDuplicateBuckets | src/ldup.py:293-304 | a resolved size whose groups all hold two or more files survives intact |
| Prune.FilteredUpdate | src/ldup.py:283-304 | pruning decides each size from its own bucket alone |
| Prune.FilteredIdempotent | src/ldup.py:272-304 | pruning a pruned store changes nothing |
| Prune.MixedBucketDropped | src/ldup.py:300-304 | a size with a group of two and a group of one is removed entirely |
| Pipeline.FindDuplicates | src/ldup.py:27-28 | collecting and then pruning yields `Duplicates` of the name list, while hashing exactly the files whose size is shared |
| Pipeline.ReportedIff | src/ldup.py:27-28 | a size is reported iff at least two files have it and every file of that size shares its hash with another; each reported group is all the files of that size and hash, in admission order |
| Pipeline.DistinctSizesUnresolved | src/ldup.py:210-213 | when all sizes differ, every size holds its single file as a bare name |
| Pipeline.DistinctSizesNoDuplicates | src/ldup.py:27-28 | when all sizes differ, nothing is reported and nothing is hashed |
| Pipeline.GroupedOne | src/ldup.py:210-213 | one admitted file gives one unresolved size |
| Pipeline.GroupedSameSize | src/ldup.py:217-237 | two files of one size give one resolved size holding the first file's group, extended by the second |
| Pipeline.GroupedPair | src/ldup.py:217-232 | two files of equal size and hash form one group of both, in order |
| Pipeline.EqualPair | src/ldup.py:27-28 | two files of equal size and hash are reported as one group |
| Pipeline.DifferentPair | src/ldup.py:295-304 | two files of equal size and different hashes are not reported |
| Pipeline.GroupedPairAndLoner | src/ldup.py:208-237 | files of sizes 10, 10 and 20 give a resolved size 10 and an unresolved size 20 |
| Pipeline.PairAndLoner | src/ldup.py:27-28 | of files of sizes 10, 10 and 20, only the equal pair of size 10 is reported |
| Pipeline.GroupedThird | src/ldup.py:227-237 | a third file of a resolved size is added to its hash's group |
| Pipeline.GroupedTriple | src/ldup.py:227-232 | three files of equal size and hash form one group of three, in order |
| Pipeline.ZeroByteTriple | src/ldup.py:27-28 | three empty files with equal hashes are reported as one group of three |
| Pipeline.PairBesideSingletonDropped | src/ldup.py:300-304 | with three files of one size where only two are equal, nothing is reported |

## Left out

- `get_arguments` (argument parsing) and `output` (text and JSON printing) are I/O.
- `get_filenames` and `get_filenames_recursive` are not modelled. They list directories through the file system. `is_hidden`, which they call, is modelled in `Paths`.
- `get_file_size` and `get_file_hash` are not modelled. They read `os.stat` and the file's bytes; here they are the parameters `size` and `hash`. The model assumes that equal digests mean equal contents, as the program does.
- `os.getcwd` and `os.path.isdir` are the parameters `cwd` and `isDir`. The model assumes that both calls to `os.getcwd` return the same directory.
- I/O errors (an unreadable file or a vanished directory) abort the program and are not modelled.
- Insertion order of the store: Python dictionaries keep their keys in insertion order. `output`'s text mode (src/ldup.py:317-318) lists sizes, and the hashes within each size, in insertion order; its JSON mode (line 313) sorts the keys. The model's store is an unordered `map` at both levels (sizes to buckets, hashes to groups), so it does not capture that order. The order of files within a group is kept and proved (`Index.AdmissionOrder`).
- Order of the prune loops: `filter_duplicates` walks sizes and hashes in insertion order. The model's loops pick the next size or hash arbitrarily (`:|`). The pruned store is proved the same whatever the order.
- Sizes are unbounded natural numbers. Python integers do not overflow either.
- Directories.SelectDirectories: the membership and order guarantees are stated only when some entry is a directory. Otherwise the exact result `[cwd]` is stated.
- Index.CollectData: the hash log is stated as a multiset, not as the order of the calls. Store.Admit states the order of the calls for each single file.
