# DVC overlay tree, garbage collection and path splitting: a Dafny model

This project models three parts of DVC (Data Version Control):

- **The overlay filesystem `DvcTree`** (`dvc/tree/dvc.py`). It presents the files DVC tracks as a read-only tree.
  - Each tracked *output* has path parts, a `use_cache` flag, a flag saying whether its hash names a whole directory, a hash value, and an optional directory manifest. The manifest maps a path below the directory to the hash of that file.
  - Modelled operations: filtering the covering outputs, the "granular" lookup of a file inside a directory output, file/directory classification, `open`'s choice of checksum and source, manifest validation, and the trie-driven top-down `walk`.
- **Mark/sweep garbage collection `gc`** (`dvc/data/gc.py`). It marks the used hashes and leaves the other stored hashes as removal candidates. It splits the candidates into directory hashes (suffix `.dir`) and plain objects. It then removes the directory group first and the object group second. Removals are modelled as an ordered log of requests.
- **Path splitting and basename** (`Path("/")` and `Path("\\")`, as `tests/unit/fs/test_path.py` pins them down). The overlay tree keys everything by a path's parts.

Files:

| file | module | contents |
|---|---|---|
| `wrappers.dfy` | `Wrappers` | `Option`, `Result` |
| `fs_path.dfy` | `FsPath` | `Parts`, `Name`, and lemmas about splitting |
| `dvc_tree.dfy` | `DvcTree` | outputs, `_find_outs`, `_get_granular_hash`, `check_isdir`, `metadata`, `open`, `get_file_hash`, `_fetch_dir`, `get_dir_hash` |
| `dvc_walk.dfy` | `DvcWalk` | the trie as a class, `_add_dir`, the listing loop and recursion of `_walk`, `walk` |
| `data_gc.dfy` | `DataGc` | marking, selection, the two sweep phases, and safety and order lemmas |

Collaborators whose code is not part of this model are inputs:

- `repo.find_outs_by_path`: the `candidates` parameter. `metadata` asks it with `recursive=True` (dvc/tree/dvc.py:250) and `open` without (dvc/tree/dvc.py:60), yet `FileOpens` gives both the same list. For a path that `metadata` calls a file, exactly one cached output covers it. A recursive lookup adds only outputs lying inside the path, and DVC does not allow one output inside another, so both lookups return that one output.
- The `Metadata` class's own `isdir`: `metaIsDir`.
- `out.changed_cache` and `repo.cloud.get_remote`: `changedCache` and `hasRemote`.
- `Tree.save_dir_info`: the function parameter `dirHash`.
- `odb.all` and `Tree.load`: the `stored` and `trees` fields of `Odb`.
- `BaseTree.get_dir_hash`: `fallback`.

## Model

| member | source | states |
|---|---|---|
| DvcTree.Cached | dvc/tree/dvc.py:35-38 | an output is kept iff it is among the inputs and uses the cache |
| DvcTree.FindOuts | dvc/tree/dvc.py:32-42 | the result holds exactly the cached candidates; it is `OutputNotFoundError` iff no candidate is cached |
| DvcTree.RelPath | dvc/tree/dvc.py:49 | the relpath key is never empty, and a path equal to the output root gives the key (".") |
| DvcTree.RelPathInside | dvc/tree/dvc.py:49 | for a path strictly inside an output, the relpath key is the path's parts below the output root |
| DvcTree.RelPathOutside | dvc/tree/dvc.py:49 | a path not under the output gives a key that starts with "..", so it matches no file entry |
| DvcTree.GranularHash | dvc/tree/dvc.py:44-54 | every failure is `FileNotFoundError` |
| DvcTree.GranularHashInside | dvc/tree/dvc.py:44-54 | inside a directory output, the lookup succeeds iff the manifest has a non-empty entry at the relative key, and then returns that entry |
| DvcTree.CheckIsDir | dvc/tree/dvc.py:107-121 | any number of outputs other than one means directory; a single output at the path is a directory iff it is a directory output; a single file output not at the path means directory |
| DvcTree.CheckIsDirInsideDir | dvc/tree/dvc.py:107-121 | for a path strictly inside one directory output, `check_isdir` says file iff the output's manifest has a non-empty entry at the path's parts below the output root |
| DvcTree.Metadata | dvc/tree/dvc.py:246-256 | `FileNotFoundError` iff `_find_outs` fails; otherwise the outs are those of `_find_outs`, and `isdir == meta.isdir or check_isdir(...)` |
| DvcTree.Exists | dvc/tree/dvc.py:93-98 | true iff some candidate uses the cache |
| DvcTree.IsDir | dvc/tree/dvc.py:100-105 | a path is a directory iff it exists and either its metadata says directory or `check_isdir` does for the outputs `_find_outs` returns |
| DvcTree.Open | dvc/tree/dvc.py:56-91 | `FileNotFoundError` when no output is found; `IsADirectoryError` iff the number of outputs is not 1 or the path is the directory output's root; a changed cache without a remote always fails; `FileNotFoundError` only for a missing output, a missing remote, or a failed granular lookup; on success one output covers the path, the checksum is the granular hash for a directory output and the output's hash otherwise, and the source is the remote iff the cache changed |
| DvcTree.GetFileHash | dvc/tree/dvc.py:236-244 | `OutputNotFoundError` when no output or more than one output covers the path; no other error kind besides `FileNotFoundError`; on success one output covers the path and the hash is its granular hash for a directory output and its own hash otherwise |
| DvcTree.OpenReadsFileHash | dvc/tree/dvc.py:70-90 | `open` reads under the granular hash for a directory output and the output's own hash otherwise, on the cache and the remote path alike (the hash `get_file_hash` reports) |
| DvcTree.FileOpens | dvc/tree/dvc.py:64-76 | a path that `metadata` calls a file opens iff the cache is unchanged or a remote is configured |
| DvcTree.DirOutputOpensIffFile | dvc/tree/dvc.py:107-121 | with one directory output and an unchanged cache, `open` succeeds iff `check_isdir` says file |
| DvcTree.FetchDir | dvc/tree/dvc.py:130-142 | the manifest is accepted iff it exists, is non-empty and re-hashes to the output's hash; otherwise `FileNotFoundError` |
| DvcTree.GetDirHash | dvc/tree/dvc.py:222-234 | a single directory output answers with its own hash once `_fetch_dir` accepts its manifest, and raises otherwise; every other case falls back to the base tree |
| DvcWalk.AddDirSpec | dvc/tree/dvc.py:144-149 | after validation, the keys are the old keys plus `base + key` for every manifest key; those map to None and every other key keeps its value; a failed validation is `FileNotFoundError` |
| DvcWalk.AddDirIdempotent | dvc/tree/dvc.py:155-157 | expanding an output a second time, as `_walk` does for an output at the walk root, changes nothing |
| DvcWalk.RootExpansion | dvc/tree/dvc.py:155-157 | the step fails iff the root holds a directory output whose manifest `_fetch_dir` rejects; it only adds keys; a root without a directory output leaves the trie as it is |
| DvcWalk.Trie.constructor | dvc/tree/dvc.py:194 | a new trie is empty |
| DvcWalk.Trie.Get | dvc/tree/dvc.py:155 | `trie.get` yields an output only for a key stored with an output, and yields that output |
| DvcWalk.Trie.Put | dvc/tree/dvc.py:149 | `trie[key] = v` updates exactly that key |
| DvcWalk.AddDir | dvc/tree/dvc.py:144-149 | the trie's new entries are those of `AddDirSpec`; on failure the trie is unchanged |
| DvcWalk.Listing | dvc/tree/dvc.py:158-170 | the trie has no key with the root as prefix iff the listing raises; otherwise `dirs` are exactly the names of deeper keys or directory outputs below root, `files` holds exactly the other direct children, once each |
| DvcWalk.RootKeyNotListed | dvc/tree/dvc.py:160-161 | the key equal to the root never affects the root's listing |
| DvcWalk.ChildClassified | dvc/tree/dvc.py:163-168 | every key below the root puts its next segment into `dirs` when it goes deeper or holds a directory output, and into `files` otherwise |
| DvcWalk.FileNameIsLeaf | dvc/tree/dvc.py:163-168 | a name listed as a file is a direct child key that holds no directory output |
| DvcWalk.FileNameFresh | dvc/tree/dvc.py:168 | no file name is appended twice |
| DvcWalk.AddDirBounded | dvc/tree/dvc.py:144-149 | expansion keeps every key within the depth bound the manifests set |
| DvcWalk.RootExpansionGrows | dvc/tree/dvc.py:144-157 | expanding the root keeps every key and stores no new directory output, so every directory output afterwards is the one stored before |
| DvcWalk.ExpandAtGrows | dvc/tree/dvc.py:151-176 | the same holds across any sequence of visited levels |
| DvcWalk.GrownRejected | dvc/tree/dvc.py:155-157 | a rejected directory output at or below a path, met later in the walk, was already in the trie the walk started from, below every prefix of that path |
| DvcWalk.RootExpansionNode | dvc/tree/dvc.py:155-159 | expanding the root neither creates nor removes a node at the root, and a root without a node is left as it is |
| DvcWalk.ListedDirsHaveNodes | dvc/tree/dvc.py:163-176 | every directory name listed for a level still has a node when `_walk` descends into it |
| DvcWalk.SubwalkFailure | dvc/tree/dvc.py:175-176 | a subwalk into a listed directory finds its node after the expansion, and any rejected manifest it meets below that directory was in the walk's starting trie below the parent |
| DvcWalk.WalkFrom | dvc/tree/dvc.py:151-176 | an output at the root is expanded, and if that fails nothing is yielded; the first level yielded is the root with its listing over the expanded trie; every level is the root or below it; every later level is a listed directory of an earlier level; no path is walked twice; every level is the listing of its path over the trie as expanded by the levels walked up to it; the final trie is the old one expanded at every walked level in order; without an error every listed directory is walked; whenever the expanded trie has a node at the root, the root's level is yielded; an error is either `FileNotFoundError` for a directory output of the old trie at or below the root whose manifest is rejected, or `NoSuchPrefix` with nothing yielded when the expanded trie has no node at the root, and a missing node always gives the latter |
| DvcWalk.WalkDirs | dvc/tree/dvc.py:172-176 | the root's level comes first; every subdirectory walk follows it in top-down order without a repeated path; every level is its path's listing over the trie as it stood then, and the final trie is the expansion at all walked levels; without an error every listed directory is walked; the only error is `FileNotFoundError`, for a rejected directory output below the level's path in the trie the level was listed from |
| DvcWalk.DescendOne | dvc/tree/dvc.py:175-176 | walking one more listed name keeps the descent's order, distinctness and listings, and, without an error, records that name as walked; a listed name always has a node, so its subwalk can only fail with `FileNotFoundError` for a rejected directory output below the level's path |
| DvcWalk.InsertOut | dvc/tree/dvc.py:196-200 | storing an output fails iff it is a directory output containing the walk root whose manifest `_fetch_dir` rejects; otherwise the old keys and the output's parts are all keys |
| DvcWalk.InitialEntries | dvc/tree/dvc.py:194-200 | building the trie can only fail with `FileNotFoundError` |
| DvcWalk.BuildTrie | dvc/tree/dvc.py:194-200 | the trie built is `InitialEntries` of the outputs, or its error |
| DvcWalk.InitialEntriesCover | dvc/tree/dvc.py:195-196 | every output's parts are a key of the trie |
| DvcWalk.InitialEntriesMapOutputs | dvc/tree/dvc.py:195-200 | with outputs that do not overlap, the trie maps every output's parts to that output |
| DvcWalk.InitialEntriesRejected | dvc/tree/dvc.py:195-200 | building the trie fails iff some directory output containing the top has a manifest `_fetch_dir` rejects |
| DvcWalk.InitialEntriesHoldOutputs | dvc/tree/dvc.py:195-200 | every output stored in the built trie is one of the covering outputs |
| DvcWalk.BuiltRejected | dvc/tree/dvc.py:195-200 | a rejected directory output at or below the top in the built trie is one of the covering outputs, and lies at or below the top |
| DvcWalk.InitialEntriesErrorSticks | dvc/tree/dvc.py:198-199 | a failed expansion while building aborts the whole build with that error |
| DvcWalk.Walk | dvc/tree/dvc.py:178-202 | a missing top reports `FileNotFoundError` and a non-directory top reports `NotADirectoryError`, and either way nothing is yielded; otherwise the levels are top-down below the top without a repeated path, the first is the top's listing over the built and expanded trie, every level is its path's listing over the built trie as expanded by the levels up to it, and without a raised error every listed directory is walked; a failed build raises `FileNotFoundError` and a built trie without a node at the top raises `NoSuchPrefix`, both with nothing yielded; when the build succeeds, the top has a node and its expansion succeeds, the top's level is yielded; any raised error is one of these two, or `FileNotFoundError` for a directory output at or below the top whose manifest is rejected |
| DataGc.IsDirHashIffSuffixed | dvc/data/gc.py:21-24 | a hash is a directory hash iff it ends with `.dir` |
| DataGc.Contribution | dvc/data/gc.py:14-19 | one used hash fails to contribute iff it is a directory, marking is expanded and its tree is missing; otherwise its own value is among what it contributes |
| DataGc.UsedHashes | dvc/data/gc.py:12-19 | shallow marking never fails; the last used hash's value is always marked |
| DataGc.UsedHashesExact | dvc/data/gc.py:12-19 | marking fails iff, in expanded mode, some used directory's tree cannot be loaded; otherwise a hash is marked iff it is a used hash's value or, in expanded mode, an entry of a used directory's tree |
| DataGc.ShallowUsedHashes | dvc/data/gc.py:12-15 | in shallow mode the used set is exactly the used hashes' values |
| DataGc.CollectUsed | dvc/data/gc.py:10-19 | the marking loop computes `UsedHashes` |
| DataGc.UsedHashesErrorSticks | dvc/data/gc.py:16 | a tree that fails to load aborts the whole marking |
| DataGc.Keep | dvc/data/gc.py:29-32 | a hash is kept iff it is in the input and passes the filter |
| DataGc.Unused | dvc/data/gc.py:29-32 | a hash is a candidate iff it is stored and not marked |
| DataGc.DirGroup | dvc/data/gc.py:27-36 | the directory group holds exactly the candidates that are directory hashes |
| DataGc.FileGroup | dvc/data/gc.py:27-37 | the object group holds exactly the other candidates |
| DataGc.DirPhase | dvc/data/gc.py:45-55 | the directory phase issues one `_remove_unpacked_dir` per directory hash, in order |
| DataGc.FilePhase | dvc/data/gc.py:57-67 | the object phase issues one removal of `path_to_hash(hash)` per object hash, in order |
| DataGc.SweepPhases | dvc/data/gc.py:45-67 | the two passes log the directory phase followed by the object phase |
| DataGc.GcSpec | dvc/data/gc.py:1-69 | `gc` fails iff the ODB is read-only or marking fails, and a read-only ODB gives `ObjectDBPermissionError` |
| DataGc.Gc | dvc/data/gc.py:1-69 | `gc` computes `GcSpec` |
| DataGc.ReadOnlyRefused | dvc/data/gc.py:8-9 | a read-only ODB raises `ObjectDBPermissionError` and nothing is marked or removed |
| DataGc.PhaseTargets | dvc/data/gc.py:36-37 | the log removes exactly the hashes of the two groups |
| DataGc.RemovesExactlyUnmarked | dvc/data/gc.py:26-37 | a hash is named by a removal request iff it is stored and not marked (for a `.dir` hash the request is `_remove_unpacked_dir`) |
| DataGc.NeverRemovesUsed | dvc/data/gc.py:27-37 | no used hash's value is ever asked to be removed |
| DataGc.DirsBeforeFiles | dvc/data/gc.py:45-67 | the log is a run of directory removals of directory hashes followed by a run of object removals of the other hashes |
| DataGc.PhasesSplit | dvc/data/gc.py:33-37 | requests of the directory group name directory hashes and requests of the object group name the other hashes |
| DataGc.RemovedIffUnmarkedStored | dvc/data/gc.py:39-40 | `gc` returns True iff it requests a removal, iff some stored hash is unmarked; with False it requests nothing |
| DataGc.AfterSweep | dvc/data/gc.py:45-67 | carrying out the requests keeps the trees and the read-only flag, and keeps exactly the stored hashes the requests do not delete |
| DataGc.UsedHashesReadsTrees | dvc/data/gc.py:10-19 | marking depends on the cache ODB only through its trees, so the default `cache_odb = odb` marks the same after a sweep |
| DataGc.SecondRunRemovesNothing | dvc/data/gc.py:1-40 | when directory requests delete the `.dir` object, a second `gc` with the same used hashes on what the first left returns False and requests nothing, with or without a cache ODB |
| DataGc.SecondRunRepeatsDirPhase | dvc/data/gc.py:26-67 | when directory requests leave the `.dir` object, a second `gc` requests the same directory phase again and no object removal |
| DataGc.SpentGroups | dvc/data/gc.py:27-35 | `dict(groupby(...))` maps each key that occurs to an empty, spent group |
| DataGc.GcAsWritten | dvc/data/gc.py:1-69 | `gc` as written, on CPython 3.7 and later, fails exactly when the intended `gc` does, with the same error, and otherwise returns False and requests nothing |
| DataGc.GcAsWrittenKeepsGarbage | dvc/data/gc.py:27-40 | whenever the intended `gc` would remove something, `gc` as written returns False and requests nothing |
| DataGc.GcAsWrittenExample | dvc/data/gc.py:27-40 | an ODB holding the one unused object "a": the intended `gc` removes it, `gc` as written does not |
| FsPath.SplitDrive | tests/unit/fs/test_path.py:24 | the drive and the rest make up the path; there is a drive iff the path is nt and its second character is ":", and the drive is then those two characters |
| FsPath.Parts | tests/unit/fs/test_path.py:6-29 | a path has no parts iff it is empty, and no part is empty |
| FsPath.Name | tests/unit/fs/test_path.py:32-59 | `name` never holds a separator |
| FsPath.SegmentsWellFormed | tests/unit/fs/test_path.py:8-16 | every segment is a non-empty word without separator |
| FsPath.SegmentsOfJoin | tests/unit/fs/test_path.py:8-16 | splitting undoes joining well-formed words |
| FsPath.TrailingSepIgnored | tests/unit/fs/test_path.py:7 | one trailing separator does not change the segments |
| FsPath.SegmentsOfPath | tests/unit/fs/test_path.py:6-16 | a path made of words, with optional leading and trailing separators, splits back into those words |
| FsPath.PartsPosixRelative | tests/unit/fs/test_path.py:6-16 | a relative posix path's parts are its words, with or without a trailing "/" |
| FsPath.PartsPosixAbsolute | tests/unit/fs/test_path.py:6-16 | an absolute posix path's parts are "/" followed by its words |
| FsPath.PartsNtRelative | tests/unit/fs/test_path.py:19-29 | a relative nt path without drive has its words as parts |
| FsPath.PartsNtDrive | tests/unit/fs/test_path.py:24 | an nt path "X:\\..." has the drive, then "\\", then its words as parts |
| FsPath.PartsOfChild | tests/unit/fs/test_path.py:6-29 | appending a separator and a word adds exactly that word as a part |
| FsPath.NameIsLastPart | tests/unit/fs/test_path.py:32-59 | `name` is the last part when the path has a segment |
| FsPath.NameIgnoresTrailingSep | tests/unit/fs/test_path.py:32 | one trailing separator does not change `name` |
| FsPath.NameOfPath | tests/unit/fs/test_path.py:32-59 | `name` is the last word of a path made of words, or "" without words, with or without drive and separators |
| FsPath.PosixPartsOfWord | tests/unit/fs/test_path.py:11 | "path" and "path/" have parts ("path") |
| FsPath.PosixPartsOfRelative | tests/unit/fs/test_path.py:12 | "some/path" and "some/path/" have parts ("some", "path") |
| FsPath.PosixPartsOfRootedWord | tests/unit/fs/test_path.py:6-16 | "/path" and "/path/" have parts ("/", "path") |
| FsPath.PosixPartsOfAbsolute | tests/unit/fs/test_path.py:6-16 | "/some/path" and "/some/path/" have parts ("/", "some", "path") |
| FsPath.NtPartsOfWord | tests/unit/fs/test_path.py:23 | "path" and "path\\" have parts ("path") |
| FsPath.NtPartsOfRelative | tests/unit/fs/test_path.py:25 | "some\\path" and "some\\path\\" have parts ("some", "path") |
| FsPath.NtPartsOfDrivePath | tests/unit/fs/test_path.py:24 | "c:\\path" and "c:\\path\\" have parts ("c:", "\\", "path") |
| FsPath.PosixNameOfEmpty | tests/unit/fs/test_path.py:36 | `name` of "" and of "/" is "" |
| FsPath.PosixNameOfRootedWord | tests/unit/fs/test_path.py:37 | `name` of "/file" and "/file/" is "file" |
| FsPath.PosixNameOfAbsolute | tests/unit/fs/test_path.py:38 | `name` of "/path/to/file" and "/path/to/file/" is "file" |
| FsPath.PosixNameOfDots | tests/unit/fs/test_path.py:39-40 | `name` of ".", "./", "..", "../" is "." or ".." unchanged |
| FsPath.NtNameOfEmpty | tests/unit/fs/test_path.py:51 | `name` of "" and of "\\" is "" |
| FsPath.NtNameOfWord | tests/unit/fs/test_path.py:52 | `name` of "path" and "path\\" is "path" |
| FsPath.NtNameOfRelative | tests/unit/fs/test_path.py:55 | `name` of "some\\path" and "some\\path\\" is "path" |
| FsPath.NtNameOfDriveWord | tests/unit/fs/test_path.py:53 | `name` of "c:\\file" and "c:\\file\\" is "file" |
| FsPath.NtNameOfDrivePath | tests/unit/fs/test_path.py:54 | `name` of "c:\\path\\to\\file" and its form with a trailing "\\" is "file" |

## Left out

- I/O is not modelled: the builtin `open`, `remote_obj.tree.open`, `hash_to_path_info`, `odb.fs.remove`, Tqdm progress bars and `_log_exceptions`. `open` returns where it would read from (`Source`), and `gc` returns the removal requests it would issue.
- `os.path.abspath` in `walk` and `metadata`: paths arrive as resolved parts.
- `os.path.relpath` is modelled on parts (common prefix, "..", and "." for the root itself), not on strings.
- `out.get_dir_cache` (fetching a manifest from a remote) is not modelled: the manifest is a field of the output. A missing manifest makes the granular lookup and `_fetch_dir` raise `FileNotFoundError`.
- `dvc/utils/threadpool.py`: concurrency is not modelled. In `Gc` each phase is a sequential pass over its group. DVC's `gc` passes each group to `imap_unordered`, a generator whose result it never iterates, so no removal is ever started; `GcAsWritten` models that (see "## Findings").
- DataGc.DirGroup: the grouping is modelled as two filters over the unused hashes, which is its evident intent. As written, `dict(itertools.groupby(...))` runs `groupby` to its end while building the dict, and each group iterator is invalidated as soon as `groupby` moves past it. So on CPython 3.7 and later both `list(to_remove.get(...))` calls always give `[]`, and `gc` returns False and requests nothing for every input. `SpentGroups` and `GcAsWritten` model this. On earlier CPython the last group's iterator still yields the value `groupby` read last, so `gc` can return True there; it still requests no removal, because `imap_unordered` is never iterated. That older behaviour is not modelled.
- DataGc.SecondRunRemovesNothing: what `odb._remove_unpacked_dir` deletes is not part of this model. The lemma assumes, through `AfterSweep`'s `dirRequestDeletes` set to true, that a directory request takes the `.dir` object out of the listing. `SecondRunRepeatsDirPhase` covers the other case: the directory phase is requested again.
- A directory output that is exactly the walk top is fetched and expanded twice, once while the trie is built and again when `_walk` starts at the top. Fetching is I/O and is not modelled; `AddDirIdempotent` shows that the second expansion leaves the trie unchanged.
- DvcWalk.Walk: that a rejected directory output strictly inside the top is always reached, so that the walk then raises, is not proved; the contract states only that every raised error has one of the listed causes, and that a failed build and a missing top node do raise.
- DvcWalk.WalkFrom: the order in which `list(set)` visits the directories is not fixed. The model picks each remaining directory nondeterministically and states order-free properties. Termination is argued with a ghost bound on key depth. `_walk` yields the same `dirs` list it then iterates (dvc/tree/dvc.py:172-175), so a caller that prunes `dirs` in place, as with `os.walk`, stops the descent into the pruned names; the model yields a value and always walks every listed directory. The order of `files` is pygtrie's `iteritems` order (dvc/tree/dvc.py:160-168); the model records the files as a list and fixes no order.
- DvcWalk.InitialEntriesMapOutputs: requires that no output lies inside another and that manifest keys are non-empty. DVC's outputs do not overlap and manifest keys name files; with overlapping outputs a later `_add_dir` could overwrite an earlier output's key.
- DvcTree.GetDirHash: the `assert out.hash_info.name == name` check is not modelled; only md5 hashes exist here.
- DvcTree.GetFileHash: the `assert name == "md5"` check is not modelled.
- Hash comparison in `_fetch_dir` (`hash_info != out.hash_info`) compares hash values only.
- `isfile`, `isdvc`, `isexec` and `walk_files` are not part of this model: they forward to `metadata` or `walk` and add nothing to decide.
- The `Path` class's implementation is not part of this model. `Parts` and `Name` are defined to agree with the parametrised tests. An nt path uses only "\\", not "/", as separator, and UNC drives ("\\\\server\\share") are not modelled.
- `dvc/ui/slow_warning.py` (a timer thread and UI output) and `tests/func/experiments/test_save.py` (the experiment save workflow) are not part of this model.

## Findings

| source | as written | input that shows it | evidently intended | confidence | as-written member | corrected member |
|---|---|---|---|---|---|---|
| dvc/data/gc.py:27-67 | the groups are read from `dict(groupby(...))`, whose group iterators are already spent, and each phase only creates an `imap_unordered` generator that is never iterated | an ODB storing the one object "a", no used hashes | the candidates split into the directory group and the object group, directories removed first, True returned | high; not executed | DataGc.GcAsWritten, DataGc.GcAsWrittenExample | DataGc.Gc, DataGc.GcSpec |
