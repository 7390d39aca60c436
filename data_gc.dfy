/**
 * Mark/sweep garbage collection of an object database (ODB): the hashes in
 * use are marked, every stored hash that is not marked is a removal
 * candidate, and the candidates are removed in two phases, unpacked
 * directory hashes first and plain objects after them.
 *
 * Removals are an ordered log of requests rather than file system calls. The
 * ODB's listing of stored hashes and what `Tree.load` finds for a directory
 * hash are given inputs.
 */
module DataGc {
  import opened Wrappers

  type Hash = string

  /** The suffix that marks a directory hash (`HASH_DIR_SUFFIX`). */
  const HashDirSuffix: string := ".dir"

  /** A used hash: its value and whether it names a directory. */
  datatype HashInfo = HashInfo(value: Hash, isdir: bool)

  /**
   * An object database: its read-only flag, the hashes `odb.all` lists, and
   * for each directory hash that `Tree.load` can load, the hashes of its entries.
   */
  datatype Odb = Odb(readOnly: bool, stored: seq<Hash>, trees: map<Hash, seq<Hash>>)

  datatype GcError = ObjectDbPermission | TreeLoadFailed(hash: Hash)

  /** One removal request: `odb._remove_unpacked_dir(hash)`, or removing `odb.path_to_hash(hash)`. */
  datatype Removal = RemoveUnpackedDir(hash: Hash) | RemoveObject(hash: Hash)

  /** What a collection did: its return value and the removals it requested, in order. */
  datatype Sweep = Sweep(removed: bool, log: seq<Removal>)

  /** `_is_dir_hash`. */
  predicate IsDirHash(h: Hash)
  {
    |h| >= |HashDirSuffix| && h[|h| - |HashDirSuffix|..] == HashDirSuffix
  }

  /** A hash is a directory hash exactly when it is some hash followed by the suffix. */
  lemma {:induction false} IsDirHashIffSuffixed(h: Hash)
    ensures IsDirHash(h) <==> exists base :: h == base + HashDirSuffix
  {
    if IsDirHash(h) {
      var base := h[..|h| - |HashDirSuffix|];
      assert h == base + HashDirSuffix;
    }
    if exists base :: h == base + HashDirSuffix {
      var base :| h == base + HashDirSuffix;
      assert h[|h| - |HashDirSuffix|..] == HashDirSuffix;
    }
  }

  // ---------------------------------------------------------------------------
  // Marking

  /** The hashes one used hash contributes, or the failure to load its tree. */
  function Contribution(h: HashInfo, cache: Odb, shallow: bool): (r: Result<set<Hash>, GcError>)
    ensures r.Err? <==> h.isdir && !shallow && h.value !in cache.trees
    ensures r.Ok? ==> h.value in r.value
  {
    if h.isdir && !shallow then
      if h.value in cache.trees then Ok({h.value} + EntryHashes(cache.trees[h.value]))
      else Err(TreeLoadFailed(h.value))
    else Ok({h.value})
  }

  /** The hashes of a loaded tree's entries. */
  function EntryHashes(entries: seq<Hash>): set<Hash>
  {
    set e | e in entries
  }

  /** The used-hash set the marking loop builds, processing `used` in order. */
  function UsedHashes(used: seq<HashInfo>, cache: Odb, shallow: bool): (r: Result<set<Hash>, GcError>)
    ensures shallow ==> r.Ok?
    ensures r.Ok? && used != [] ==> used[|used| - 1].value in r.value
    decreases |used|
  {
    if used == [] then Ok({})
    else
      match UsedHashes(used[..|used| - 1], cache, shallow)
      case Err(x) => Err(x)
      case Ok(s) =>
        match Contribution(used[|used| - 1], cache, shallow)
        case Err(x) => Err(x)
        case Ok(c) => Ok(s + c)
  }

  /** `h` is marked: it is a used hash's value, or, when not shallow, an entry of a used directory's tree. */
  ghost predicate Marked(used: seq<HashInfo>, cache: Odb, shallow: bool, h: Hash)
  {
    exists i :: 0 <= i < |used| && MarkedBy(used[i], cache, shallow, h)
  }

  ghost predicate MarkedBy(u: HashInfo, cache: Odb, shallow: bool, h: Hash)
  {
    u.value == h || (!shallow && u.isdir && u.value in cache.trees && h in cache.trees[u.value])
  }

  /** Some used directory's tree cannot be loaded. */
  ghost predicate SomeTreeMissing(used: seq<HashInfo>, cache: Odb, shallow: bool)
  {
    !shallow && exists i :: 0 <= i < |used| && used[i].isdir && used[i].value !in cache.trees
  }

  /**
   * Marking fails exactly when a used directory's tree is missing in
   * expanded mode; otherwise it yields exactly the marked hashes.
   */
  lemma {:induction false} UsedHashesExact(used: seq<HashInfo>, cache: Odb, shallow: bool)
    ensures UsedHashes(used, cache, shallow).Err? <==> SomeTreeMissing(used, cache, shallow)
    ensures UsedHashes(used, cache, shallow).Ok? ==>
      forall h :: h in UsedHashes(used, cache, shallow).value <==> Marked(used, cache, shallow, h)
    decreases |used|
  {
    if used != [] {
      var n := |used| - 1;
      var init := used[..n];
      UsedHashesExact(init, cache, shallow);
      assert forall i :: 0 <= i < n ==> init[i] == used[i];
      var last := used[n];
      if SomeTreeMissing(used, cache, shallow) && !SomeTreeMissing(init, cache, shallow) {
        var i :| 0 <= i < |used| && used[i].isdir && used[i].value !in cache.trees;
        assert i == n;
      }
      if UsedHashes(used, cache, shallow).Ok? {
        var s := UsedHashes(init, cache, shallow).value;
        forall h ensures h in UsedHashes(used, cache, shallow).value <==> Marked(used, cache, shallow, h) {
          if Marked(used, cache, shallow, h) {
            var i :| 0 <= i < |used| && MarkedBy(used[i], cache, shallow, h);
            if i < n {
              assert Marked(init, cache, shallow, h);
            }
          }
          if h in s {
            var i :| 0 <= i < n && MarkedBy(init[i], cache, shallow, h);
            assert MarkedBy(used[i], cache, shallow, h);
          }
        }
      }
    }
  }

  /** In shallow mode marking never fails and yields exactly the used hashes' values. */
  lemma {:induction false} ShallowUsedHashes(used: seq<HashInfo>, cache: Odb)
    ensures UsedHashes(used, cache, true) == Ok(set u | u in used :: u.value)
  {
    UsedHashesExact(used, cache, true);
    var s := UsedHashes(used, cache, true).value;
    forall h ensures h in s <==> h in (set u | u in used :: u.value) {
      if h in s {
        var i :| 0 <= i < |used| && MarkedBy(used[i], cache, true, h);
      }
      if h in (set u | u in used :: u.value) {
        var u :| u in used && u.value == h;
        var i :| 0 <= i < |used| && used[i] == u;
        assert MarkedBy(used[i], cache, true, h);
      }
    }
    assert s == (set u | u in used :: u.value);
  }

  /** The marking loop of `gc`. */
  method CollectUsed(used: seq<HashInfo>, cache: Odb, shallow: bool) returns (r: Result<set<Hash>, GcError>)
    ensures r == UsedHashes(used, cache, shallow)
  {
    var usedHashes: set<Hash> := {};
    var i := 0;
    while i < |used|
      invariant 0 <= i <= |used|
      invariant UsedHashes(used[..i], cache, shallow) == Ok(usedHashes)
    {
      var h := used[i];
      assert used[..i + 1][..i] == used[..i];
      assert used[..i + 1][i] == h;
      ghost var prev := usedHashes;
      usedHashes := usedHashes + {h.value};
      if h.isdir && !shallow {
        if h.value !in cache.trees {
          UsedHashesErrorSticks(used, i + 1, cache, shallow);
          return Err(TreeLoadFailed(h.value));
        }
        var entries := cache.trees[h.value];
        usedHashes := usedHashes + EntryHashes(entries);
      }
      assert usedHashes == prev + Contribution(h, cache, shallow).value;
      i := i + 1;
    }
    assert used[..i] == used;
    r := Ok(usedHashes);
  }

  /** A failure while marking a prefix of `used` is the failure of marking all of it. */
  lemma {:induction false} UsedHashesErrorSticks(used: seq<HashInfo>, i: nat, cache: Odb, shallow: bool)
    requires i <= |used| && UsedHashes(used[..i], cache, shallow).Err?
    ensures UsedHashes(used, cache, shallow) == UsedHashes(used[..i], cache, shallow)
    decreases |used| - i
  {
    if i < |used| {
      assert used[..i + 1][..i] == used[..i];
      UsedHashesErrorSticks(used, i + 1, cache, shallow);
    } else {
      assert used[..i] == used;
    }
  }

  // ---------------------------------------------------------------------------
  // Selecting

  /** The hashes of `s` that satisfy `p`, in their order. */
  function Keep(s: seq<Hash>, p: Hash -> bool): (r: seq<Hash>)
    ensures forall h :: h in r <==> h in s && p(h)
    ensures |r| <= |s|
  {
    if s == [] then []
    else if p(s[0]) then [s[0]] + Keep(s[1..], p)
    else Keep(s[1..], p)
  }

  /** Keeping from a sequence none of whose hashes qualifies keeps nothing. */
  lemma {:induction false} KeepNone(s: seq<Hash>, p: Hash -> bool)
    requires forall h :: h in s ==> !p(h)
    ensures Keep(s, p) == []
    decreases |s|
  {
    if s != [] {
      assert forall h :: h in s[1..] ==> h in s;
      KeepNone(s[1..], p);
    }
  }

  /** The stored hashes that are not used: the removal candidates. */
  function Unused(stored: seq<Hash>, usedHashes: set<Hash>): (r: seq<Hash>)
    ensures forall h :: h in r <==> h in stored && h !in usedHashes
  {
    Keep(stored, h => h !in usedHashes)
  }

  /** The directory hashes among the candidates, in order. */
  function DirGroup(candidates: seq<Hash>): (r: seq<Hash>)
    ensures forall h :: h in r <==> h in candidates && IsDirHash(h)
  {
    Keep(candidates, IsDirHash)
  }

  /** The other hashes among the candidates, in order. */
  function FileGroup(candidates: seq<Hash>): (r: seq<Hash>)
    ensures forall h :: h in r <==> h in candidates && !IsDirHash(h)
  {
    Keep(candidates, h => !IsDirHash(h))
  }

  // ---------------------------------------------------------------------------
  // Sweeping

  /** The requests of the directory phase, one per hash in order (the loop's accumulated log). */
  function DirPhase(hashes: seq<Hash>): (r: seq<Removal>)
    ensures |r| == |hashes|
    ensures forall k :: 0 <= k < |r| ==> r[k] == RemoveUnpackedDir(hashes[k])
    decreases |hashes|
  {
    if hashes == [] then [] else DirPhase(hashes[..|hashes| - 1]) + [RemoveUnpackedDir(hashes[|hashes| - 1])]
  }

  /** The requests of the object phase, one per hash in order. */
  function FilePhase(hashes: seq<Hash>): (r: seq<Removal>)
    ensures |r| == |hashes|
    ensures forall k :: 0 <= k < |r| ==> r[k] == RemoveObject(hashes[k])
    decreases |hashes|
  {
    if hashes == [] then [] else FilePhase(hashes[..|hashes| - 1]) + [RemoveObject(hashes[|hashes| - 1])]
  }

  /** What `gc` returns and requests, with `cacheOdb` None when no cache ODB is passed. */
  function GcSpec(odb: Odb, used: seq<HashInfo>, cacheOdb: Option<Odb>, shallow: bool): (r: Result<Sweep, GcError>)
    ensures r.Err? <==> odb.readOnly || UsedHashes(used, if cacheOdb.Some? then cacheOdb.value else odb, shallow).Err?
    ensures odb.readOnly ==> r == Err(ObjectDbPermission)
  {
    if odb.readOnly then Err(ObjectDbPermission)
    else
      var cache := if cacheOdb.Some? then cacheOdb.value else odb;
      match UsedHashes(used, cache, shallow)
      case Err(x) => Err(x)
      case Ok(u) =>
        var candidates := Unused(odb.stored, u);
        var dirs := DirGroup(candidates);
        var files := FileGroup(candidates);
        if dirs == [] && files == [] then Ok(Sweep(false, []))
        else Ok(Sweep(true, DirPhase(dirs) + FilePhase(files)))
  }

  /**
   * `gc` as intended: both phases run as sequential passes. In DVC's `gc`
   * each phase hands its group to a thread pool's `imap_unordered`, a
   * generator whose result is never iterated (see `GcAsWritten`).
   */
  method Gc(odb: Odb, used: seq<HashInfo>, cacheOdb: Option<Odb>, shallow: bool) returns (r: Result<Sweep, GcError>)
    ensures r == GcSpec(odb, used, cacheOdb, shallow)
  {
    if odb.readOnly {
      return Err(ObjectDbPermission);
    }
    var cache := if cacheOdb.Some? then cacheOdb.value else odb;
    var marked := CollectUsed(used, cache, shallow);
    if marked.Err? {
      return Err(marked.error);
    }
    var candidates := Unused(odb.stored, marked.value);
    var dirs := DirGroup(candidates);
    var files := FileGroup(candidates);
    if dirs == [] && files == [] {
      return Ok(Sweep(false, []));
    }
    var log := SweepPhases(dirs, files);
    r := Ok(Sweep(true, log));
  }

  /** The two removal passes: every directory hash in order, then every object hash in order. */
  method SweepPhases(dirs: seq<Hash>, files: seq<Hash>) returns (log: seq<Removal>)
    ensures log == DirPhase(dirs) + FilePhase(files)
  {
    log := [];
    for i := 0 to |dirs|
      invariant log == DirPhase(dirs[..i])
    {
      assert dirs[..i + 1][..i] == dirs[..i];
      log := log + [RemoveUnpackedDir(dirs[i])];
    }
    assert dirs[..|dirs|] == dirs;
    for j := 0 to |files|
      invariant log == DirPhase(dirs) + FilePhase(files[..j])
    {
      assert files[..j + 1][..j] == files[..j];
      log := log + [RemoveObject(files[j])];
    }
    assert files[..|files|] == files;
  }

  // ---------------------------------------------------------------------------
  // Properties of a collection

  /** The hashes a log asks to remove. */
  function Targets(log: seq<Removal>): set<Hash>
  {
    set k | 0 <= k < |log| :: log[k].hash
  }

  /** A read-only ODB fails before anything is marked or removed. */
  lemma {:induction false} ReadOnlyRefused(odb: Odb, used: seq<HashInfo>, cacheOdb: Option<Odb>, shallow: bool)
    requires odb.readOnly
    ensures GcSpec(odb, used, cacheOdb, shallow) == Err(ObjectDbPermission)
  {
  }

  /** A log of both phases asks to remove exactly the hashes of the two groups. */
  lemma {:induction false} PhaseTargets(dirs: seq<Hash>, files: seq<Hash>)
    ensures forall h :: h in Targets(DirPhase(dirs) + FilePhase(files)) <==> h in dirs || h in files
  {
    var log := DirPhase(dirs) + FilePhase(files);
    forall h ensures h in Targets(log) <==> h in dirs || h in files {
      if h in Targets(log) {
        var k :| 0 <= k < |log| && log[k].hash == h;
        if k >= |dirs| {
          assert log[k] == FilePhase(files)[k - |dirs|];
        } else {
          assert log[k] == DirPhase(dirs)[k];
        }
      }
      if h in dirs {
        var k :| 0 <= k < |dirs| && dirs[k] == h;
        assert log[k] == DirPhase(dirs)[k];
      }
      if h in files {
        var k :| 0 <= k < |files| && files[k] == h;
        assert log[|dirs| + k] == FilePhase(files)[k];
      }
    }
  }

  /** A hash is named by a removal request iff it is stored and not marked (for a `.dir` hash the request is `_remove_unpacked_dir`). */
  lemma {:induction false} RemovesExactlyUnmarked(odb: Odb, used: seq<HashInfo>, cacheOdb: Option<Odb>, shallow: bool)
    requires GcSpec(odb, used, cacheOdb, shallow).Ok?
    ensures var cache := if cacheOdb.Some? then cacheOdb.value else odb;
      forall h :: h in Targets(GcSpec(odb, used, cacheOdb, shallow).value.log) <==>
        h in odb.stored && !Marked(used, cache, shallow, h)
  {
    var cache := if cacheOdb.Some? then cacheOdb.value else odb;
    UsedHashesExact(used, cache, shallow);
    var u := UsedHashes(used, cache, shallow).value;
    var candidates := Unused(odb.stored, u);
    var dirs := DirGroup(candidates);
    var files := FileGroup(candidates);
    PhaseTargets(dirs, files);
    var log := GcSpec(odb, used, cacheOdb, shallow).value.log;
    assert forall h :: h in candidates <==> h in dirs || h in files;
    if dirs == [] && files == [] {
      assert log == [];
    } else {
      assert log == DirPhase(dirs) + FilePhase(files);
    }
  }

  /** Safety: no used hash's value is ever asked to be removed. */
  lemma {:induction false} NeverRemovesUsed(odb: Odb, used: seq<HashInfo>, cacheOdb: Option<Odb>, shallow: bool)
    requires GcSpec(odb, used, cacheOdb, shallow).Ok?
    ensures forall i, k :: 0 <= i < |used| && 0 <= k < |GcSpec(odb, used, cacheOdb, shallow).value.log| ==>
      GcSpec(odb, used, cacheOdb, shallow).value.log[k].hash != used[i].value
  {
    var cache := if cacheOdb.Some? then cacheOdb.value else odb;
    var log := GcSpec(odb, used, cacheOdb, shallow).value.log;
    RemovesExactlyUnmarked(odb, used, cacheOdb, shallow);
    forall i, k | 0 <= i < |used| && 0 <= k < |log| ensures log[k].hash != used[i].value {
      assert log[k].hash in Targets(log);
      if log[k].hash == used[i].value {
        assert MarkedBy(used[i], cache, shallow, log[k].hash);
      }
    }
  }

  /** The first `n` requests are directory removals of directory hashes, the rest object removals of other hashes. */
  ghost predicate PhaseSplit(log: seq<Removal>, n: nat)
    requires n <= |log|
  {
    && (forall k :: 0 <= k < n ==> log[k].RemoveUnpackedDir? && IsDirHash(log[k].hash))
    && (forall k :: n <= k < |log| ==> log[k].RemoveObject? && !IsDirHash(log[k].hash))
  }

  /**
   * Phase order: the log is the directory phase followed by the object phase;
   * every directory request names a directory hash and every object request
   * names a hash that is not one.
   */
  lemma {:induction false} DirsBeforeFiles(odb: Odb, used: seq<HashInfo>, cacheOdb: Option<Odb>, shallow: bool)
    requires GcSpec(odb, used, cacheOdb, shallow).Ok?
    ensures var log := GcSpec(odb, used, cacheOdb, shallow).value.log;
      exists n :: 0 <= n <= |log| && PhaseSplit(log, n)
  {
    var cache := if cacheOdb.Some? then cacheOdb.value else odb;
    var u := UsedHashes(used, cache, shallow).value;
    var candidates := Unused(odb.stored, u);
    var dirs := DirGroup(candidates);
    var files := FileGroup(candidates);
    var log := GcSpec(odb, used, cacheOdb, shallow).value.log;
    if dirs == [] && files == [] {
      assert log == [];
      assert PhaseSplit(log, 0);
    } else {
      assert forall h :: h in dirs ==> IsDirHash(h);
      assert forall h :: h in files ==> !IsDirHash(h);
      PhasesSplit(dirs, files);
    }
  }

  lemma {:induction false} PhasesSplit(dirs: seq<Hash>, files: seq<Hash>)
    requires forall h :: h in dirs ==> IsDirHash(h)
    requires forall h :: h in files ==> !IsDirHash(h)
    ensures PhaseSplit(DirPhase(dirs) + FilePhase(files), |dirs|)
  {
    var ds, fs := DirPhase(dirs), FilePhase(files);
    var log := ds + fs;
    var n := |dirs|;
    forall k | 0 <= k < n ensures log[k].RemoveUnpackedDir? && IsDirHash(log[k].hash) {
      assert log[k] == ds[k] == RemoveUnpackedDir(dirs[k]);
      assert dirs[k] in dirs;
    }
    forall k | n <= k < |log| ensures log[k].RemoveObject? && !IsDirHash(log[k].hash) {
      assert log[k] == fs[k - n] == RemoveObject(files[k - n]);
      assert files[k - n] in files;
    }
  }

  /** `gc` returns True exactly when it requests a removal, and that happens exactly when some stored hash is unmarked. */
  lemma {:induction false} RemovedIffUnmarkedStored(odb: Odb, used: seq<HashInfo>, cacheOdb: Option<Odb>, shallow: bool)
    requires GcSpec(odb, used, cacheOdb, shallow).Ok?
    ensures var sweep := GcSpec(odb, used, cacheOdb, shallow).value;
      var cache := if cacheOdb.Some? then cacheOdb.value else odb;
      (sweep.removed <==> |sweep.log| > 0) &&
      (sweep.removed <==> exists h :: h in odb.stored && !Marked(used, cache, shallow, h))
  {
    var cache := if cacheOdb.Some? then cacheOdb.value else odb;
    var sweep := GcSpec(odb, used, cacheOdb, shallow).value;
    RemovesExactlyUnmarked(odb, used, cacheOdb, shallow);
    if sweep.removed && |sweep.log| > 0 {
      assert sweep.log[0].hash in Targets(sweep.log);
    }
    if exists h :: h in odb.stored && !Marked(used, cache, shallow, h) {
      var h :| h in odb.stored && !Marked(used, cache, shallow, h);
      assert h in Targets(sweep.log);
    }
  }

  /**
   * The ODB after the requested removals have been carried out. An object
   * request deletes the object file (`odb.fs.remove(odb.path_to_hash(h))`).
   * What a directory request deletes is up to `odb._remove_unpacked_dir`, whose
   * code is not part of this model: `dirRequestDeletes` says whether it takes
   * the `.dir` object itself out of the listing.
   */
  function AfterSweep(odb: Odb, sweep: Sweep, dirRequestDeletes: bool): (r: Odb)
    ensures r.readOnly == odb.readOnly && r.trees == odb.trees
    ensures forall h :: h in r.stored <==> h in odb.stored && h !in Deleted(sweep.log, dirRequestDeletes)
  {
    var gone := Deleted(sweep.log, dirRequestDeletes);
    odb.(stored := Keep(odb.stored, h => h !in gone))
  }

  /** The hashes whose objects the requests in `log` delete. */
  function Deleted(log: seq<Removal>, dirRequestDeletes: bool): set<Hash>
  {
    set r | r in log && (r.RemoveObject? || dirRequestDeletes) :: r.hash
  }

  /** Marking reads a cache ODB only through its trees. */
  lemma {:induction false} UsedHashesReadsTrees(used: seq<HashInfo>, a: Odb, b: Odb, shallow: bool)
    requires a.trees == b.trees
    ensures UsedHashes(used, a, shallow) == UsedHashes(used, b, shallow)
    decreases |used|
  {
    if used != [] {
      UsedHashesReadsTrees(used[..|used| - 1], a, b, shallow);
    }
  }

  /** A second run marks what the first one marked: the cache it reads has the same trees. */
  lemma {:induction false} SecondRunMarksTheSame(odb: Odb, after: Odb, used: seq<HashInfo>, cacheOdb: Option<Odb>, shallow: bool)
    requires after.trees == odb.trees
    ensures var cache := if cacheOdb.Some? then cacheOdb.value else odb;
      var cache' := if cacheOdb.Some? then cacheOdb.value else after;
      UsedHashes(used, cache', shallow) == UsedHashes(used, cache, shallow)
  {
    if cacheOdb.None? {
      UsedHashesReadsTrees(used, after, odb, shallow);
    }
  }

  /**
   * Idempotence: when a directory request deletes the `.dir` object, a second
   * collection with the same used hashes, on what the first one left, removes
   * nothing; with or without a separate cache ODB.
   */
  lemma {:induction false} SecondRunRemovesNothing(odb: Odb, used: seq<HashInfo>, cacheOdb: Option<Odb>, shallow: bool)
    requires GcSpec(odb, used, cacheOdb, shallow).Ok?
    ensures var after := AfterSweep(odb, GcSpec(odb, used, cacheOdb, shallow).value, true);
      GcSpec(after, used, cacheOdb, shallow) == Ok(Sweep(false, []))
  {
    var cache := if cacheOdb.Some? then cacheOdb.value else odb;
    var sweep := GcSpec(odb, used, cacheOdb, shallow).value;
    var after := AfterSweep(odb, sweep, true);
    SecondRunMarksTheSame(odb, after, used, cacheOdb, shallow);
    RemovesExactlyUnmarked(odb, used, cacheOdb, shallow);
    UsedHashesExact(used, cache, shallow);
    var u := UsedHashes(used, cache, shallow).value;
    assert forall k :: 0 <= k < |sweep.log| ==> sweep.log[k] in sweep.log;
    assert forall h :: h in after.stored ==> h in u;
    KeepNone(after.stored, h => h !in u);
  }

  /**
   * When a directory request leaves the `.dir` object in place, a second
   * collection requests the same directory phase again and no object removal.
   */
  lemma {:induction false} SecondRunRepeatsDirPhase(odb: Odb, used: seq<HashInfo>, cacheOdb: Option<Odb>, shallow: bool)
    requires GcSpec(odb, used, cacheOdb, shallow).Ok?
    ensures var cache := if cacheOdb.Some? then cacheOdb.value else odb;
      var dirs := DirGroup(Unused(odb.stored, UsedHashes(used, cache, shallow).value));
      var after := AfterSweep(odb, GcSpec(odb, used, cacheOdb, shallow).value, false);
      GcSpec(after, used, cacheOdb, shallow) ==
        (if dirs == [] then Ok(Sweep(false, [])) else Ok(Sweep(true, DirPhase(dirs))))
  {
    var cache := if cacheOdb.Some? then cacheOdb.value else odb;
    var sweep := GcSpec(odb, used, cacheOdb, shallow).value;
    var after := AfterSweep(odb, sweep, false);
    SecondRunMarksTheSame(odb, after, used, cacheOdb, shallow);
    var u := UsedHashes(used, cache, shallow).value;
    var candidates := Unused(odb.stored, u);
    var dirs := DirGroup(candidates);
    var files := FileGroup(candidates);
    var gone := Deleted(sweep.log, false);
    if dirs == [] && files == [] {
      assert sweep.log == [];
    } else {
      assert sweep.log == DirPhase(dirs) + FilePhase(files);
      DeletedObjects(dirs, files);
    }
    assert forall h :: h in gone <==> h in files;
    SecondDirGroup(odb.stored, u, gone);
    SecondFileGroup(odb.stored, u, gone);
    assert after.stored == Keep(odb.stored, h => h !in gone);
    assert UsedHashes(used, if cacheOdb.Some? then cacheOdb.value else after, shallow) == Ok(u);
    assert DirGroup(Unused(after.stored, u)) == dirs;
    assert FileGroup(Unused(after.stored, u)) == [];
    assert DirPhase(dirs) + FilePhase([]) == DirPhase(dirs);
  }

  /** With directory requests that delete nothing, a log of both phases deletes exactly the object group. */
  lemma {:induction false} DeletedObjects(dirs: seq<Hash>, files: seq<Hash>)
    ensures forall h :: h in Deleted(DirPhase(dirs) + FilePhase(files), false) <==> h in files
  {
    var log := DirPhase(dirs) + FilePhase(files);
    forall h ensures h in Deleted(log, false) <==> h in files {
      if h in Deleted(log, false) {
        var r :| r in log && r.RemoveObject? && r.hash == h;
        var k :| 0 <= k < |log| && log[k] == r;
        if k >= |dirs| {
          assert log[k] == FilePhase(files)[k - |dirs|];
        }
      }
      if h in files {
        var k :| 0 <= k < |files| && files[k] == h;
        assert log[|dirs| + k] == FilePhase(files)[k];
        assert log[|dirs| + k] in log;
      }
    }
  }

  /** Deleting no directory hash leaves the directory group as it was. */
  lemma {:induction false} SecondDirGroup(s: seq<Hash>, u: set<Hash>, gone: set<Hash>)
    requires forall h :: h in s && IsDirHash(h) ==> h !in gone
    ensures DirGroup(Unused(Keep(s, h => h !in gone), u)) == DirGroup(Unused(s, u))
    decreases |s|
  {
    if s != [] {
      assert forall h :: h in s[1..] ==> h in s;
      SecondDirGroup(s[1..], u, gone);
    }
  }

  /** Deleting every unused object hash leaves no object group. */
  lemma {:induction false} SecondFileGroup(s: seq<Hash>, u: set<Hash>, gone: set<Hash>)
    requires forall h :: h in s && h !in u && !IsDirHash(h) ==> h in gone
    ensures FileGroup(Unused(Keep(s, h => h !in gone), u)) == []
    decreases |s|
  {
    if s != [] {
      assert forall h :: h in s[1..] ==> h in s;
      SecondFileGroup(s[1..], u, gone);
    }
  }

  // ---------------------------------------------------------------------------
  // gc as written

  /**
   * `dict(itertools.groupby(...))` as CPython 3.7 and later runs it: building
   * the dict advances the `groupby` iterator to its end, which invalidates every
   * group iterator it handed out, so each key that occurs maps to a spent, empty group.
   */
  function SpentGroups(candidates: seq<Hash>): (r: map<bool, seq<Hash>>)
    ensures forall b :: b in r ==> r[b] == []
    ensures forall h :: h in candidates ==> IsDirHash(h) in r
  {
    var hasDirs := exists h :: h in candidates && IsDirHash(h);
    var hasObjects := exists h :: h in candidates && !IsDirHash(h);
    (if hasDirs then map[true := []] else map[]) + (if hasObjects then map[false := []] else map[])
  }

  /**
   * `gc` as written: the group lists are taken from spent groups, and each
   * phase only creates the `imap_unordered` generator without iterating it.
   */
  function GcAsWritten(odb: Odb, used: seq<HashInfo>, cacheOdb: Option<Odb>, shallow: bool): (r: Result<Sweep, GcError>)
    ensures r.Err? <==> GcSpec(odb, used, cacheOdb, shallow).Err?
    ensures r.Err? ==> r == GcSpec(odb, used, cacheOdb, shallow)
    ensures r.Ok? ==> r.value == Sweep(false, [])
  {
    if odb.readOnly then Err(ObjectDbPermission)
    else
      var cache := if cacheOdb.Some? then cacheOdb.value else odb;
      match UsedHashes(used, cache, shallow)
      case Err(x) => Err(x)
      case Ok(u) =>
        var groups := SpentGroups(Unused(odb.stored, u));
        var dirs := if true in groups then groups[true] else [];
        var files := if false in groups then groups[false] else [];
        if dirs == [] && files == [] then Ok(Sweep(false, []))
        else Ok(Sweep(true, []))
  }

  /** Whenever there is garbage to collect, `gc` as written neither reports nor requests its removal. */
  lemma {:induction false} GcAsWrittenKeepsGarbage(odb: Odb, used: seq<HashInfo>, cacheOdb: Option<Odb>, shallow: bool)
    requires GcSpec(odb, used, cacheOdb, shallow).Ok? && GcSpec(odb, used, cacheOdb, shallow).value.removed
    ensures GcAsWritten(odb, used, cacheOdb, shallow) == Ok(Sweep(false, []))
    ensures GcAsWritten(odb, used, cacheOdb, shallow) != GcSpec(odb, used, cacheOdb, shallow)
  {
  }

  /** A concrete case: an ODB holding one unused object. */
  lemma GcAsWrittenExample()
    ensures GcSpec(Odb(false, ["a"], map[]), [], None, true) == Ok(Sweep(true, [RemoveObject("a")]))
    ensures GcAsWritten(Odb(false, ["a"], map[]), [], None, true) == Ok(Sweep(false, []))
  {
    var odb := Odb(false, ["a"], map[]);
    var u: set<Hash> := {};
    assert UsedHashes([], odb, true) == Ok(u);
    assert !IsDirHash("a");
    assert ["a"][1..] == [];
    assert Unused(odb.stored, u) == ["a"];
    assert DirGroup(["a"]) == [];
    assert FileGroup(["a"]) == ["a"];
    assert DirPhase([]) == [];
    assert FilePhase(["a"]) == [RemoveObject("a")] by {
      assert ["a"][..0] == [];
    }
  }
}
