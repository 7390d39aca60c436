/**
 * The decision logic of the overlay filesystem `DvcTree`: which tracked
 * outputs cover a path, how a file nested inside a tracked directory finds its
 * hash in the directory manifest, whether a path is a directory, where `open`
 * reads from, and when a fetched directory manifest is accepted.
 *
 * Paths are their `parts` (see module FsPath). The repository's lookup
 * `find_outs_by_path` is not part of this model: each operation receives the
 * outputs it returned as `candidates`.
 */
module DvcTree {
  import opened Wrappers

  type Hash = string

  /** A directory manifest: path segments relative to the directory, to the file's hash. */
  type Manifest = map<seq<string>, Hash>

  /**
   * One tracked output: its path parts, whether it is cached, whether its hash
   * names a whole directory, its hash value, and the directory manifest its
   * cache yields (None when the cache has none to give).
   */
  datatype Output = Output(
    parts: seq<string>,
    useCache: bool,
    isDirChecksum: bool,
    hash: Hash,
    manifest: Option<Manifest>)

  datatype TreeError =
    | OutputNotFound
    | FileNotFound
    | IsADirectory
    | NotADirectory
    | NoSuchPrefix    // the trie has no node at the prefix a walk lists

  /** Where `open` reads the content from, and by which checksum. */
  datatype Source = FromCache(checksum: Hash) | FromRemote(checksum: Hash)

  /** What `metadata` returns about a path. */
  datatype Meta = Meta(path: seq<string>, outs: seq<Output>, isdir: bool)

  predicate IsPrefix(p: seq<string>, q: seq<string>)
  {
    |p| <= |q| && q[..|p|] == p
  }

  // ---------------------------------------------------------------------------
  // _find_outs

  /** The cached outputs, in their original order. */
  function Cached(outs: seq<Output>): (r: seq<Output>)
    ensures |r| <= |outs|
    ensures forall o :: o in r <==> o in outs && o.useCache
    decreases |outs|
  {
    if outs == [] then []
    else if outs[0].useCache then [outs[0]] + Cached(outs[1..])
    else Cached(outs[1..])
  }

  /** `_find_outs`: keeps the outputs that use the cache; none left is `OutputNotFoundError`. */
  function FindOuts(candidates: seq<Output>): (r: Result<seq<Output>, TreeError>)
    ensures r.Err? <==> forall o :: o in candidates ==> !o.useCache
    ensures r.Err? ==> r.error == OutputNotFound
    ensures r.Ok? ==> |r.value| > 0 && forall o :: o in r.value <==> o in candidates && o.useCache
  {
    var outs := Cached(candidates);
    if outs == [] then Err(OutputNotFound)
    else
      assert outs[0] in outs;
      Ok(outs)
  }

  // ---------------------------------------------------------------------------
  // _get_granular_hash

  /** The length of the longest common prefix of two part sequences. */
  function CommonPrefixLen(p: seq<string>, q: seq<string>): (n: nat)
    ensures n <= |p| && n <= |q| && p[..n] == q[..n]
    ensures n < |p| && n < |q| ==> p[n] != q[n]
    decreases |p|
  {
    if p == [] || q == [] || p[0] != q[0] then 0
    else
      var n := 1 + CommonPrefixLen(p[1..], q[1..]);
      assert p[..n] == [p[0]] + p[1..][..n - 1];
      assert q[..n] == [q[0]] + q[1..][..n - 1];
      n
  }

  function Ups(n: nat): (r: seq<string>)
    ensures |r| == n && forall i :: 0 <= i < n ==> r[i] == ".."
  {
    if n == 0 then [] else Ups(n - 1) + [".."]
  }

  /**
   * `relpath(path, root).split(os.sep)`: climb out of `root` to the common
   * prefix, then descend to `path`; a path equal to `root` is ".".
   */
  function RelPath(path: seq<string>, root: seq<string>): (r: seq<string>)
    ensures |r| > 0
    ensures path == root ==> r == ["."]
  {
    var c := CommonPrefixLen(path, root);
    var rel := Ups(|root| - c) + path[c..];
    if rel == [] then ["."] else rel
  }

  /**
   * `_get_granular_hash`: looks the path up, relative to the output root, in
   * the output's manifest. An entry whose hash is empty is falsy and so counts
   * as missing, like an absent entry; both raise `FileNotFoundError`.
   */
  function GranularHash(path: seq<string>, out: Output): (r: Result<Hash, TreeError>)
    ensures r.Err? ==> r.error == FileNotFound
  {
    var key := RelPath(path, out.parts);
    if out.manifest.Some? && key in out.manifest.value && out.manifest.value[key] != "" then
      Ok(out.manifest.value[key])
    else
      Err(FileNotFound)
  }

  /** For a path strictly inside the output, the lookup key is the path below the output root. */
  lemma RelPathInside(path: seq<string>, root: seq<string>)
    requires IsPrefix(root, path) && |path| > |root|
    ensures RelPath(path, root) == path[|root|..]
  {
  }

  /** The granular hash of a path inside a directory output is its manifest entry, if that entry is non-empty. */
  lemma GranularHashInside(path: seq<string>, out: Output)
    requires IsPrefix(out.parts, path) && |path| > |out.parts|
    ensures GranularHash(path, out).Ok? <==>
      (out.manifest.Some? && path[|out.parts|..] in out.manifest.value
       && out.manifest.value[path[|out.parts|..]] != "")
    ensures GranularHash(path, out).Ok? ==>
      GranularHash(path, out).value == out.manifest.value[path[|out.parts|..]]
  {
    RelPathInside(path, out.parts);
  }

  /** A path above the output, or beside it, looks up a key that climbs with "..", so no file-path key matches. */
  lemma RelPathOutside(path: seq<string>, root: seq<string>)
    requires !IsPrefix(root, path)
    ensures |RelPath(path, root)| > 0 && RelPath(path, root)[0] == ".."
  {
    var c := CommonPrefixLen(path, root);
    assert root[..|root|] == root;
  }

  // ---------------------------------------------------------------------------
  // check_isdir and metadata

  /** `check_isdir`: whether the covering outputs make the path a directory. */
  function CheckIsDir(path: seq<string>, outs: seq<Output>): (r: bool)
    ensures !r ==> |outs| == 1
    ensures |outs| == 1 && outs[0].parts == path ==> (r <==> outs[0].isDirChecksum)
    ensures |outs| == 1 && !outs[0].isDirChecksum ==> (r <==> outs[0].parts != path)
  {
    if |outs| != 1 then true
    else if !outs[0].isDirChecksum then outs[0].parts != path
    else if outs[0].parts == path then true
    else GranularHash(path, outs[0]).Err?
  }

  /**
   * Inside a single directory output, `check_isdir` calls a path a file
   * exactly when the manifest holds a non-empty hash at the path's key below
   * the output root.
   */
  lemma CheckIsDirInsideDir(path: seq<string>, out: Output)
    requires out.isDirChecksum && IsPrefix(out.parts, path) && |path| > |out.parts|
    ensures !CheckIsDir(path, [out]) <==>
      out.manifest.Some? && path[|out.parts|..] in out.manifest.value
      && out.manifest.value[path[|out.parts|..]] != ""
  {
    GranularHashInside(path, out);
  }

  /**
   * `metadata`: the outputs found recursively under or above the path; none is
   * `FileNotFoundError`. `metaIsDir` is what the metadata class itself decides;
   * `check_isdir` can only turn the answer into "directory".
   */
  function Metadata(path: seq<string>, candidates: seq<Output>, metaIsDir: bool): (r: Result<Meta, TreeError>)
    ensures r.Err? <==> FindOuts(candidates).Err?
    ensures r.Err? ==> r.error == FileNotFound
    ensures r.Ok? ==> r.value.path == path && r.value.outs == FindOuts(candidates).value
    ensures r.Ok? ==> (r.value.isdir <==> metaIsDir || CheckIsDir(path, r.value.outs))
  {
    match FindOuts(candidates)
    case Err(_) => Err(FileNotFound)
    case Ok(outs) => Ok(Meta(path, outs, metaIsDir || CheckIsDir(path, outs)))
  }

  /** `exists`: true iff `metadata` does not raise, i.e. some covering output uses the cache. */
  function Exists(path: seq<string>, candidates: seq<Output>, metaIsDir: bool): (r: bool)
    ensures r <==> exists o :: o in candidates && o.useCache
  {
    Metadata(path, candidates, metaIsDir).Ok?
  }

  /** `isdir`: false when the path does not exist, otherwise `metadata`'s verdict. */
  function IsDir(path: seq<string>, candidates: seq<Output>, metaIsDir: bool): (r: bool)
    ensures r <==> Exists(path, candidates, metaIsDir) && (metaIsDir || CheckIsDir(path, FindOuts(candidates).value))
  {
    match Metadata(path, candidates, metaIsDir)
    case Err(_) => false
    case Ok(meta) => meta.isdir
  }

  // ---------------------------------------------------------------------------
  // open

  /**
   * `open`'s choice of source. `changedCache` is `out.changed_cache(path)` and
   * `hasRemote` whether `repo.cloud.get_remote` finds a remote. The checksum is
   * the granular hash for a directory output and the output's own hash for a
   * file output, on the cache path and on the remote path alike.
   */
  function Open(path: seq<string>, candidates: seq<Output>, changedCache: bool, hasRemote: bool)
    : (r: Result<Source, TreeError>)
    ensures FindOuts(candidates).Err? ==> r == Err(FileNotFound)
    ensures r == Err(IsADirectory) <==>
      FindOuts(candidates).Ok? &&
      (|FindOuts(candidates).value| != 1 ||
       (FindOuts(candidates).value[0].isDirChecksum && path == FindOuts(candidates).value[0].parts))
    ensures r.Err? ==> r.error == FileNotFound || r.error == IsADirectory
    ensures changedCache && !hasRemote ==> r.Err?
    ensures r == Err(FileNotFound) ==>
      FindOuts(candidates).Err? || (changedCache && !hasRemote) ||
      (FindOuts(candidates).value[0].isDirChecksum && GranularHash(path, FindOuts(candidates).value[0]).Err?)
    ensures r.Ok? ==> (r.value.FromRemote? <==> changedCache)
    ensures r.Ok? ==> |FindOuts(candidates).value| == 1
    ensures r.Ok? ==> (if FindOuts(candidates).value[0].isDirChecksum
                       then GranularHash(path, FindOuts(candidates).value[0]) == Ok(r.value.checksum)
                       else r.value.checksum == FindOuts(candidates).value[0].hash)
  {
    match FindOuts(candidates)
    case Err(_) => Err(FileNotFound)
    case Ok(outs) =>
      if |outs| != 1 || (outs[0].isDirChecksum && path == outs[0].parts) then Err(IsADirectory)
      else
        var out := outs[0];
        if changedCache && !hasRemote then Err(FileNotFound)
        else
          var checksum := if out.isDirChecksum then GranularHash(path, out) else Ok(out.hash);
          match checksum
          case Err(e) => Err(e)
          case Ok(c) => Ok(if changedCache then FromRemote(c) else FromCache(c))
  }

  /** `get_file_hash`: one covering output, and the granular hash when that output is a directory. */
  function GetFileHash(path: seq<string>, candidates: seq<Output>): (r: Result<Hash, TreeError>)
    ensures FindOuts(candidates).Err? ==> r == Err(OutputNotFound)
    ensures FindOuts(candidates).Ok? && |FindOuts(candidates).value| != 1 ==> r == Err(OutputNotFound)
    ensures r.Err? ==> r.error == OutputNotFound || r.error == FileNotFound
    ensures r.Ok? ==> |FindOuts(candidates).value| == 1
    ensures r.Ok? ==> (if FindOuts(candidates).value[0].isDirChecksum
                       then GranularHash(path, FindOuts(candidates).value[0]) == r
                       else r.value == FindOuts(candidates).value[0].hash)
  {
    match FindOuts(candidates)
    case Err(e) => Err(e)
    case Ok(outs) =>
      if |outs| != 1 then Err(OutputNotFound)
      else if outs[0].isDirChecksum then GranularHash(path, outs[0])
      else Ok(outs[0].hash)
  }

  /** Whatever `open` reads, it reads under the checksum `get_file_hash` reports for the same path. */
  lemma OpenReadsFileHash(path: seq<string>, candidates: seq<Output>, changedCache: bool, hasRemote: bool)
    requires Open(path, candidates, changedCache, hasRemote).Ok?
    ensures GetFileHash(path, candidates) == Ok(Open(path, candidates, changedCache, hasRemote).value.checksum)
  {
  }

  /**
   * A path that `metadata` calls a file can be opened, from the cache when the
   * cache is unchanged and from the remote when one is configured.
   */
  lemma FileOpens(path: seq<string>, candidates: seq<Output>, metaIsDir: bool, changedCache: bool, hasRemote: bool)
    requires Metadata(path, candidates, metaIsDir).Ok? && !Metadata(path, candidates, metaIsDir).value.isdir
    ensures Open(path, candidates, changedCache, hasRemote).Ok? <==> !changedCache || hasRemote
  {
  }

  /**
   * For a single cached directory output, `open` succeeds from an unchanged
   * cache exactly when `check_isdir` calls the path a file.
   */
  lemma DirOutputOpensIffFile(path: seq<string>, candidates: seq<Output>)
    requires FindOuts(candidates).Ok? && |FindOuts(candidates).value| == 1
    requires FindOuts(candidates).value[0].isDirChecksum
    ensures Open(path, candidates, false, false).Ok? <==> !CheckIsDir(path, FindOuts(candidates).value)
  {
  }

  // ---------------------------------------------------------------------------
  // _fetch_dir and get_dir_hash

  /**
   * `_fetch_dir`: the output's directory manifest is accepted only when it is
   * non-empty and re-saving it (`dirHash`, standing for `Tree.save_dir_info`)
   * gives back the output's hash; otherwise `FileNotFoundError`.
   */
  function FetchDir(out: Output, dirHash: Manifest -> Hash): (r: Result<Manifest, TreeError>)
    ensures r.Ok? <==> out.manifest.Some? && |out.manifest.value| > 0 && dirHash(out.manifest.value) == out.hash
    ensures r.Ok? ==> r.value == out.manifest.value
    ensures r.Err? ==> r.error == FileNotFound
  {
    match out.manifest
    case None => Err(FileNotFound)
    case Some(m) =>
      if |m| == 0 then Err(FileNotFound)
      else if dirHash(m) != out.hash then Err(FileNotFound)
      else Ok(m)
  }

  /**
   * `get_dir_hash`: a single directory output answers with its own hash once
   * its manifest is validated; otherwise the base tree answers (`fallback`).
   */
  function GetDirHash(candidates: seq<Output>, dirHash: Manifest -> Hash, fallback: Result<Hash, TreeError>)
    : (r: Result<Hash, TreeError>)
    ensures FindOuts(candidates).Ok? && |FindOuts(candidates).value| == 1 && FindOuts(candidates).value[0].isDirChecksum ==>
      r == (if FetchDir(FindOuts(candidates).value[0], dirHash).Ok?
            then Ok(FindOuts(candidates).value[0].hash) else Err(FileNotFound))
    ensures !(FindOuts(candidates).Ok? && |FindOuts(candidates).value| == 1 && FindOuts(candidates).value[0].isDirChecksum) ==>
      r == fallback
  {
    match FindOuts(candidates)
    case Err(_) => fallback
    case Ok(outs) =>
      if |outs| == 1 && outs[0].isDirChecksum then
        match FetchDir(outs[0], dirHash)
        case Err(e) => Err(e)
        case Ok(_) => Ok(outs[0].hash)
      else fallback
  }
}
