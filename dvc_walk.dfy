/**
 * The top-down directory walk of the overlay filesystem. A walk builds a
 * prefix tree (trie) from the path parts of the covering outputs to the
 * outputs, expands the manifests of directory outputs into it (as keys with
 * value None), and lists each level's children as directory names and file
 * names before descending into every directory name.
 *
 * The trie is modelled as a map from keys to values held by a class; a key
 * that is only an inner node of the trie (a proper prefix of a stored key) is
 * not in the map.
 */
module DvcWalk {
  import opened Wrappers
  import opened DvcTree

  type Entries = map<seq<string>, Option<Output>>

  /** One yielded walk step: the directory, its child directory names and its child file names. */
  datatype Level = Level(path: seq<string>, dirs: set<string>, files: seq<string>)

  predicate IsDirEntry(v: Option<Output>)
  {
    v.Some? && v.value.isDirChecksum
  }

  predicate IsChild(root: seq<string>, key: seq<string>)
  {
    IsPrefix(root, key) && |key| > |root|
  }

  /** The key lies below `root` and names a directory there: it goes deeper, or it is a directory output. */
  predicate ListsDir(e: Entries, root: seq<string>, k: seq<string>)
    requires k in e
  {
    IsChild(root, k) && (|k| > |root| + 1 || IsDirEntry(e[k]))
  }

  /** The key is a direct child of `root` that is not a directory output. */
  predicate ListsFile(e: Entries, root: seq<string>, k: seq<string>)
    requires k in e
  {
    IsChild(root, k) && |k| == |root| + 1 && !IsDirEntry(e[k])
  }

  /** The child directory names that the keys in `ks` contribute under `root`. */
  function DirNamesOf(e: Entries, root: seq<string>, ks: set<seq<string>>): set<string>
  {
    set k | k in ks && k in e && ListsDir(e, root, k) :: k[|root|]
  }

  function FileNamesOf(e: Entries, root: seq<string>, ks: set<seq<string>>): set<string>
  {
    set k | k in ks && k in e && ListsFile(e, root, k) :: k[|root|]
  }

  function DirNames(e: Entries, root: seq<string>): set<string>
  {
    DirNamesOf(e, root, e.Keys)
  }

  function FileNames(e: Entries, root: seq<string>): set<string>
  {
    FileNamesOf(e, root, e.Keys)
  }

  /** pygtrie's `iteritems(prefix=root)` finds a node: some key starts with `root`. */
  ghost predicate HasNode(e: Entries, root: seq<string>)
  {
    exists k :: k in e && IsPrefix(root, k)
  }

  predicate NoDup(s: seq<string>)
  {
    forall i, j :: 0 <= i < j < |s| ==> s[i] != s[j]
  }

  /** `level` is what `_walk` lists for `root` when the trie holds `e`. */
  ghost predicate ListsLevel(e: Entries, root: seq<string>, level: Level)
  {
    && level.path == root
    && level.dirs == DirNames(e, root)
    && (forall n :: n in level.files <==> n in FileNames(e, root))
    && NoDup(level.files)
  }

  // ---------------------------------------------------------------------------
  // _add_dir

  function AddedKeys(base: seq<string>, keys: set<seq<string>>): set<seq<string>>
  {
    set mk | mk in keys :: base + mk
  }

  function Expand(e: Entries, base: seq<string>, keys: set<seq<string>>): Entries
  {
    var none: Option<Output> := None;
    e + map k | k in AddedKeys(base, keys) :: none
  }

  /**
   * `_add_dir`: validates the output's manifest, then stores `base + key` with
   * value None for every manifest key; every other key keeps its value.
   */
  function AddDirSpec(e: Entries, out: Output, dirHash: Manifest -> Hash): (r: Result<Entries, TreeError>)
    ensures r.Err? <==> FetchDir(out, dirHash).Err?
    ensures r.Err? ==> r.error == FileNotFound
    ensures r.Ok? ==> r.value.Keys == e.Keys + AddedKeys(out.parts, out.manifest.value.Keys)
    ensures r.Ok? ==> forall mk :: mk in out.manifest.value ==> r.value[out.parts + mk] == None
    ensures r.Ok? ==> forall k :: k in e && k !in AddedKeys(out.parts, out.manifest.value.Keys) ==> r.value[k] == e[k]
  {
    match FetchDir(out, dirHash)
    case Err(x) => Err(x)
    case Ok(m) => Ok(Expand(e, out.parts, m.Keys))
  }

  /** Expanding the same output twice leaves the trie as one expansion does. */
  lemma {:induction false} AddDirIdempotent(e: Entries, out: Output, dirHash: Manifest -> Hash)
    requires AddDirSpec(e, out, dirHash).Ok?
    ensures AddDirSpec(AddDirSpec(e, out, dirHash).value, out, dirHash) == AddDirSpec(e, out, dirHash)
  {
    var e1 := AddDirSpec(e, out, dirHash).value;
    var e2 := AddDirSpec(e1, out, dirHash).value;
    assert e2.Keys == e1.Keys;
    assert forall k :: k in e2 ==> e2[k] == e1[k];
    assert e2 == e1;
  }

  /** `walk`'s root: the output stored at exactly `root` is expanded if it is a directory output. */
  function RootExpansion(e: Entries, root: seq<string>, dirHash: Manifest -> Hash): (r: Result<Entries, TreeError>)
    ensures r.Err? <==> root in e && IsDirEntry(e[root]) && FetchDir(e[root].value, dirHash).Err?
    ensures r.Ok? ==> e.Keys <= r.value.Keys
    ensures !(root in e && IsDirEntry(e[root])) ==> r == Ok(e)
  {
    if root in e && IsDirEntry(e[root]) then AddDirSpec(e, e[root].value, dirHash) else Ok(e)
  }

  // ---------------------------------------------------------------------------
  // The trie

  class Trie {
    var entries: Entries

    constructor ()
      ensures entries == map[]
    {
      entries := map[];
    }

    /** `trie.get(key)`: the stored value, None for a None value and for a missing key alike. */
    function Get(key: seq<string>): (v: Option<Output>)
      reads this
      ensures v.Some? <==> key in entries && entries[key].Some?
      ensures v.Some? ==> v == entries[key]
    {
      if key in entries then entries[key] else None
    }

    /** `trie[key] = v`. */
    method Put(key: seq<string>, v: Option<Output>)
      modifies this
      ensures entries == old(entries)[key := v]
    {
      entries := entries[key := v];
    }
  }

  /** `_add_dir` on a trie: the new entries are those of `AddDirSpec`; on failure nothing changes. */
  method AddDir(trie: Trie, out: Output, dirHash: Manifest -> Hash) returns (err: Option<TreeError>)
    modifies trie
    ensures AddDirSpec(old(trie.entries), out, dirHash) == (if err.None? then Ok(trie.entries) else Err(err.value))
    ensures err.Some? ==> trie.entries == old(trie.entries)
  {
    var fetched := FetchDir(out, dirHash);
    if fetched.Err? {
      return Some(fetched.error);
    }
    var m := fetched.value;
    var todo := m.Keys;
    ghost var e0 := trie.entries;
    while todo != {}
      invariant todo <= m.Keys
      invariant trie.entries == Expand(e0, out.parts, m.Keys - todo)
      decreases todo
    {
      var key :| key in todo;
      ExpandOneMore(e0, out.parts, m.Keys - todo, key);
      trie.Put(out.parts + key, None);
      assert m.Keys - (todo - {key}) == (m.Keys - todo) + {key};
      todo := todo - {key};
    }
    assert m.Keys - todo == m.Keys;
    err := None;
  }

  lemma {:induction false} ExpandOneMore(e: Entries, base: seq<string>, done: set<seq<string>>, key: seq<string>)
    ensures Expand(e, base, done + {key}) == Expand(e, base, done)[base + key := None]
  {
    assert AddedKeys(base, done + {key}) == AddedKeys(base, done) + {base + key};
  }

  // ---------------------------------------------------------------------------
  // One level of _walk

  lemma {:induction false} DirectChild(root: seq<string>, k: seq<string>)
    requires IsPrefix(root, k) && |k| == |root| + 1
    ensures k == root + [k[|root|]]
  {
  }

  lemma {:induction false} NamesStep(e: Entries, root: seq<string>, done: set<seq<string>>, key: seq<string>)
    requires key in e
    ensures DirNamesOf(e, root, done + {key})
         == DirNamesOf(e, root, done) + (if ListsDir(e, root, key) then {key[|root|]} else {})
    ensures FileNamesOf(e, root, done + {key})
         == FileNamesOf(e, root, done) + (if ListsFile(e, root, key) then {key[|root|]} else {})
  {
  }

  /**
   * The listing loop of `_walk`: every key strictly below `root` contributes
   * its next segment, as a directory name when the key goes deeper or holds a
   * directory output and as a file name otherwise; the key `root` itself is
   * skipped. With no key starting with `root`, pygtrie raises.
   */
  method Listing(trie: Trie, root: seq<string>) returns (r: Result<Level, TreeError>)
    ensures r.Err? <==> !HasNode(trie.entries, root)
    ensures r.Err? ==> r.error == NoSuchPrefix
    ensures r.Ok? ==> ListsLevel(trie.entries, root, r.value)
  {
    var e := trie.entries;
    var keys := set k | k in e && IsPrefix(root, k);
    if keys == {} {
      assert !HasNode(e, root) by {
        forall k | k in e ensures !IsPrefix(root, k) {
          assert k !in keys;
        }
      }
      return Err(NoSuchPrefix);
    }
    var someKey :| someKey in keys;
    assert HasNode(e, root);
    var dirs: set<string> := {};
    var files: seq<string> := [];
    var todo := keys;
    while todo != {}
      invariant todo <= keys
      invariant dirs == DirNamesOf(e, root, keys - todo)
      invariant forall n :: n in files <==> n in FileNamesOf(e, root, keys - todo)
      invariant NoDup(files)
      decreases todo
    {
      var key :| key in todo;
      var done := keys - todo;
      NamesStep(e, root, done, key);
      assert keys - (todo - {key}) == done + {key};
      if key == root {
        // the root key is never a child of itself
      } else if |key| > |root| + 1 || IsDirEntry(e[key]) {
        dirs := dirs + {key[|root|]};
      } else {
        var name := key[|root|];
        FileNameFresh(e, root, done, key);
        files := files + [name];
      }
      todo := todo - {key};
    }
    assert keys - todo == keys;
    assert DirNamesOf(e, root, keys) == DirNames(e, root);
    assert FileNamesOf(e, root, keys) == FileNames(e, root);
    r := Ok(Level(root, dirs, files));
  }

  /** A direct file child names a file that no other key has named yet. */
  lemma {:induction false} FileNameFresh(e: Entries, root: seq<string>, done: set<seq<string>>, key: seq<string>)
    requires key in e && key !in done && ListsFile(e, root, key)
    ensures key[|root|] !in FileNamesOf(e, root, done)
  {
    if key[|root|] in FileNamesOf(e, root, done) {
      var k' :| k' in done && k' in e && ListsFile(e, root, k') && k'[|root|] == key[|root|];
      DirectChild(root, k');
      DirectChild(root, key);
      assert false;
    }
  }

  /** The key `root` itself never shapes its own listing. */
  lemma {:induction false} RootKeyNotListed(e: Entries, root: seq<string>)
    requires root in e
    ensures DirNames(e, root) == DirNames(map k | k in e && k != root :: e[k], root)
    ensures FileNames(e, root) == FileNames(map k | k in e && k != root :: e[k], root)
  {
    var e' := map k | k in e && k != root :: e[k];
    assert e.Keys == e'.Keys + {root};
    NamesStep(e, root, e'.Keys, root);
    assert DirNamesOf(e, root, e'.Keys) == DirNamesOf(e', root, e'.Keys);
    assert FileNamesOf(e, root, e'.Keys) == FileNamesOf(e', root, e'.Keys);
  }

  /** Every key below `root` puts its next segment among the directories or among the files. */
  lemma {:induction false} ChildClassified(e: Entries, root: seq<string>, k: seq<string>)
    requires k in e && IsChild(root, k)
    ensures (|k| > |root| + 1 || IsDirEntry(e[k])) ==> k[|root|] in DirNames(e, root)
    ensures !(|k| > |root| + 1 || IsDirEntry(e[k])) ==> k[|root|] in FileNames(e, root)
  {
  }

  /** A name is listed as a file only when the key `root + [name]` holds no directory output. */
  lemma {:induction false} FileNameIsLeaf(e: Entries, root: seq<string>, name: string)
    requires name in FileNames(e, root)
    ensures root + [name] in e && !IsDirEntry(e[root + [name]])
  {
    var k :| k in e && ListsFile(e, root, k) && k[|root|] == name;
    DirectChild(root, k);
  }

  // ---------------------------------------------------------------------------
  // _walk

  /** A bound on the depth of every key, present or still to come from a manifest expansion. */
  ghost predicate ManifestBounded(o: Output, bound: nat)
  {
    o.manifest.Some? ==> forall mk :: mk in o.manifest.value ==> |o.parts| + |mk| <= bound
  }

  ghost predicate Bounded(e: Entries, bound: nat)
  {
    forall k :: k in e ==> |k| <= bound && (e[k].Some? ==> ManifestBounded(e[k].value, bound))
  }

  lemma {:induction false} AddDirBounded(e: Entries, out: Output, dirHash: Manifest -> Hash, bound: nat)
    requires Bounded(e, bound) && ManifestBounded(out, bound)
    requires AddDirSpec(e, out, dirHash).Ok?
    ensures Bounded(AddDirSpec(e, out, dirHash).value, bound)
  {
    var m := out.manifest.value;
    var e1 := AddDirSpec(e, out, dirHash).value;
    forall k | k in e1 ensures |k| <= bound && (e1[k].Some? ==> ManifestBounded(e1[k].value, bound)) {
      if k in AddedKeys(out.parts, m.Keys) {
        var mk :| mk in m && k == out.parts + mk;
      }
    }
  }

  lemma {:induction false} DirDepth(e: Entries, root: seq<string>, d: string, bound: nat)
    requires Bounded(e, bound) && d in DirNames(e, root)
    ensures |root| + 1 <= bound
  {
    var k :| k in e && ListsDir(e, root, k) && k[|root|] == d;
  }

  ghost predicate ChildOf(p: seq<string>, parent: Level)
  {
    |p| > 0 && p[..|p| - 1] == parent.path && p[|p| - 1] in parent.dirs
  }

  /** Top-down order: every level after the first is a listed directory of an earlier level. */
  ghost predicate TopDown(levels: seq<Level>)
  {
    forall i :: 0 < i < |levels| ==> HasParent(levels, i)
  }

  ghost predicate HasParent(levels: seq<Level>, i: nat)
    requires i < |levels|
  {
    exists j :: 0 <= j < i && ChildOf(levels[i].path, levels[j])
  }

  ghost predicate HasLevelAt(levels: seq<Level>, p: seq<string>)
  {
    exists j :: 0 <= j < |levels| && levels[j].path == p
  }

  /** Every directory name listed at or after index `start` is itself walked. */
  ghost predicate CompleteFrom(levels: seq<Level>, start: nat)
  {
    forall i, d :: start <= i < |levels| && d in levels[i].dirs ==> HasLevelAt(levels, levels[i].path + [d])
  }

  /** Every walked level is `root` or lies below it, and only the first one is `root`. */
  ghost predicate Below(levels: seq<Level>, root: seq<string>)
  {
    && (forall i :: 0 <= i < |levels| ==> IsPrefix(root, levels[i].path))
    && (forall i :: 0 < i < |levels| ==> |levels[i].path| > |root|)
  }

  lemma {:induction false} AppendTopDown(a: seq<Level>, b: seq<Level>, root: seq<string>, d: string)
    requires |a| > 0 && a[0].path == root && d in a[0].dirs
    requires TopDown(a) && TopDown(b)
    requires |b| > 0 ==> b[0].path == root + [d]
    ensures TopDown(a + b)
  {
    var c := a + b;
    forall i | 0 < i < |c| ensures HasParent(c, i) {
      if i < |a| {
        assert c[i] == a[i];
        assert HasParent(a, i);
        var j :| 0 <= j < i && ChildOf(a[i].path, a[j]);
        assert c[j] == a[j];
      } else if i == |a| {
        assert c[i] == b[0];
        assert c[0] == a[0];
        assert c[i].path[..|c[i].path| - 1] == root;
        assert ChildOf(c[i].path, c[0]);
      } else {
        assert c[i] == b[i - |a|];
        assert HasParent(b, i - |a|);
        var j :| 0 <= j < i - |a| && ChildOf(b[i - |a|].path, b[j]);
        assert c[|a| + j] == b[j];
        assert ChildOf(c[i].path, c[|a| + j]);
      }
    }
  }

  lemma {:induction false} AppendBelow(a: seq<Level>, b: seq<Level>, root: seq<string>, d: string)
    requires Below(a, root) && Below(b, root + [d])
    ensures Below(a + b, root)
  {
    var c := a + b;
    forall i | 0 <= i < |c| ensures IsPrefix(root, c[i].path) && (i > 0 ==> |c[i].path| > |root|) {
      if i >= |a| {
        assert c[i] == b[i - |a|];
        var p := c[i].path;
        assert IsPrefix(root + [d], p);
        assert p[..|root|] == (p[..|root| + 1])[..|root|];
      } else {
        assert c[i] == a[i];
      }
    }
  }

  lemma {:induction false} AppendKeepsLevels(a: seq<Level>, b: seq<Level>, root: seq<string>, d: string)
    requires |b| > 0 ==> b[0].path == root + [d]
    ensures forall p :: HasLevelAt(a, p) ==> HasLevelAt(a + b, p)
    ensures |b| > 0 ==> HasLevelAt(a + b, root + [d])
  {
    var c := a + b;
    forall p | HasLevelAt(a, p) ensures HasLevelAt(c, p) {
      var j :| 0 <= j < |a| && a[j].path == p;
      assert c[j] == a[j];
    }
    if |b| > 0 {
      assert c[|a|] == b[0];
    }
  }

  lemma {:induction false} AppendComplete(a: seq<Level>, b: seq<Level>)
    requires |a| > 0 && CompleteFrom(a, 1) && CompleteFrom(b, 0)
    ensures CompleteFrom(a + b, 1)
  {
    var c := a + b;
    forall i, d' | 1 <= i < |c| && d' in c[i].dirs ensures HasLevelAt(c, c[i].path + [d']) {
      if i < |a| {
        assert c[i] == a[i];
        var j :| 0 <= j < |a| && a[j].path == a[i].path + [d'];
        assert c[j] == a[j];
      } else {
        assert b[i - |a|] == c[i];
        var j :| 0 <= j < |b| && b[j].path == b[i - |a|].path + [d'];
        assert c[|a| + j] == b[j];
      }
    }
  }

  /**
   * The trie after `_walk` has visited the levels `ls` in order, starting
   * from `e`: each visit expands the directory output stored at its path.
   */
  function ExpandAt(e: Entries, ls: seq<Level>, dirHash: Manifest -> Hash): Result<Entries, TreeError>
    decreases |ls|
  {
    if ls == [] then Ok(e)
    else
      match RootExpansion(e, ls[0].path, dirHash)
      case Err(x) => Err(x)
      case Ok(e1) => ExpandAt(e1, ls[1..], dirHash)
  }

  /** Level `i` is the listing of its path over the trie as it stands when `_walk` lists it. */
  ghost predicate ListedAfter(e: Entries, ls: seq<Level>, i: nat, dirHash: Manifest -> Hash)
    requires i < |ls|
  {
    ExpandAt(e, ls[..i + 1], dirHash).Ok? &&
    ListsLevel(ExpandAt(e, ls[..i + 1], dirHash).value, ls[i].path, ls[i])
  }

  ghost predicate AllListed(e: Entries, ls: seq<Level>, dirHash: Manifest -> Hash)
  {
    forall i :: 0 <= i < |ls| ==> ListedAfter(e, ls, i, dirHash)
  }

  /** No directory is walked twice. */
  ghost predicate DistinctPaths(ls: seq<Level>)
  {
    forall i, j :: 0 <= i < j < |ls| ==> ls[i].path != ls[j].path
  }

  /** Visiting `a` and then `b` is visiting `a + b`. */
  lemma {:induction false} ExpandAtAppend(e: Entries, a: seq<Level>, b: seq<Level>, dirHash: Manifest -> Hash)
    requires ExpandAt(e, a, dirHash).Ok?
    ensures ExpandAt(e, a + b, dirHash) == ExpandAt(ExpandAt(e, a, dirHash).value, b, dirHash)
    decreases |a|
  {
    if a == [] {
      assert a + b == b;
    } else {
      assert (a + b)[0] == a[0];
      assert (a + b)[1..] == a[1..] + b;
      var e1 := RootExpansion(e, a[0].path, dirHash).value;
      ExpandAtAppend(e1, a[1..], b, dirHash);
    }
  }

  lemma {:induction false} AppendListed(e: Entries, a: seq<Level>, b: seq<Level>, dirHash: Manifest -> Hash)
    requires ExpandAt(e, a, dirHash).Ok? && AllListed(e, a, dirHash)
    requires AllListed(ExpandAt(e, a, dirHash).value, b, dirHash)
    ensures AllListed(e, a + b, dirHash)
    ensures ExpandAt(e, a + b, dirHash) == ExpandAt(ExpandAt(e, a, dirHash).value, b, dirHash)
  {
    ExpandAtAppend(e, a, b, dirHash);
    var c := a + b;
    forall i | 0 <= i < |c| ensures ListedAfter(e, c, i, dirHash) {
      if i < |a| {
        assert c[..i + 1] == a[..i + 1];
        assert c[i] == a[i];
        assert ListedAfter(e, a, i, dirHash);
      } else {
        var j := i - |a|;
        assert c[..i + 1] == a + b[..j + 1];
        assert c[i] == b[j];
        ExpandAtAppend(e, a, b[..j + 1], dirHash);
        assert ListedAfter(ExpandAt(e, a, dirHash).value, b, j, dirHash);
      }
    }
  }

  /** Subwalks under distinct names of `root` walk distinct paths. */
  lemma {:induction false} AppendDistinct(a: seq<Level>, b: seq<Level>, root: seq<string>, d: string, done: set<string>)
    requires |a| > 0 && a[0].path == root && Below(a, root) && Below(b, root + [d])
    requires DistinctPaths(a) && DistinctPaths(b) && d !in done
    requires forall i :: 1 <= i < |a| ==> a[i].path[|root|] in done
    ensures DistinctPaths(a + b)
    ensures forall i :: 1 <= i < |a + b| ==> |(a + b)[i].path| > |root| && (a + b)[i].path[|root|] in done + {d}
  {
    var c := a + b;
    SubwalkUnder(b, root, d);
    forall i | 1 <= i < |c| ensures |c[i].path| > |root| && c[i].path[|root|] in done + {d} {
      if i >= |a| {
        assert c[i] == b[i - |a|];
      } else {
        assert c[i] == a[i];
      }
    }
    forall i, j | 0 <= i < j < |c| ensures c[i].path != c[j].path {
      if j >= |a| {
        assert c[j] == b[j - |a|];
        assert IsPrefix(root + [d], c[j].path);
        assert c[j].path[|root|] == (c[j].path[..|root| + 1])[|root|] == d;
        if i >= |a| {
          assert c[i] == b[i - |a|];
        } else {
          assert c[i] == a[i];
          if i > 0 {
            assert a[i].path[|root|] in done;
          }
        }
      } else {
        assert c[i] == a[i] && c[j] == a[j];
      }
    }
  }

  /** Every level of a subwalk under `root + [d]` names `d` right below `root`. */
  lemma {:induction false} SubwalkUnder(b: seq<Level>, root: seq<string>, d: string)
    requires Below(b, root + [d])
    ensures forall i :: 0 <= i < |b| ==> |b[i].path| > |root| && b[i].path[|root|] == d
  {
    forall i | 0 <= i < |b| ensures |b[i].path| > |root| && b[i].path[|root|] == d {
      assert IsPrefix(root + [d], b[i].path);
      assert b[i].path[|root|] == (b[i].path[..|root| + 1])[|root|];
    }
  }

  // ---------------------------------------------------------------------------
  // When a walk raises

  /** Some directory output stored at or below `root` has a manifest that `_fetch_dir` rejects. */
  ghost predicate SomeDirRejected(e: Entries, root: seq<string>, dirHash: Manifest -> Hash)
  {
    exists k :: k in e && IsPrefix(root, k) && IsDirEntry(e[k]) && FetchDir(e[k].value, dirHash).Err?
  }

  /** `e1` keeps every key of `e0`, and each directory output in `e1` is the one `e0` holds at that key. */
  ghost predicate Grown(e0: Entries, e1: Entries)
  {
    && e0.Keys <= e1.Keys
    && (forall k :: k in e1 && IsDirEntry(e1[k]) ==> k in e0 && e1[k] == e0[k])
  }

  /** Expanding the root adds keys with no output and changes no directory output. */
  lemma {:induction false} RootExpansionGrows(e: Entries, root: seq<string>, dirHash: Manifest -> Hash)
    requires RootExpansion(e, root, dirHash).Ok?
    ensures Grown(e, RootExpansion(e, root, dirHash).value)
  {
    if root in e && IsDirEntry(e[root]) {
      var out := e[root].value;
      var r := RootExpansion(e, root, dirHash).value;
      forall k | k in AddedKeys(out.parts, out.manifest.value.Keys) ensures k in r && r[k] == None {
        var mk :| mk in out.manifest.value.Keys && k == out.parts + mk;
      }
    }
  }

  lemma {:induction false} GrownTrans(e0: Entries, e1: Entries, e2: Entries)
    requires Grown(e0, e1) && Grown(e1, e2)
    ensures Grown(e0, e2)
  {
  }

  /** Every visit of a walk only grows the trie. */
  lemma {:induction false} ExpandAtGrows(e: Entries, ls: seq<Level>, dirHash: Manifest -> Hash)
    requires ExpandAt(e, ls, dirHash).Ok?
    ensures Grown(e, ExpandAt(e, ls, dirHash).value)
    decreases |ls|
  {
    if ls != [] {
      RootExpansionGrows(e, ls[0].path, dirHash);
      var e1 := RootExpansion(e, ls[0].path, dirHash).value;
      ExpandAtGrows(e1, ls[1..], dirHash);
      GrownTrans(e, e1, ExpandAt(e, ls, dirHash).value);
    }
  }

  /**
   * A rejected directory output below `q` in a grown trie was already in the
   * trie it grew from, below every prefix `p` of `q`.
   */
  lemma {:induction false} GrownRejected(e0: Entries, e1: Entries, p: seq<string>, q: seq<string>, dirHash: Manifest -> Hash)
    requires Grown(e0, e1) && IsPrefix(p, q) && SomeDirRejected(e1, q, dirHash)
    ensures SomeDirRejected(e0, p, dirHash)
  {
    var k :| k in e1 && IsPrefix(q, k) && IsDirEntry(e1[k]) && FetchDir(e1[k].value, dirHash).Err?;
    assert k[..|p|] == k[..|q|][..|p|];
    assert k in e0 && e0[k] == e1[k] && IsPrefix(p, k);
  }

  /** Expanding the root never removes the node at the root, nor creates it. */
  lemma {:induction false} RootExpansionNode(e: Entries, root: seq<string>, dirHash: Manifest -> Hash)
    ensures RootExpansion(e, root, dirHash).Ok? ==>
      (HasNode(RootExpansion(e, root, dirHash).value, root) <==> HasNode(e, root))
    ensures !HasNode(e, root) ==> RootExpansion(e, root, dirHash) == Ok(e)
  {
    assert IsPrefix(root, root);
    if root in e && IsDirEntry(e[root]) && RootExpansion(e, root, dirHash).Ok? {
      assert root in RootExpansion(e, root, dirHash).value;
    }
  }

  /** A walked level's trie still has a node at each listed directory; the trie grew from `e0`. */
  lemma {:induction false} ListedDirsHaveNodes(e0: Entries, level: Level, levels: seq<Level>, cur: Entries,
                                             dirHash: Manifest -> Hash)
    requires WalkedBelow(e0, level, levels, cur, dirHash)
    ensures Grown(e0, cur)
    ensures forall d :: d in level.dirs ==> HasNode(cur, level.path + [d])
  {
    ExpandAtGrows(e0, levels, dirHash);
    assert ListedAfter(e0, levels, 0, dirHash);
    var first := levels[..1];
    ExpandAtAppend(e0, first, levels[1..], dirHash);
    assert first + levels[1..] == levels;
    var e1 := ExpandAt(e0, first, dirHash).value;
    ExpandAtGrows(e1, levels[1..], dirHash);
    assert ListsLevel(e1, level.path, level);
    forall d | d in level.dirs ensures HasNode(cur, level.path + [d]) {
      var k :| k in e1 && ListsDir(e1, level.path, k) && k[|level.path|] == d;
      assert k[..|level.path| + 1] == level.path + [d];
      assert k in cur && IsPrefix(level.path + [d], k);
    }
  }

  /**
   * A subwalk below a listed directory cannot miss its node, so the only
   * error it raises is a rejected manifest, which the trie held before.
   */
  lemma {:induction false} SubwalkFailure(e0: Entries, cur: Entries, parent: seq<string>, d: string,
                                         dirHash: Manifest -> Hash)
    requires Grown(e0, cur) && HasNode(cur, parent + [d])
    ensures var p := parent + [d];
      RootExpansion(cur, p, dirHash).Ok? ==> HasNode(RootExpansion(cur, p, dirHash).value, p)
    ensures SomeDirRejected(cur, parent + [d], dirHash) ==> SomeDirRejected(e0, parent, dirHash)
  {
    var p := parent + [d];
    if RootExpansion(cur, p, dirHash).Ok? {
      RootExpansionNode(cur, p, dirHash);
    }
    if SomeDirRejected(cur, p, dirHash) {
      assert p[..|parent|] == parent;
      GrownRejected(e0, cur, parent, p, dirHash);
    }
  }

  /**
   * `_walk`: expands the output stored at `root` if it is a directory output,
   * yields `root`'s listing first, then walks each listed directory in turn
   * (in no fixed order). `levels` is what was yielded; `err` what was raised.
   */
  method WalkFrom(trie: Trie, root: seq<string>, dirHash: Manifest -> Hash, ghost bound: nat)
    returns (levels: seq<Level>, err: Option<TreeError>)
    requires Bounded(trie.entries, bound) && |root| <= bound
    modifies trie
    decreases bound - |root|, 2
    ensures Bounded(trie.entries, bound)
    ensures err.None? ==> |levels| > 0
    ensures Below(levels, root) && TopDown(levels) && DistinctPaths(levels)
    ensures err.None? ==> CompleteFrom(levels, 0)
    ensures ExpandAt(old(trie.entries), levels, dirHash) == Ok(trie.entries)
    ensures AllListed(old(trie.entries), levels, dirHash)
    ensures RootExpansion(old(trie.entries), root, dirHash).Err? ==>
      levels == [] && err == Some(RootExpansion(old(trie.entries), root, dirHash).error)
    ensures |levels| > 0 ==>
      RootExpansion(old(trie.entries), root, dirHash).Ok? &&
      ListsLevel(RootExpansion(old(trie.entries), root, dirHash).value, root, levels[0])
    ensures var x := RootExpansion(old(trie.entries), root, dirHash);
      x.Ok? && !HasNode(x.value, root) ==> levels == [] && err == Some(NoSuchPrefix)
    ensures var x := RootExpansion(old(trie.entries), root, dirHash);
      x.Ok? && HasNode(x.value, root) ==> |levels| > 0
    ensures err.Some? ==>
      || (err == Some(FileNotFound) && SomeDirRejected(old(trie.entries), root, dirHash))
      || (levels == [] && err == Some(NoSuchPrefix) && RootExpansion(old(trie.entries), root, dirHash).Ok? &&
          !HasNode(RootExpansion(old(trie.entries), root, dirHash).value, root))
  {
    ghost var start := trie.entries;
    var v := trie.Get(root);
    if v.Some? && v.value.isDirChecksum {
      assert ManifestBounded(v.value, bound);
      var e := AddDir(trie, v.value, dirHash);
      if e.Some? {
        assert root in start && IsPrefix(root, root) && IsDirEntry(start[root]);
        return [], e;
      }
      AddDirBounded(start, v.value, dirHash, bound);
      assert root in trie.entries && IsPrefix(root, root);
    }
    assert RootExpansion(start, root, dirHash) == Ok(trie.entries);
    ghost var expanded := trie.entries;
    var listing := Listing(trie, root);
    if listing.Err? {
      return [], Some(listing.error);
    }
    var level := listing.value;
    if level.dirs != {} {
      var d :| d in level.dirs;
      DirDepth(expanded, root, d, bound);
    }
    DescendStart(start, level, trie.entries, dirHash);
    levels, err := WalkDirs(trie, level, dirHash, bound, start);
  }

  /**
   * A walk below `level`: it starts with `level`, lies below it in top-down
   * order without a repeated path, lists each level over the trie as it stood
   * then (starting from `e0`), and leaves the trie at `cur`.
   */
  ghost predicate WalkedBelow(e0: Entries, level: Level, levels: seq<Level>, cur: Entries, dirHash: Manifest -> Hash)
  {
    && |levels| > 0 && levels[0] == level
    && Below(levels, level.path) && TopDown(levels) && DistinctPaths(levels)
    && ExpandAt(e0, levels, dirHash) == Ok(cur)
    && AllListed(e0, levels, dirHash)
  }

  /** A walk below `level` that has walked every name in `done`, and only those. */
  ghost predicate Descended(e0: Entries, level: Level, levels: seq<Level>, done: set<string>, cur: Entries,
                            dirHash: Manifest -> Hash)
  {
    && WalkedBelow(e0, level, levels, cur, dirHash)
    && CompleteFrom(levels, 1)
    && (forall d :: d in done ==> HasLevelAt(levels, level.path + [d]))
    && (forall i :: 1 <= i < |levels| ==> |levels[i].path| > |level.path| && levels[i].path[|level.path|] in done)
  }

  /** The facts a subwalk's contract gives about what it yielded and how it left the trie. */
  ghost predicate Subwalk(sub: seq<Level>, p: seq<string>, cur: Entries, after: Entries, dirHash: Manifest -> Hash)
  {
    && Below(sub, p) && TopDown(sub) && DistinctPaths(sub)
    && (|sub| > 0 ==> sub[0].path == p)
    && ExpandAt(cur, sub, dirHash) == Ok(after)
    && AllListed(cur, sub, dirHash)
  }

  /** Appending a subwalk, complete or cut short, keeps the descent's order, distinctness and listings. */
  lemma {:induction false} DescendStep(e0: Entries, level: Level, levels: seq<Level>, done: set<string>, cur: Entries,
                                       d: string, sub: seq<Level>, after: Entries, dirHash: Manifest -> Hash)
    requires Descended(e0, level, levels, done, cur, dirHash) && d in level.dirs && d !in done
    requires Subwalk(sub, level.path + [d], cur, after, dirHash)
    ensures WalkedBelow(e0, level, levels + sub, after, dirHash)
    ensures |sub| > 0 && CompleteFrom(sub, 0) ==> Descended(e0, level, levels + sub, done + {d}, after, dirHash)
  {
    var root := level.path;
    AppendWalked(e0, level, levels, done, cur, d, sub, after, dirHash);
    AppendKeepsLevels(levels, sub, root, d);
    if |sub| > 0 && CompleteFrom(sub, 0) {
      AppendComplete(levels, sub);
    }
  }

  lemma {:induction false} AppendWalked(e0: Entries, level: Level, levels: seq<Level>, done: set<string>, cur: Entries,
                                        d: string, sub: seq<Level>, after: Entries, dirHash: Manifest -> Hash)
    requires Descended(e0, level, levels, done, cur, dirHash) && d in level.dirs && d !in done
    requires Subwalk(sub, level.path + [d], cur, after, dirHash)
    ensures WalkedBelow(e0, level, levels + sub, after, dirHash)
    ensures forall i :: 1 <= i < |levels + sub| ==>
      |(levels + sub)[i].path| > |level.path| && (levels + sub)[i].path[|level.path|] in done + {d}
  {
    var root := level.path;
    AppendTopDown(levels, sub, root, d);
    AppendBelow(levels, sub, root, d);
    AppendListed(e0, levels, sub, dirHash);
    AppendDistinct(levels, sub, root, d, done);
    assert (levels + sub)[0] == level;
  }

  /** Before any name is walked, the descent is `level` alone. */
  lemma {:induction false} DescendStart(e0: Entries, level: Level, cur: Entries, dirHash: Manifest -> Hash)
    requires RootExpansion(e0, level.path, dirHash) == Ok(cur) && ListsLevel(cur, level.path, level)
    ensures Descended(e0, level, [level], {}, cur, dirHash)
  {
    SingleWalked(e0, level, cur, dirHash);
  }

  lemma {:induction false} SingleWalked(e0: Entries, level: Level, cur: Entries, dirHash: Manifest -> Hash)
    requires RootExpansion(e0, level.path, dirHash) == Ok(cur) && ListsLevel(cur, level.path, level)
    ensures WalkedBelow(e0, level, [level], cur, dirHash)
  {
    var levels := [level];
    assert levels[1..] == [];
    assert ExpandAt(e0, levels, dirHash) == ExpandAt(cur, [], dirHash) == Ok(cur);
    assert levels[..1] == levels;
    assert ListedAfter(e0, levels, 0, dirHash);
    assert IsPrefix(level.path, level.path);
  }

  /** A descent that has walked every listed name is complete from its first level on. */
  lemma {:induction false} DescendedComplete(e0: Entries, level: Level, levels: seq<Level>, cur: Entries,
                                             dirHash: Manifest -> Hash)
    requires Descended(e0, level, levels, level.dirs, cur, dirHash)
    ensures CompleteFrom(levels, 0)
  {
    forall i, d | 0 <= i < |levels| && d in levels[i].dirs ensures HasLevelAt(levels, levels[i].path + [d]) {
      if i == 0 {
        assert d in level.dirs;
      }
    }
  }

  /**
   * The descent of `_walk` into each directory listed at `level`, after
   * `level` itself is yielded; `e0` is the trie before `level`'s path was expanded.
   */
  method WalkDirs(trie: Trie, level: Level, dirHash: Manifest -> Hash, ghost bound: nat, ghost e0: Entries)
    returns (levels: seq<Level>, err: Option<TreeError>)
    requires Bounded(trie.entries, bound)
    requires level.dirs != {} ==> |level.path| + 1 <= bound
    requires Descended(e0, level, [level], {}, trie.entries, dirHash)
    modifies trie
    decreases bound - |level.path|, 1
    ensures Bounded(trie.entries, bound)
    ensures WalkedBelow(e0, level, levels, trie.entries, dirHash)
    ensures err.None? ==> CompleteFrom(levels, 0)
    ensures err.Some? ==> err == Some(FileNotFound) && SomeDirRejected(e0, level.path, dirHash)
  {
    levels := [level];
    var todo := level.dirs;
    ghost var done: set<string> := {};
    while todo != {}
      invariant done == level.dirs - todo
      invariant Bounded(trie.entries, bound)
      invariant Descended(e0, level, levels, done, trie.entries, dirHash)
      decreases todo
    {
      var d :| d in todo;
      var next, subErr := DescendOne(trie, level, d, levels, done, dirHash, bound, e0);
      if subErr.Some? {
        return next, subErr;
      }
      levels := next;
      todo := todo - {d};
      done := done + {d};
    }
    DescendedComplete(e0, level, levels, trie.entries, dirHash);
    err := None;
  }

  /** One turn of the descent: `_walk` below `level.path + [d]`, appended to what is yielded so far. */
  method DescendOne(trie: Trie, level: Level, d: string, levels: seq<Level>, ghost done: set<string>,
                    dirHash: Manifest -> Hash, ghost bound: nat, ghost e0: Entries)
    returns (next: seq<Level>, err: Option<TreeError>)
    requires Bounded(trie.entries, bound) && |level.path| + 1 <= bound
    requires d in level.dirs && d !in done
    requires Descended(e0, level, levels, done, trie.entries, dirHash)
    modifies trie
    decreases bound - |level.path|, 0
    ensures Bounded(trie.entries, bound)
    ensures WalkedBelow(e0, level, next, trie.entries, dirHash)
    ensures err.None? ==> Descended(e0, level, next, done + {d}, trie.entries, dirHash)
    ensures err.Some? ==> err == Some(FileNotFound) && SomeDirRejected(e0, level.path, dirHash)
  {
    ghost var cur := trie.entries;
    ListedDirsHaveNodes(e0, level, levels, cur, dirHash);
    SubwalkFailure(e0, cur, level.path, d, dirHash);
    var sub;
    sub, err := WalkFrom(trie, level.path + [d], dirHash, bound);
    DescendStep(e0, level, levels, done, cur, d, sub, trie.entries, dirHash);
    next := levels + sub;
  }

  // ---------------------------------------------------------------------------
  // walk

  /** Stores one output under its parts and expands it when it is a directory output containing the walk root. */
  function InsertOut(e: Entries, o: Output, root: seq<string>, dirHash: Manifest -> Hash): (r: Result<Entries, TreeError>)
    ensures r.Err? <==> o.isDirChecksum && IsPrefix(o.parts, root) && FetchDir(o, dirHash).Err?
    ensures r.Ok? ==> e.Keys + {o.parts} <= r.value.Keys
  {
    var e1 := e[o.parts := Some(o)];
    if o.isDirChecksum && IsPrefix(o.parts, root) then AddDirSpec(e1, o, dirHash) else Ok(e1)
  }

  /** The trie `walk` builds from the outputs, in their order, before `_walk` starts. */
  function InitialEntries(outs: seq<Output>, root: seq<string>, dirHash: Manifest -> Hash): (r: Result<Entries, TreeError>)
    ensures r.Err? ==> r.error == FileNotFound
    decreases |outs|
  {
    if outs == [] then Ok(map[])
    else
      match InitialEntries(outs[..|outs| - 1], root, dirHash)
      case Err(x) => Err(x)
      case Ok(e) => InsertOut(e, outs[|outs| - 1], root, dirHash)
  }

  /** Every output's parts end up as a key of the trie. */
  lemma {:induction false} InitialEntriesCover(outs: seq<Output>, root: seq<string>, dirHash: Manifest -> Hash)
    requires InitialEntries(outs, root, dirHash).Ok?
    ensures forall i :: 0 <= i < |outs| ==> outs[i].parts in InitialEntries(outs, root, dirHash).value
    decreases |outs|
  {
    if outs != [] {
      var init := outs[..|outs| - 1];
      InitialEntriesCover(init, root, dirHash);
      forall i | 0 <= i < |outs| - 1 ensures outs[i].parts in InitialEntries(outs, root, dirHash).value {
        assert outs[i] == init[i];
      }
    }
  }

  /** No output lies inside another one. */
  ghost predicate NoOverlap(outs: seq<Output>)
  {
    forall i, j :: 0 <= i < |outs| && 0 <= j < |outs| && i != j ==> !IsPrefix(outs[i].parts, outs[j].parts)
  }

  /** Manifest keys name files inside the directory, so none is empty. */
  ghost predicate ManifestKeysNonEmpty(outs: seq<Output>)
  {
    forall i :: 0 <= i < |outs| && outs[i].manifest.Some? ==>
      forall mk :: mk in outs[i].manifest.value ==> |mk| > 0
  }

  lemma {:induction false} ExtensionIsBelow(base: seq<string>, mk: seq<string>)
    ensures IsPrefix(base, base + mk)
  {
    assert (base + mk)[..|base|] == base;
  }

  /** With outputs that do not overlap, the trie maps every output's parts to that output. */
  lemma {:induction false} InitialEntriesMapOutputs(outs: seq<Output>, root: seq<string>, dirHash: Manifest -> Hash)
    requires InitialEntries(outs, root, dirHash).Ok?
    requires NoOverlap(outs) && ManifestKeysNonEmpty(outs)
    ensures forall i :: 0 <= i < |outs| ==>
      outs[i].parts in InitialEntries(outs, root, dirHash).value &&
      InitialEntries(outs, root, dirHash).value[outs[i].parts] == Some(outs[i])
    decreases |outs|
  {
    if outs != [] {
      var n := |outs| - 1;
      var init := outs[..n];
      var o := outs[n];
      assert NoOverlap(init) by {
        forall i, j | 0 <= i < |init| && 0 <= j < |init| && i != j
          ensures !IsPrefix(init[i].parts, init[j].parts)
        {
          assert init[i] == outs[i] && init[j] == outs[j];
        }
      }
      assert ManifestKeysNonEmpty(init) by {
        forall i | 0 <= i < |init| && init[i].manifest.Some?
          ensures forall mk :: mk in init[i].manifest.value ==> |mk| > 0
        {
          assert init[i] == outs[i];
        }
      }
      InitialEntriesMapOutputs(init, root, dirHash);
      var e := InitialEntries(init, root, dirHash).value;
      var e1 := e[o.parts := Some(o)];
      var r := InitialEntries(outs, root, dirHash).value;
      forall i | 0 <= i < |outs|
        ensures outs[i].parts in r && r[outs[i].parts] == Some(outs[i])
      {
        var q := outs[i].parts;
        assert q in e1;
        if i < n {
          assert outs[i] == init[i];
          assert q != o.parts;
          assert e1[q] == Some(outs[i]);
        }
        if o.isDirChecksum && IsPrefix(o.parts, root) {
          if q in AddedKeys(o.parts, o.manifest.value.Keys) {
            assert false;
          }
        }
      }
    }
  }

  /** `walk`'s trie-building loop over the covering outputs. */
  method BuildTrie(outs: seq<Output>, root: seq<string>, dirHash: Manifest -> Hash)
    returns (trie: Trie, err: Option<TreeError>)
    ensures fresh(trie)
    ensures InitialEntries(outs, root, dirHash) == (if err.None? then Ok(trie.entries) else Err(err.value))
  {
    trie := new Trie();
    var i := 0;
    while i < |outs|
      invariant 0 <= i <= |outs|
      invariant InitialEntries(outs[..i], root, dirHash) == Ok(trie.entries)
    {
      var o := outs[i];
      assert outs[..i + 1][..i] == outs[..i];
      trie.Put(o.parts, Some(o));
      if o.isDirChecksum && IsPrefix(o.parts, root) {
        var e := AddDir(trie, o, dirHash);
        if e.Some? {
          assert outs[..i + 1] == outs[..i] + [o];
          InitialEntriesErrorSticks(outs, i + 1, root, dirHash);
          return trie, e;
        }
      }
      i := i + 1;
    }
    assert outs[..i] == outs;
    err := None;
  }

  /** Once building the trie fails for a prefix of the outputs, it fails with the same error for all of them. */
  lemma {:induction false} InitialEntriesErrorSticks(outs: seq<Output>, i: nat, root: seq<string>, dirHash: Manifest -> Hash)
    requires i <= |outs| && InitialEntries(outs[..i], root, dirHash).Err?
    ensures InitialEntries(outs, root, dirHash) == InitialEntries(outs[..i], root, dirHash)
    decreases |outs| - i
  {
    if i < |outs| {
      assert outs[..i + 1][..i] == outs[..i];
      InitialEntriesErrorSticks(outs, i + 1, root, dirHash);
    } else {
      assert outs[..i] == outs;
    }
  }

  ghost function MaxLen(s: set<seq<string>>): (r: nat)
    ensures forall k :: k in s ==> |k| <= r
    decreases s
  {
    if s == {} then 0
    else
      var k :| k in s;
      var rest := MaxLen(s - {k});
      if |k| > rest then |k| else rest
  }

  /** A depth no key of the walk's trie can exceed. */
  ghost function OutsBound(outs: seq<Output>): (r: nat)
    ensures forall i :: 0 <= i < |outs| ==> |outs[i].parts| <= r && ManifestBounded(outs[i], r)
    decreases |outs|
  {
    if outs == [] then 0
    else
      var o := outs[0];
      var mine := |o.parts| + (if o.manifest.Some? then MaxLen(o.manifest.value.Keys) else 0);
      var rest := OutsBound(outs[1..]);
      var r := if mine > rest then mine else rest;
      assert forall i :: 1 <= i < |outs| ==> outs[i] == outs[1..][i - 1];
      r
  }

  lemma {:induction false} InitialEntriesBounded(outs: seq<Output>, root: seq<string>, dirHash: Manifest -> Hash, bound: nat)
    requires forall i :: 0 <= i < |outs| ==> |outs[i].parts| <= bound && ManifestBounded(outs[i], bound)
    requires InitialEntries(outs, root, dirHash).Ok?
    ensures Bounded(InitialEntries(outs, root, dirHash).value, bound)
    decreases |outs|
  {
    if outs != [] {
      var init := outs[..|outs| - 1];
      var o := outs[|outs| - 1];
      assert forall i :: 0 <= i < |init| ==> init[i] == outs[i];
      InitialEntriesBounded(init, root, dirHash, bound);
      var e1 := InitialEntries(init, root, dirHash).value[o.parts := Some(o)];
      assert Bounded(e1, bound);
      if o.isDirChecksum && IsPrefix(o.parts, root) {
        AddDirBounded(e1, o, dirHash, bound);
      }
    }
  }

  /** Some directory output among `outs`, at or below `top`, has a manifest that `_fetch_dir` rejects. */
  ghost predicate OutputRejected(outs: seq<Output>, top: seq<string>, dirHash: Manifest -> Hash)
  {
    exists i :: 0 <= i < |outs| && IsPrefix(top, outs[i].parts) && outs[i].isDirChecksum && FetchDir(outs[i], dirHash).Err?
  }

  /** Building the trie fails iff a directory output containing the root has a rejected manifest. */
  lemma {:induction false} InitialEntriesRejected(outs: seq<Output>, root: seq<string>, dirHash: Manifest -> Hash)
    ensures InitialEntries(outs, root, dirHash).Err? <==>
      exists i :: 0 <= i < |outs| && outs[i].isDirChecksum && IsPrefix(outs[i].parts, root) &&
        FetchDir(outs[i], dirHash).Err?
    decreases |outs|
  {
    if outs != [] {
      var n := |outs| - 1;
      var init := outs[..n];
      InitialEntriesRejected(init, root, dirHash);
      if InitialEntries(outs, root, dirHash).Err? {
        if InitialEntries(init, root, dirHash).Err? {
          var i :| 0 <= i < |init| && init[i].isDirChecksum && IsPrefix(init[i].parts, root) &&
            FetchDir(init[i], dirHash).Err?;
          assert outs[i] == init[i];
        } else {
          assert outs[n].isDirChecksum && IsPrefix(outs[n].parts, root) && FetchDir(outs[n], dirHash).Err?;
        }
      } else {
        forall i | 0 <= i < |outs| && outs[i].isDirChecksum && IsPrefix(outs[i].parts, root)
          ensures FetchDir(outs[i], dirHash).Ok?
        {
          if i < n {
            assert outs[i] == init[i];
          }
        }
      }
    }
  }

  /** Every output stored in the entries is among `outs`, stored under its own parts. */
  ghost predicate HoldsOnly(e: Entries, outs: seq<Output>)
  {
    forall k :: k in e && e[k].Some? ==> e[k].value in outs && e[k].value.parts == k
  }

  /** The trie built for the walk holds no output but the walk's own. */
  lemma {:induction false} InitialEntriesHoldOutputs(outs: seq<Output>, root: seq<string>, dirHash: Manifest -> Hash)
    requires InitialEntries(outs, root, dirHash).Ok?
    ensures HoldsOnly(InitialEntries(outs, root, dirHash).value, outs)
    decreases |outs|
  {
    if outs != [] {
      var n := |outs| - 1;
      var init := outs[..n];
      InitialEntriesHoldOutputs(init, root, dirHash);
      var e := InitialEntries(init, root, dirHash).value;
      assert HoldsOnly(e, outs) by {
        assert forall x :: x in init ==> x in outs;
      }
      InsertOutHolds(e, outs[n], root, dirHash, outs);
    }
  }

  lemma {:induction false} InsertOutHolds(e: Entries, o: Output, root: seq<string>, dirHash: Manifest -> Hash, outs: seq<Output>)
    requires HoldsOnly(e, outs) && o in outs && InsertOut(e, o, root, dirHash).Ok?
    ensures HoldsOnly(InsertOut(e, o, root, dirHash).value, outs)
  {
    var e1 := e[o.parts := Some(o)];
    assert HoldsOnly(e1, outs);
    if o.isDirChecksum && IsPrefix(o.parts, root) {
      var r := InsertOut(e, o, root, dirHash).value;
      forall k | k in AddedKeys(o.parts, o.manifest.value.Keys) ensures k in r && r[k] == None {
        var mk :| mk in o.manifest.value.Keys && k == o.parts + mk;
      }
    }
  }

  /** A rejected directory output below the top in the built trie is one of the walk's outputs. */
  lemma {:induction false} BuiltRejected(outs: seq<Output>, root: seq<string>, dirHash: Manifest -> Hash)
    requires InitialEntries(outs, root, dirHash).Ok?
    requires SomeDirRejected(InitialEntries(outs, root, dirHash).value, root, dirHash)
    ensures OutputRejected(outs, root, dirHash)
  {
    var e := InitialEntries(outs, root, dirHash).value;
    InitialEntriesHoldOutputs(outs, root, dirHash);
    var k :| k in e && IsPrefix(root, k) && IsDirEntry(e[k]) && FetchDir(e[k].value, dirHash).Err?;
    var i :| 0 <= i < |outs| && outs[i] == e[k].value;
  }

  /**
   * `walk`: a top that `metadata` cannot find is reported as
   * `FileNotFoundError` and one that is not a directory as
   * `NotADirectoryError`, to the error callback (`reported`), and nothing is
   * yielded. Otherwise the trie is built from the covering outputs and walked
   * from the top; `raised` is what the walk raised.
   */
  method Walk(top: seq<string>, candidates: seq<Output>, metaIsDir: bool, dirHash: Manifest -> Hash)
    returns (levels: seq<Level>, reported: Option<TreeError>, raised: Option<TreeError>)
    ensures Metadata(top, candidates, metaIsDir).Err? ==>
      levels == [] && reported == Some(FileNotFound) && raised == None
    ensures Metadata(top, candidates, metaIsDir).Ok? && !Metadata(top, candidates, metaIsDir).value.isdir ==>
      levels == [] && reported == Some(NotADirectory) && raised == None
    ensures Metadata(top, candidates, metaIsDir).Ok? && Metadata(top, candidates, metaIsDir).value.isdir ==>
      reported == None && Below(levels, top) && TopDown(levels) && DistinctPaths(levels) &&
      (raised.None? ==> |levels| > 0 && CompleteFrom(levels, 0))
    ensures |levels| > 0 ==>
      var built := InitialEntries(FindOuts(candidates).value, top, dirHash);
      built.Ok? && RootExpansion(built.value, top, dirHash).Ok? &&
      ListsLevel(RootExpansion(built.value, top, dirHash).value, top, levels[0]) &&
      AllListed(built.value, levels, dirHash)
    ensures Metadata(top, candidates, metaIsDir).Ok? && Metadata(top, candidates, metaIsDir).value.isdir ==>
      var outs := FindOuts(candidates).value;
      var built := InitialEntries(outs, top, dirHash);
      && (built.Err? ==> levels == [] && raised == Some(FileNotFound))
      && (built.Ok? && !HasNode(built.value, top) ==> levels == [] && raised == Some(NoSuchPrefix))
      && (built.Ok? && HasNode(built.value, top) && RootExpansion(built.value, top, dirHash).Ok? ==> |levels| > 0)
      && (raised.Some? ==>
            || (raised == Some(FileNotFound) && built.Err?)
            || (raised == Some(FileNotFound) && built.Ok? && OutputRejected(outs, top, dirHash))
            || (raised == Some(NoSuchPrefix) && levels == [] && built.Ok? && !HasNode(built.value, top)))
  {
    var meta := Metadata(top, candidates, metaIsDir);
    if meta.Err? {
      return [], Some(FileNotFound), None;
    }
    if !meta.value.isdir {
      return [], Some(NotADirectory), None;
    }
    var outs := meta.value.outs;
    var trie, buildErr := BuildTrie(outs, top, dirHash);
    InitialEntriesRejected(outs, top, dirHash);
    if buildErr.Some? {
      return [], None, buildErr;
    }
    ghost var built := trie.entries;
    RootExpansionNode(built, top, dirHash);
    ghost var ob := OutsBound(outs);
    ghost var bound := if |top| > ob then |top| else ob;
    InitialEntriesBounded(outs, top, dirHash, bound);
    levels, raised := WalkFrom(trie, top, dirHash, bound);
    if raised == Some(FileNotFound) {
      BuiltRejected(outs, top, dirHash);
    }
    reported := None;
  }
}
