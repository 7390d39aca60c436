/**
 * Path splitting and basename for the two path flavours `Path("/")` (posix)
 * and `Path("\\")` (nt). A path is split into its segments, the maximal runs
 * of non-separator characters; an absolute path keeps its root separator as a
 * leading element and an nt path keeps its drive ("c:") in front of that.
 */
module FsPath {

  datatype Flavour = Posix | Nt

  function Sep(f: Flavour): char
  {
    if f.Posix? then '/' else '\\'
  }

  predicate NoSep(w: string, sep: char)
  {
    forall i :: 0 <= i < |w| ==> w[i] != sep
  }

  /** A segment list as produced by a split: no empty word, no separator inside a word. */
  predicate WellFormed(segs: seq<string>, sep: char)
  {
    forall i :: 0 <= i < |segs| ==> |segs[i]| > 0 && NoSep(segs[i], sep)
  }

  /** Splits `s` on `sep` and drops empty pieces; `cur` is the word read so far. */
  function SegmentsFrom(s: string, sep: char, cur: string): seq<string>
    decreases |s|
  {
    if s == [] then
      (if cur == [] then [] else [cur])
    else if s[0] == sep then
      (if cur == [] then [] else [cur]) + SegmentsFrom(s[1..], sep, [])
    else
      SegmentsFrom(s[1..], sep, cur + [s[0]])
  }

  function Segments(s: string, sep: char): seq<string>
  {
    SegmentsFrom(s, sep, [])
  }

  /** Joins words with one separator between neighbours. */
  function Join(segs: seq<string>, sep: char): string
    decreases |segs|
  {
    if segs == [] then []
    else if |segs| == 1 then segs[0]
    else segs[0] + [sep] + Join(segs[1..], sep)
  }

  /** `ntpath.splitdrive` for drive letters: a leading "X:" is the drive. */
  function SplitDrive(f: Flavour, p: string): (r: (string, string))
    ensures r.0 + r.1 == p
    ensures r.0 != [] <==> f.Nt? && |p| >= 2 && p[1] == ':'
    ensures r.0 != [] ==> |r.0| == 2 && r.0[1] == ':'
  {
    if f.Nt? && |p| >= 2 && p[1] == ':' then (p[..2], p[2..]) else ([], p)
  }

  /** `Path(sep).parts(p)`: only the empty path has no parts, and no part is empty. */
  function Parts(f: Flavour, p: string): (r: seq<string>)
    ensures r == [] <==> p == []
    ensures forall i :: 0 <= i < |r| ==> |r[i]| > 0
  {
    var (drive, rest) := SplitDrive(f, p);
    SegmentsWellFormed(rest, Sep(f));
    SegmentsOfWordStart(rest, Sep(f));
    (if drive != [] then [drive] else [])
    + (if |rest| > 0 && rest[0] == Sep(f) then [[Sep(f)]] else [])
    + Segments(rest, Sep(f))
  }

  /** `Path(sep).name(p)`: the last segment after the drive, or "" when there is none; a name holds no separator. */
  function Name(f: Flavour, p: string): (r: string)
    ensures NoSep(r, Sep(f))
  {
    var segs := Segments(SplitDrive(f, p).1, Sep(f));
    SegmentsWellFormed(SplitDrive(f, p).1, Sep(f));
    if segs == [] then "" else segs[|segs| - 1]
  }

  // ---------------------------------------------------------------------------
  // Properties of splitting

  lemma {:induction false} SegmentsFromWellFormed(s: string, sep: char, cur: string)
    requires NoSep(cur, sep)
    ensures WellFormed(SegmentsFrom(s, sep, cur), sep)
    decreases |s|
  {
    if s == [] {
    } else if s[0] == sep {
      SegmentsFromWellFormed(s[1..], sep, []);
    } else {
      SegmentsFromWellFormed(s[1..], sep, cur + [s[0]]);
    }
  }

  /** A word already begun is never lost. */
  lemma {:induction false} SegmentsFromNonEmpty(s: string, sep: char, cur: string)
    requires cur != []
    ensures SegmentsFrom(s, sep, cur) != []
    decreases |s|
  {
    if s != [] && s[0] != sep {
      SegmentsFromNonEmpty(s[1..], sep, cur + [s[0]]);
    }
  }

  /** A string that starts with a character other than the separator has a segment. */
  lemma SegmentsOfWordStart(s: string, sep: char)
    ensures |s| > 0 && s[0] != sep ==> Segments(s, sep) != []
  {
    if |s| > 0 && s[0] != sep {
      assert [] + [s[0]] == [s[0]];
      SegmentsFromNonEmpty(s[1..], sep, [s[0]]);
    }
  }

  /** Every segment a split produces is a non-empty word without separator. */
  lemma SegmentsWellFormed(s: string, sep: char)
    ensures WellFormed(Segments(s, sep), sep)
  {
    SegmentsFromWellFormed(s, sep, []);
  }

  /** A separator cuts the input into two independently split halves. */
  lemma {:induction false} SegmentsFromSplitAt(x: string, y: string, sep: char, cur: string)
    ensures SegmentsFrom(x + [sep] + y, sep, cur)
         == SegmentsFrom(x, sep, cur) + SegmentsFrom(y, sep, [])
    decreases |x|
  {
    if x == [] {
      assert x + [sep] + y == [sep] + y;
      assert ([sep] + y)[1..] == y;
    } else {
      assert (x + [sep] + y)[0] == x[0];
      assert (x + [sep] + y)[1..] == x[1..] + [sep] + y;
      if x[0] == sep {
        SegmentsFromSplitAt(x[1..], y, sep, []);
      } else {
        SegmentsFromSplitAt(x[1..], y, sep, cur + [x[0]]);
      }
    }
  }

  lemma SegmentsSplitAt(x: string, y: string, sep: char)
    ensures Segments(x + [sep] + y, sep) == Segments(x, sep) + Segments(y, sep)
  {
    SegmentsFromSplitAt(x, y, sep, []);
  }

  /** A word without separator is read whole. */
  lemma {:induction false} SegmentsFromWord(w: string, sep: char, cur: string)
    requires NoSep(w, sep)
    requires |cur + w| > 0
    ensures SegmentsFrom(w, sep, cur) == [cur + w]
    decreases |w|
  {
    if w == [] {
      assert cur + w == cur;
    } else {
      assert cur + [w[0]] + w[1..] == cur + w;
      SegmentsFromWord(w[1..], sep, cur + [w[0]]);
    }
  }

  /** Splitting undoes joining: a well-formed segment list survives `Join` then `Segments`. */
  lemma {:induction false} SegmentsOfJoin(segs: seq<string>, sep: char)
    requires WellFormed(segs, sep)
    ensures Segments(Join(segs, sep), sep) == segs
    decreases |segs|
  {
    if segs == [] {
    } else if |segs| == 1 {
      SegmentsFromWord(segs[0], sep, []);
      assert [] + segs[0] == segs[0];
    } else {
      SegmentsSplitAt(segs[0], Join(segs[1..], sep), sep);
      SegmentsFromWord(segs[0], sep, []);
      assert [] + segs[0] == segs[0];
      SegmentsOfJoin(segs[1..], sep);
      assert segs == [segs[0]] + segs[1..];
    }
  }

  /** One trailing separator never changes the segments. */
  lemma TrailingSepIgnored(s: string, sep: char)
    ensures Segments(s + [sep], sep) == Segments(s, sep)
  {
    SegmentsSplitAt(s, [], sep);
    assert s + [sep] + [] == s + [sep];
  }

  // ---------------------------------------------------------------------------
  // Properties of parts and name

  /** Appending never moves the drive, as long as the appended text cannot complete a drive "X:". */
  lemma SplitDriveAppend(f: Flavour, p: string, t: string)
    requires |p| >= 2 || |p + t| < 2 || (|p| == 1 && t[0] != ':') || (|p| == 0 && t[1] != ':')
    ensures SplitDrive(f, p + t) == (SplitDrive(f, p).0, SplitDrive(f, p).1 + t)
  {
    var q := p + t;
    if |p| >= 2 {
      assert q[1] == p[1];
      if f.Nt? && p[1] == ':' {
        assert q[..2] == p[..2];
        assert q[2..] == p[2..] + t;
      }
    } else if |q| >= 2 {
      assert q[1] != ':';
    }
  }

  /** Words joined by `sep`, optionally preceded and followed by one `sep`. */
  function Framed(sep: char, leading: bool, segs: seq<string>, trailing: bool): string
  {
    (if leading then [sep] else []) + Join(segs, sep) + (if trailing then [sep] else [])
  }

  /** A path built from well-formed words, with an optional leading and trailing separator, splits back into those words. */
  lemma SegmentsOfPath(sep: char, leading: bool, segs: seq<string>, trailing: bool)
    requires WellFormed(segs, sep)
    ensures Segments(Framed(sep, leading, segs, trailing), sep) == segs
  {
    var j := Join(segs, sep);
    SegmentsOfJoin(segs, sep);
    var t := j + (if trailing then [sep] else []);
    if trailing {
      TrailingSepIgnored(j, sep);
    } else {
      assert t == j;
    }
    assert Segments(t, sep) == segs;
    if leading {
      assert [sep] + j + (if trailing then [sep] else []) == [] + [sep] + t;
      SegmentsSplitAt([], t, sep);
    } else {
      assert [] + j + (if trailing then [sep] else []) == t;
    }
  }

  lemma {:induction false} JoinStartsWith(segs: seq<string>, sep: char)
    requires |segs| > 0 && |segs[0]| > 0
    ensures |Join(segs, sep)| > 0 && Join(segs, sep)[0] == segs[0][0]
  {
  }

  predicate NoDriveAt(p: string)
  {
    |p| < 2 || p[1] != ':'
  }

  /** A relative posix path splits into exactly the words it was joined from, with or without a trailing "/". */
  lemma PartsPosixRelative(segs: seq<string>, trailing: bool)
    requires |segs| > 0 && WellFormed(segs, '/')
    ensures Parts(Posix, Framed('/', false, segs, trailing)) == segs
  {
    var p := Framed('/', false, segs, trailing);
    SegmentsOfPath('/', false, segs, trailing);
    JoinStartsWith(segs, '/');
    assert p[0] == segs[0][0];
  }

  /** An absolute posix path has the root "/" as first part, then its words. */
  lemma PartsPosixAbsolute(segs: seq<string>, trailing: bool)
    requires WellFormed(segs, '/')
    ensures Parts(Posix, Framed('/', true, segs, trailing)) == ["/"] + segs
  {
    var p := Framed('/', true, segs, trailing);
    SegmentsOfPath('/', true, segs, trailing);
    assert p[0] == '/';
  }

  /** A relative nt path without a drive splits like a posix one, on "\\". */
  lemma PartsNtRelative(segs: seq<string>, trailing: bool)
    requires |segs| > 0 && WellFormed(segs, '\\')
    requires NoDriveAt(Framed('\\', false, segs, trailing))
    ensures Parts(Nt, Framed('\\', false, segs, trailing)) == segs
  {
    var p := Framed('\\', false, segs, trailing);
    SegmentsOfPath('\\', false, segs, trailing);
    JoinStartsWith(segs, '\\');
    assert p[0] == segs[0][0];
  }

  /** An nt path with a drive keeps the drive and the root as two leading parts. */
  lemma PartsNtDrive(letter: char, segs: seq<string>, trailing: bool)
    requires WellFormed(segs, '\\')
    ensures Parts(Nt, [letter, ':'] + Framed('\\', true, segs, trailing)) == [[letter, ':'], "\\"] + segs
  {
    var rest := Framed('\\', true, segs, trailing);
    RestAfterDrive(Nt, [letter, ':'], rest);
    var p := [letter, ':'] + rest;
    assert p[..2] == [letter, ':'];
    SegmentsOfPath('\\', true, segs, trailing);
    assert rest[0] == '\\';
  }

  /** A child path adds exactly one part. */
  lemma PartsOfChild(f: Flavour, p: string, child: string)
    requires |SplitDrive(f, p).1| > 0
    requires |child| > 0 && NoSep(child, Sep(f))
    ensures Parts(f, p + [Sep(f)] + child) == Parts(f, p) + [child]
  {
    var (drive, rest) := SplitDrive(f, p);
    assert |p| >= 1;
    assert p + [Sep(f)] + child == p + ([Sep(f)] + child);
    SplitDriveAppend(f, p, [Sep(f)] + child);
    assert rest + ([Sep(f)] + child) == rest + [Sep(f)] + child;
    SegmentsSplitAt(rest, child, Sep(f));
    SegmentsFromWord(child, Sep(f), []);
    assert [] + child == child;
  }

  /** `name` is the last part whenever the path has a segment after its root and drive. */
  lemma NameIsLastPart(f: Flavour, p: string)
    requires Segments(SplitDrive(f, p).1, Sep(f)) != []
    ensures |Parts(f, p)| > 0 && Name(f, p) == Parts(f, p)[|Parts(f, p)| - 1]
  {
  }

  /** One trailing separator never changes `name`. */
  lemma NameIgnoresTrailingSep(f: Flavour, p: string)
    ensures Name(f, p + [Sep(f)]) == Name(f, p)
  {
    var (drive, rest) := SplitDrive(f, p);
    SplitDriveAppend(f, p, [Sep(f)]);
    TrailingSepIgnored(rest, Sep(f));
  }

  /** The name of a path built from well-formed words is its last word. */
  lemma NameOfPath(f: Flavour, drive: string, leading: bool, segs: seq<string>, trailing: bool)
    requires drive == [] || (f.Nt? && |drive| == 2 && drive[1] == ':')
    requires f.Nt? && drive == [] ==> NoDriveAt(Framed(Sep(f), leading, segs, trailing))
    requires WellFormed(segs, Sep(f))
    ensures Name(f, drive + Framed(Sep(f), leading, segs, trailing)) == if segs == [] then "" else segs[|segs| - 1]
  {
    var rest := Framed(Sep(f), leading, segs, trailing);
    SegmentsOfPath(Sep(f), leading, segs, trailing);
    RestAfterDrive(f, drive, rest);
  }

  lemma RestAfterDrive(f: Flavour, drive: string, rest: string)
    requires drive == [] || (f.Nt? && |drive| == 2 && drive[1] == ':')
    requires f.Nt? && drive == [] ==> NoDriveAt(rest)
    ensures SplitDrive(f, drive + rest).1 == rest
  {
    var p := drive + rest;
    if drive != [] {
      assert p[1] == ':';
      assert p[2..] == rest;
    } else {
      assert p == rest;
    }
  }

  /** posix `parts` of "path", with and without a trailing "/". */
  lemma PosixPartsOfWord()
    ensures Parts(Posix, "path") == ["path"] && Parts(Posix, "path/") == ["path"]
  {
    var one := ["path"];
    assert WellFormed(one, '/');
    assert Framed('/', false, one, false) == "path";
    assert Framed('/', false, one, true) == "path/";
    PartsPosixRelative(one, false);
    PartsPosixRelative(one, true);
  }

  /** posix `parts` of "some/path", with and without a trailing "/". */
  lemma PosixPartsOfRelative()
    ensures Parts(Posix, "some/path") == ["some", "path"] && Parts(Posix, "some/path/") == ["some", "path"]
  {
    var two := ["some", "path"];
    assert Join(two[1..], '/') == "path";
    assert Join(two, '/') == "some/path";
    assert WellFormed(two, '/');
    assert Framed('/', false, two, false) == "some/path";
    assert Framed('/', false, two, true) == "some/path/";
    PartsPosixRelative(two, false);
    PartsPosixRelative(two, true);
  }

  /** posix `parts` of "/path": the root comes first. */
  lemma PosixPartsOfRootedWord()
    ensures Parts(Posix, "/path") == ["/", "path"] && Parts(Posix, "/path/") == ["/", "path"]
  {
    var one := ["path"];
    assert WellFormed(one, '/');
    assert Framed('/', true, one, false) == "/path";
    assert Framed('/', true, one, true) == "/path/";
    PartsPosixAbsolute(one, false);
    PartsPosixAbsolute(one, true);
  }

  /** posix `parts` of "/some/path": the root comes first. */
  lemma PosixPartsOfAbsolute()
    ensures Parts(Posix, "/some/path") == ["/", "some", "path"] && Parts(Posix, "/some/path/") == ["/", "some", "path"]
  {
    var two := ["some", "path"];
    assert Join(two[1..], '/') == "path";
    assert Join(two, '/') == "some/path";
    assert WellFormed(two, '/');
    assert Framed('/', true, two, false) == "/some/path";
    assert Framed('/', true, two, true) == "/some/path/";
    PartsPosixAbsolute(two, false);
    PartsPosixAbsolute(two, true);
  }

  /** nt `parts` of "path", with and without a trailing "\\". */
  lemma NtPartsOfWord()
    ensures Parts(Nt, "path") == ["path"] && Parts(Nt, "path\\") == ["path"]
  {
    var one := ["path"];
    assert Join(one, '\\') == "path";
    assert WellFormed(one, '\\');
    assert Framed('\\', false, one, false) == "path";
    assert Framed('\\', false, one, true) == "path\\";
    PartsNtRelative(one, false);
    PartsNtRelative(one, true);
  }

  /** nt `parts` of "some\\path", with and without a trailing "\\". */
  lemma NtPartsOfRelative()
    ensures Parts(Nt, "some\\path") == ["some", "path"] && Parts(Nt, "some\\path\\") == ["some", "path"]
  {
    var two := ["some", "path"];
    assert Join(two[1..], '\\') == "path";
    assert Join(two, '\\') == "some\\path";
    assert WellFormed(two, '\\');
    assert Framed('\\', false, two, false) == "some\\path";
    assert Framed('\\', false, two, true) == "some\\path\\";
    PartsNtRelative(two, false);
    PartsNtRelative(two, true);
  }

  /** nt `parts` of "c:\\path": drive and root are separate leading parts. */
  lemma NtPartsOfDrivePath()
    ensures Parts(Nt, "c:\\path") == ["c:", "\\", "path"] && Parts(Nt, "c:\\path\\") == ["c:", "\\", "path"]
  {
    var one := ["path"];
    assert Join(one, '\\') == "path";
    assert WellFormed(one, '\\');
    assert "c:" + Framed('\\', true, one, false) == "c:\\path";
    assert "c:" + Framed('\\', true, one, true) == "c:\\path\\";
    PartsNtDrive('c', one, false);
    PartsNtDrive('c', one, true);
  }

  /** posix `name` of "" and "/" is "". */
  lemma PosixNameOfEmpty()
    ensures Name(Posix, "") == "" && Name(Posix, "/") == ""
  {
    assert WellFormed([], '/');
    assert [] + Framed('/', false, [], false) == "";
    assert [] + Framed('/', false, [], true) == "/";
    NameOfPath(Posix, [], false, [], false);
    NameOfPath(Posix, [], false, [], true);
  }

  /** posix `name` of "/file", with and without a trailing "/". */
  lemma PosixNameOfRootedWord()
    ensures Name(Posix, "/file") == "file" && Name(Posix, "/file/") == "file"
  {
    var file := ["file"];
    assert WellFormed(file, '/');
    assert [] + Framed('/', true, file, false) == "/file";
    assert [] + Framed('/', true, file, true) == "/file/";
    NameOfPath(Posix, [], true, file, false);
    NameOfPath(Posix, [], true, file, true);
  }

  /** posix `name` of "/path/to/file", with and without a trailing "/". */
  lemma PosixNameOfAbsolute()
    ensures Name(Posix, "/path/to/file") == "file" && Name(Posix, "/path/to/file/") == "file"
  {
    var deep := ["path", "to", "file"];
    assert Join(deep[1..][1..], '/') == "file";
    assert Join(deep[1..], '/') == "to/file";
    assert Join(deep, '/') == "path/to/file";
    assert WellFormed(deep, '/');
    assert [] + Framed('/', true, deep, false) == "/path/to/file";
    assert [] + Framed('/', true, deep, true) == "/path/to/file/";
    NameOfPath(Posix, [], true, deep, false);
    NameOfPath(Posix, [], true, deep, true);
  }

  /** posix `name` of "." and ".." is the input, with and without a trailing "/". */
  lemma PosixNameOfDots()
    ensures Name(Posix, ".") == "." && Name(Posix, "./") == "."
    ensures Name(Posix, "..") == ".." && Name(Posix, "../") == ".."
  {
    var dot, dotdot := ["."], [".."];
    assert WellFormed(dot, '/') && WellFormed(dotdot, '/');
    assert [] + Framed('/', false, dot, false) == ".";
    assert [] + Framed('/', false, dot, true) == "./";
    assert [] + Framed('/', false, dotdot, false) == "..";
    assert [] + Framed('/', false, dotdot, true) == "../";
    NameOfPath(Posix, [], false, dot, false);
    NameOfPath(Posix, [], false, dot, true);
    NameOfPath(Posix, [], false, dotdot, false);
    NameOfPath(Posix, [], false, dotdot, true);
  }

  /** nt `name` of "" and "\\" is "". */
  lemma NtNameOfEmpty()
    ensures Name(Nt, "") == "" && Name(Nt, "\\") == ""
  {
    assert WellFormed([], '\\');
    assert [] + Framed('\\', false, [], false) == "";
    assert [] + Framed('\\', false, [], true) == "\\";
    NameOfPath(Nt, [], false, [], false);
    NameOfPath(Nt, [], false, [], true);
  }

  /** nt `name` of "path", with and without a trailing "\\". */
  lemma NtNameOfWord()
    ensures Name(Nt, "path") == "path" && Name(Nt, "path\\") == "path"
  {
    var path := ["path"];
    assert WellFormed(path, '\\');
    assert [] + Framed('\\', false, path, false) == "path";
    assert [] + Framed('\\', false, path, true) == "path\\";
    NameOfPath(Nt, [], false, path, false);
    NameOfPath(Nt, [], false, path, true);
  }

  /** nt `name` of "some\\path" drops the directory. */
  lemma NtNameOfRelative()
    ensures Name(Nt, "some\\path") == "path" && Name(Nt, "some\\path\\") == "path"
  {
    var two := ["some", "path"];
    assert Join(two[1..], '\\') == "path";
    assert Join(two, '\\') == "some\\path";
    assert WellFormed(two, '\\');
    assert [] + Framed('\\', false, two, false) == "some\\path";
    assert [] + Framed('\\', false, two, true) == "some\\path\\";
    NameOfPath(Nt, [], false, two, false);
    NameOfPath(Nt, [], false, two, true);
  }

  /** nt `name` of "c:\\file" drops the drive. */
  lemma NtNameOfDriveWord()
    ensures Name(Nt, "c:\\file") == "file" && Name(Nt, "c:\\file\\") == "file"
  {
    var file := ["file"];
    assert WellFormed(file, '\\');
    assert "c:" + Framed('\\', true, file, false) == "c:\\file";
    assert "c:" + Framed('\\', true, file, true) == "c:\\file\\";
    NameOfPath(Nt, "c:", true, file, false);
    NameOfPath(Nt, "c:", true, file, true);
  }

  /** nt `name` of "c:\\path\\to\\file" drops the drive and the directories. */
  lemma NtNameOfDrivePath()
    ensures Name(Nt, "c:\\path\\to\\file") == "file" && Name(Nt, "c:\\path\\to\\file\\") == "file"
  {
    var deep := ["path", "to", "file"];
    assert Join(deep[1..][1..], '\\') == "file";
    assert Join(deep[1..], '\\') == "to\\file";
    assert Join(deep, '\\') == "path\\to\\file";
    assert WellFormed(deep, '\\');
    assert "c:" + Framed('\\', true, deep, false) == "c:\\path\\to\\file";
    assert "c:" + Framed('\\', true, deep, true) == "c:\\path\\to\\file\\";
    NameOfPath(Nt, "c:", true, deep, false);
    NameOfPath(Nt, "c:", true, deep, true);
  }
}
