/**
 * Unix file-system paths as java.nio.file.Path treats them: a flag for a
 * leading '/' and the non-empty names between separators. This is what
 * toSourceFile and the plugin clean-up work on.
 */
module Paths {
  import opened Wrappers
  import opened Sequences

  const Slash: char := '/'

  /** A path: absolute or relative, and its name elements. The empty path has no names and is relative. */
  datatype Path = Path(absolute: bool, names: seq<string>)

  /** A name element: non-empty and free of separators. */
  predicate ValidName(n: string)
  {
    n != "" && Slash !in n
  }

  predicate ValidPath(p: Path)
  {
    forall k :: 0 <= k < |p.names| ==> ValidName(p.names[k])
  }

  /** The length of the name at the start of `s`: the characters before the first separator. */
  function NameLength(s: string): (n: nat)
    ensures n <= |s|
    ensures forall k :: 0 <= k < n ==> s[k] != Slash
    ensures n < |s| ==> s[n] == Slash
    ensures |s| > 0 && s[0] != Slash ==> n > 0
  {
    if s == [] || s[0] == Slash then 0 else 1 + NameLength(s[1..])
  }

  /** The name elements of a path string: runs of separators, leading and trailing ones included, delimit nothing. */
  function Segments(s: string): (r: seq<string>)
    ensures forall k :: 0 <= k < |r| ==> ValidName(r[k])
    decreases |s|
  {
    if s == [] then []
    else if s[0] == Slash then Segments(s[1..])
    else
      var n := NameLength(s);
      [s[..n]] + Segments(s[n..])
  }

  /** Paths.get(s) for a single string. */
  function ParsePath(s: string): (p: Path)
    ensures ValidPath(p)
  {
    Path(|s| > 0 && s[0] == Slash, Segments(s))
  }

  /** Path.toString: the names joined by separators, after one for an absolute path. */
  function PathString(p: Path): string
  {
    (if p.absolute then [Slash] else "") + Join([Slash], p.names)
  }

  /** Paths.get(first, more): the non-empty parts joined by a separator, then parsed. */
  function GetPath(first: string, more: string): Path
  {
    ParsePath(if first == "" then more else if more == "" then first else first + [Slash] + more)
  }

  /**
   * Path.getFileName: the last name; the empty path is its own file name,
   * and the root directory has none (null).
   */
  function FileName(p: Path): (r: Option<string>)
    ensures r.None? <==> p.absolute && p.names == []
    ensures p.names != [] ==> r == Some(p.names[|p.names| - 1])
  {
    if p.names == [] then (if p.absolute then None else Some("")) else Some(p.names[|p.names| - 1])
  }

  /** Path.resolve(String): an absolute argument replaces the path, otherwise its names are appended. */
  function Resolve(dir: Path, other: string): (r: Path)
    ensures other == "" ==> r == dir
  {
    var q := ParsePath(other);
    if q.absolute then q else Path(dir.absolute, dir.names + q.names)
  }

  /**
   * toSourceFile: the file inside `directory` named after the directory with
   * `ext` appended. A directory without a file name (the root) makes the
   * source dereference null; that is the failure case.
   */
  function ToSourceFile(directory: Path, ext: string): (r: Result<string, string>)
    ensures r.Failure? <==> directory.absolute && directory.names == []
  {
    match FileName(directory)
    case None => Failure("null dereference: the directory has no file name")
    case Some(fn) => Success(PathString(GetPath(PathString(directory), fn + ext)))
  }

  // ---------------------------------------------------------------------
  // Lemmas

  lemma {:induction false} NameLengthOfName(a: string, t: string)
    requires Slash !in a
    ensures NameLength(a + t) == |a| + NameLength(t)
  {
    if a != [] {
      assert (a + t)[1..] == a[1..] + t;
      assert a[0] in a;
      NameLengthOfName(a[1..], t);
    } else {
      assert a + t == t;
    }
  }

  lemma {:induction false} NameLengthOfPrefix(a: string, t: string)
    requires NameLength(a) < |a|
    ensures NameLength(a + t) == NameLength(a)
  {
    if a[0] != Slash {
      assert (a + t)[1..] == a[1..] + t;
      NameLengthOfPrefix(a[1..], t);
    }
  }

  /** A separator between two strings splits their names apart and adds none. */
  lemma {:induction false} SegmentsOfSlashJoin(a: string, b: string)
    ensures Segments(a + [Slash] + b) == Segments(a) + Segments(b)
    decreases |a|
  {
    var s := a + [Slash] + b;
    if a == [] {
      assert s[1..] == b;
    } else if a[0] == Slash {
      assert s[1..] == a[1..] + [Slash] + b;
      SegmentsOfSlashJoin(a[1..], b);
    } else {
      var n := NameLength(a);
      if n == |a| {
        SegmentsOfNameThenSlash(a, b);
      } else {
        NameLengthOfPrefix(a, [Slash] + b);
        assert s == a + ([Slash] + b);
        assert s[..n] == a[..n] && s[n..] == a[n..] + [Slash] + b;
        SegmentsOfSlashJoin(a[n..], b);
      }
    }
  }

  /** A name followed by a separator: the name, then the names after the separator. */
  lemma SegmentsOfNameThenSlash(a: string, b: string)
    requires ValidName(a)
    ensures Segments(a + [Slash] + b) == Segments(a) + Segments(b)
  {
    var s := a + [Slash] + b;
    var n := |a|;
    assert s == a + ([Slash] + b);
    NameLengthOfName(a, [Slash] + b);
    assert s[..n] == a && s[n..] == [Slash] + b;
    assert ([Slash] + b)[1..] == b;
    assert Segments(s) == [a] + Segments([Slash] + b);
    SegmentsOfName(a);
  }

  lemma SegmentsOfName(n: string)
    requires ValidName(n)
    ensures Segments(n) == [n]
  {
    NameLengthOfName(n, []);
    assert n + [] == n;
    assert n[|n|..] == [];
  }

  lemma {:induction false} SegmentsOfJoin(names: seq<string>)
    requires forall k :: 0 <= k < |names| ==> ValidName(names[k])
    ensures Segments(Join([Slash], names)) == names
  {
    if |names| == 1 {
      SegmentsOfName(names[0]);
    } else if |names| > 1 {
      SegmentsOfName(names[0]);
      SegmentsOfJoin(names[1..]);
      SegmentsOfSlashJoin(names[0], Join([Slash], names[1..]));
    }
  }

  /** The first character of a joined, non-empty list of names is that of the first name. */
  lemma JoinStart(names: seq<string>)
    requires |names| > 0 && ValidName(names[0])
    ensures |Join([Slash], names)| > 0 && Join([Slash], names)[0] == names[0][0]
  {
  }

  /** Parsing a path's string gives the path back. */
  lemma ParsePathString(p: Path)
    requires ValidPath(p)
    ensures ParsePath(PathString(p)) == p
  {
    var j := Join([Slash], p.names);
    SegmentsOfJoin(p.names);
    if p.absolute {
      assert PathString(p)[1..] == j;
    } else if p.names != [] {
      assert PathString(p) == j;
      JoinStart(p.names);
      assert p.names[0][0] in p.names[0];
    }
  }

  /**
   * For a directory with a name, toSourceFile names the file after the
   * directory and places it inside it: the directory's names, then its last
   * name with the extension.
   */
  lemma ToSourceFileInDirectory(directory: Path, ext: string)
    requires ValidPath(directory) && directory.names != []
    requires Slash !in ext
    ensures var last := directory.names[|directory.names| - 1];
      var file := Path(directory.absolute, directory.names + [last + ext]);
      ToSourceFile(directory, ext) == Success(PathString(file))
      && ParsePath(PathString(file)) == file
      && FileName(file) == Some(last + ext)
  {
    var last := directory.names[|directory.names| - 1];
    var d := PathString(directory);
    var m := last + ext;
    assert Slash !in m;
    ParsePathString(directory);
    SegmentsOfName(m);
    SegmentsOfSlashJoin(d, m);
    if !directory.absolute {
      JoinStart(directory.names);
    }
    assert GetPath(d, m) == ParsePath(d + [Slash] + m);
    assert (d + [Slash] + m)[0] == d[0];
    var file := Path(directory.absolute, directory.names + [last + ext]);
    assert GetPath(d, m) == file;
    ParsePathString(file);
  }
}
