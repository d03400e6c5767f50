/**
 * Two helpers of fhirpath_helpers/helpers.py: `resolve_path`, which resolves a path
 * string against a parent directory segment by segment, and the filename picker of
 * `download`, which reads a `Content-Disposition` header.
 */
module Helpers {
  import opened Results
  import opened Text

  /**
   * A lexical path: its anchor (`"/"` for an absolute path, `""` for a relative one) and
   * its components.
   */
  datatype Path = Path(anchor: string, parts: seq<string>)

  /** `p.parent`: the last component dropped; a path without components is its own parent. */
  function Parent(p: Path): (r: Path)
    ensures r.anchor == p.anchor
    ensures p.parts == [] ==> r == p
    ensures p.parts != [] ==> r.parts + [p.parts[|p.parts| - 1]] == p.parts
  {
    if p.parts == [] then p else Path(p.anchor, p.parts[..|p.parts| - 1])
  }

  /** `p / name` for a name without separator. */
  function Child(p: Path, name: string): (r: Path)
    ensures r.anchor == p.anchor && |r.parts| == |p.parts| + 1 && r.parts[|p.parts|] == name
  {
    Path(p.anchor, p.parts + [name])
  }

  /** Going down one component and back up returns to where it started. */
  lemma ParentOfChild(p: Path, name: string)
    ensures Parent(Child(p, name)) == p
  {
    assert (p.parts + [name])[..|p.parts|] == p.parts;
  }

  /**
   * The operating-system calls `resolve_path` makes, as values: `os.path.isabs`,
   * `os.path.expanduser`, `pathlib.Path(...)` on a string, and `os.getcwd()`. The
   * separator is `/`.
   */
  datatype OsEnv = OsEnv(isAbs: string -> bool, expandUser: string -> string, toPath: string -> Path, cwd: string)

  const Sep: char := '/'

  /** A segment that leaves the path as it is. */
  predicate Skipped(seg: string) {
    seg == "" || seg == "."
  }

  /** One segment of the walk: skip `""` and `.`, go up on `..`, go down otherwise. */
  function Step(me: Path, seg: string): Path
  {
    if Skipped(seg) then me
    else if seg == ".." then Parent(me)
    else Child(me, seg)
  }

  /** The walk of `resolve_path` over the segments, left to right. */
  function Walk(me: Path, segs: seq<string>): Path
    decreases |segs|
  {
    if segs == [] then me else Walk(Step(me, segs[0]), segs[1..])
  }

  /** The segments that add a component, in order. */
  function Named(segs: seq<string>): (r: seq<string>)
    ensures |r| <= |segs|
    ensures forall x :: x in r <==> x in segs && !Skipped(x)
  {
    if segs == [] then []
    else
      assert forall x :: x in segs <==> x == segs[0] || x in segs[1..];
      (if Skipped(segs[0]) then [] else [segs[0]]) + Named(segs[1..])
  }

  /** The directory a relative path is resolved against: `parent`, or the working directory. */
  function Base(parent: Option<Path>, env: OsEnv): Path
  {
    if parent.Some? then parent.value else env.toPath(env.cwd)
  }

  /** Walking a concatenation walks one part, then the other. */
  lemma {:induction false} WalkAppend(me: Path, a: seq<string>, b: seq<string>)
    ensures Walk(me, a + b) == Walk(Walk(me, a), b)
    decreases |a|
  {
    if a == [] {
      assert a + b == b;
    } else {
      assert (a + b)[0] == a[0] && (a + b)[1..] == a[1..] + b;
      WalkAppend(Step(me, a[0]), a[1..], b);
    }
  }

  /** The walk from position `i` takes one step, then walks the rest. */
  lemma WalkOne(me: Path, segs: seq<string>, i: nat)
    requires i < |segs|
    ensures Walk(me, segs[i..]) == Walk(Step(me, segs[i]), segs[i + 1..])
  {
    assert segs[i..][0] == segs[i] && segs[i..][1..] == segs[i + 1..];
  }

  /** Segments that are all empty or `.` leave the path unchanged. */
  lemma {:induction false} WalkSkipped(me: Path, segs: seq<string>)
    requires forall i :: 0 <= i < |segs| ==> Skipped(segs[i])
    ensures Walk(me, segs) == me
    decreases |segs|
  {
    if segs != [] {
      assert forall i :: 1 <= i < |segs| ==> segs[1..][i - 1] == segs[i];
      WalkSkipped(me, segs[1..]);
    }
  }

  /**
   * Without `..`, the walk keeps the anchor and appends the non-empty, non-`.` segments
   * in order, so the component count grows by exactly their number.
   */
  lemma {:induction false} WalkWithoutUp(me: Path, segs: seq<string>)
    requires forall i :: 0 <= i < |segs| ==> segs[i] != ".."
    ensures Walk(me, segs) == Path(me.anchor, me.parts + Named(segs))
    ensures |Walk(me, segs).parts| == |me.parts| + |Named(segs)|
    decreases |segs|
  {
    if segs != [] {
      assert forall i :: 1 <= i < |segs| ==> segs[1..][i - 1] == segs[i];
      WalkWithoutUp(Step(me, segs[0]), segs[1..]);
      if !Skipped(segs[0]) {
        assert me.parts + [segs[0]] + Named(segs[1..]) == me.parts + ([segs[0]] + Named(segs[1..]));
      } else {
        assert [] + Named(segs[1..]) == Named(segs[1..]);
      }
    }
  }

  /** A `..` segment takes the path to its parent before the walk goes on. */
  lemma WalkUp(me: Path, before: seq<string>, after: seq<string>)
    ensures Walk(me, before + [".."] + after) == Walk(Parent(Walk(me, before)), after)
  {
    WalkAppend(me, before + [".."], after);
    WalkAppend(me, before, [".."]);
  }

  /**
   * `resolve_path`: an absolute path is taken as it is and a `~` path is user-expanded,
   * whatever the parent; otherwise the segments of the path are walked from the parent
   * or from the working directory.
   */
  method ResolvePath(s: string, parent: Option<Path>, env: OsEnv) returns (r: Path)
    ensures env.isAbs(s) ==> r == env.toPath(s)
    ensures !env.isAbs(s) && StartsWith(s, "~") ==> r == env.toPath(env.expandUser(s))
    ensures !env.isAbs(s) && !StartsWith(s, "~") ==> r == Walk(Base(parent, env), Split(s, Sep))
  {
    if env.isAbs(s) {
      return env.toPath(s);
    } else if StartsWith(s, "~") {
      return env.toPath(env.expandUser(s));
    }
    var base := if parent.None? then env.toPath(env.cwd) else parent.value;
    if s == "." {
      assert Split(s, Sep) == ["."] by {
        assert s[1..] == [] && Split(s[1..], Sep) == [""];
        assert [s[0]] + "" == s;
      }
      return base;
    }
    var me := base;
    var segs := Split(s, Sep);
    for i := 0 to |segs|
      invariant Walk(base, segs) == Walk(me, segs[i..])
    {
      var part := segs[i];
      WalkOne(me, segs, i);
      if part == "" {
        continue;
      }
      if part == "." {
        continue;
      } else if part == ".." {
        me := Parent(me);
      } else {
        me := Child(me, part);
      }
    }
    r := me;
  }

  /** `resolve_path(".", parent)` and any relative path of empty and `.` segments give the parent back. */
  lemma RelativeSkippedIsParent(s: string, parent: Path, env: OsEnv)
    requires !env.isAbs(s) && !StartsWith(s, "~")
    requires forall i :: 0 <= i < |Split(s, Sep)| ==> Skipped(Split(s, Sep)[i])
    ensures Walk(Base(Some(parent), env), Split(s, Sep)) == parent
  {
    WalkSkipped(parent, Split(s, Sep));
  }

  // ---------------------------------------------------------------------------
  // The filename picker of `download`

  /** `pathlib.Path(p).name`: the last component of `p`, or `""` when it has none. */
  function NameOf(p: string): string
  {
    var named := Named(Split(p, Sep));
    if named == [] then "" else named[|named| - 1]
  }

  /** The name has no `/`, is not `.`, and is empty or one of the path's segments. */
  lemma NameOfComponent(p: string)
    ensures Sep !in NameOf(p) && NameOf(p) != "."
    ensures NameOf(p) == "" || NameOf(p) in Split(p, Sep)
  {
    var segs := Split(p, Sep);
    var named := Named(segs);
    if named != [] {
      var r := named[|named| - 1];
      assert r in named;
      assert r in segs && !Skipped(r);
      var i :| 0 <= i < |segs| && segs[i] == r;
    }
  }

  /** `filename_from_url(url)`, given the path component of the URL. */
  function FileNameFromUrl(urlPath: string): string
  {
    NameOf(urlPath)
  }

  /** `p.lower().startswith("filename")` */
  predicate StartsWithFilename(p: string) {
    LowerStartsWith(p, "filename")
  }

  /** The part decides the filename: stripped, it starts with `filename` in any case. */
  predicate NamesFile(part: string) {
    StartsWithFilename(Strip(part))
  }

  /** The stripped text after the first `=` of a deciding part; IndexError without `=`. */
  function FileNameIn(part: string): Result<string>
  {
    var p := Strip(part);
    if '=' in p then Success(Strip(p[IndexOf(p, '=') + 1..])) else Failure(IndexError)
  }

  /** IndexError exactly when the stripped part has no `=`; otherwise a stripped value. */
  lemma FileNameInCases(part: string)
    ensures FileNameIn(part).Failure? <==> '=' !in Strip(part)
    ensures FileNameIn(part).Failure? ==> FileNameIn(part).error == IndexError
    ensures var r := FileNameIn(part);
      r.Success? ==> r.value == [] || (!IsSpace(r.value[0]) && !IsSpace(r.value[|r.value| - 1]))
  {
    var p := Strip(part);
    if '=' in p {
      StripTrimmed(p[IndexOf(p, '=') + 1..]);
    }
  }

  /** The filename read from the `;`-separated header parts from `i` on, or `fallback` when none decides. */
  function FileNameFrom(parts: seq<string>, i: nat, fallback: string): Result<string>
    requires i <= |parts|
    decreases |parts| - i
  {
    if i == |parts| then Success(fallback)
    else if NamesFile(parts[i]) then FileNameIn(parts[i])
    else FileNameFrom(parts, i + 1, fallback)
  }

  /** What `_get_file_name` returns for a `Content-Disposition` header (`""` when absent). */
  function FileName(header: string, urlPath: string): Result<string>
  {
    FileNameFrom(Split(header, ';'), 0, FileNameFromUrl(urlPath))
  }

  /** Parts that do not name the file are passed over. */
  lemma {:induction false} SkipsNonNaming(parts: seq<string>, fallback: string, i: nat, from: nat)
    requires from <= i <= |parts|
    requires forall j :: from <= j < i ==> !NamesFile(parts[j])
    ensures FileNameFrom(parts, from, fallback) == FileNameFrom(parts, i, fallback)
    decreases i - from
  {
    if from < i {
      assert !NamesFile(parts[from]);
      SkipsNonNaming(parts, fallback, i, from + 1);
    }
  }

  /** The first part that names the file decides the result. */
  lemma FirstNamingPartDecides(parts: seq<string>, fallback: string, i: nat)
    requires i < |parts| && NamesFile(parts[i])
    requires forall j :: 0 <= j < i ==> !NamesFile(parts[j])
    ensures FileNameFrom(parts, 0, fallback) == FileNameIn(parts[i])
  {
    SkipsNonNaming(parts, fallback, i, 0);
  }

  /** When no part names the file, the URL's filename is used. */
  lemma {:induction false} NoNamingPartFallsBack(parts: seq<string>, fallback: string, from: nat)
    requires from <= |parts|
    requires forall j :: from <= j < |parts| ==> !NamesFile(parts[j])
    ensures FileNameFrom(parts, from, fallback) == Success(fallback)
    decreases |parts| - from
  {
    if from < |parts| {
      assert !NamesFile(parts[from]);
      NoNamingPartFallsBack(parts, fallback, from + 1);
    }
  }

  /** An empty header gives the URL's filename. */
  lemma EmptyHeaderFallsBack(urlPath: string)
    ensures FileName("", urlPath) == Success(FileNameFromUrl(urlPath))
  {
    var parts := Split("", ';');
    assert parts == [""];
    assert Strip("") == [];
    assert !NamesFile(parts[0]);
    var fallback := FileNameFromUrl(urlPath);
    assert FileNameFrom(parts, 1, fallback) == Success(fallback);
  }

  /** A header that splits into one empty part is the empty header. */
  lemma EmptyPartsFallBack(header: string, urlPath: string)
    requires |Split(header, ';')| == 1 && |Split(header, ';')[0]| == 0
    ensures FileName(header, urlPath) == Success(FileNameFromUrl(urlPath))
  {
    JoinSplit(header, ';');
    assert Split(header, ';') == [""];
    EmptyHeaderFallsBack(urlPath);
  }

  /**
   * `_get_file_name`: the early return for an empty header, then the search loop over
   * the header parts.
   */
  method GetFileName(header: string, urlPath: string) returns (r: Result<string>)
    ensures r == FileName(header, urlPath)
  {
    var parts := Split(header, ';');
    if |parts| == 1 && |parts[0]| == 0 {
      EmptyPartsFallBack(header, urlPath);
      return Success(FileNameFromUrl(urlPath));
    }
    ghost var fallback := FileNameFromUrl(urlPath);
    for i := 0 to |parts|
      invariant FileName(header, urlPath) == FileNameFrom(parts, i, fallback)
    {
      var part := Strip(parts[i]);
      if |part| == 0 {
        continue;
      }
      if StartsWithFilename(part) {
        if '=' !in part {
          return Failure(IndexError);
        }
        var filename := part[IndexOf(part, '=') + 1..];
        return Success(Strip(filename));
      }
    }
    r := Success(FileNameFromUrl(urlPath));
  }
}
