/** The part of `pathlib` that `main.py` relies on, modelled lexically for POSIX paths:
    parsing a string into a `Path`, `str(path)`, the `/` operator, `resolve()` and
    `is_relative_to`. A resolved path is the list of its components below the root. */
module Paths {
  import opened PyText

  predicate IsSlash(c: char)
  {
    c == '/'
  }

  /** A `PurePosixPath`: absolute or not, and its components other than the root. */
  datatype Path = Path(absolute: bool, parts: seq<string>)

  /** The components of a path string: the pieces between slashes, without the empty and
      "." pieces, which `pathlib` drops. ".." is kept. */
  function Components(pieces: seq<string>): (r: seq<string>)
    ensures forall k :: 0 <= k < |r| ==> r[k] != "." && r[k] in pieces
    ensures forall k :: 0 <= k < |pieces| && pieces[k] != "." ==> pieces[k] in r
  {
    if pieces == [] then []
    else
      var rest := Components(pieces[1..]);
      assert forall k :: 1 <= k < |pieces| ==> pieces[k] == pieces[1..][k - 1];
      if pieces[0] == "." then rest else [pieces[0]] + rest
  }

  /** `Path(s)` */
  function Parse(s: string): (p: Path)
    ensures p.absolute <==> |s| > 0 && s[0] == '/'
    ensures forall k :: 0 <= k < |p.parts| ==> p.parts[k] != "." && p.parts[k] != ""
                                                && NoSeparator(p.parts[k], IsSlash)
  {
    Path(|s| > 0 && s[0] == '/', Components(SplitOn(s, IsSlash)))
  }

  /** `str(p)`: the components joined by slashes, after a slash if absolute, "." when a
      relative path has none. */
  function PathText(p: Path): (s: string)
    ensures p.absolute ==> |s| > 0 && s[0] == '/'
    ensures (forall k :: 0 <= k < |p.parts| ==> Component(p.parts[k])) ==>
              |s| > 0 && (s[0] == '/' <==> p.absolute)
  {
    if p.absolute then "/" + JoinOn(p.parts, '/')
    else if p.parts == [] then "."
    else
      assert Component(p.parts[0]) ==> JoinOn(p.parts, '/')[0] == p.parts[0][0] by {
        if Component(p.parts[0]) {
          JoinStartsWithFirst(p.parts);
        }
      }
      JoinOn(p.parts, '/')
  }

  /** The components a parsed path can have. */
  predicate Component(c: string)
  {
    c != "" && c != "." && NoSeparator(c, IsSlash)
  }

  /** `Path(str(p)) == p` for every path `Path(...)` can produce. */
  lemma ParsePathText(p: Path)
    requires forall k :: 0 <= k < |p.parts| ==> Component(p.parts[k])
    ensures Parse(PathText(p)) == p
  {
    SplitOfJoin(p.parts, '/', IsSlash);
    NoDotComponents(p.parts);
    if p.absolute {
      assert PathText(p) == ['/'] + JoinOn(p.parts, '/');
      assert SplitOn(PathText(p), IsSlash) == SplitOn(JoinOn(p.parts, '/'), IsSlash);
    } else if p.parts == [] {
      assert SplitOn(".", IsSlash) == ["."] by { SplitSingle(".", IsSlash); }
      assert Components(["."]) == [];
    } else {
      assert p.parts[0][0] != '/';
      assert PathText(p)[0] == p.parts[0][0] by { JoinStartsWithFirst(p.parts); }
    }
  }

  lemma {:induction false} NoDotComponents(parts: seq<string>)
    requires forall k :: 0 <= k < |parts| ==> Component(parts[k])
    ensures Components(parts) == parts
    decreases |parts|
  {
    if parts != [] {
      NoDotComponents(parts[1..]);
    }
  }

  lemma JoinStartsWithFirst(parts: seq<string>)
    requires |parts| > 0 && |parts[0]| > 0
    ensures |JoinOn(parts, '/')| > 0 && JoinOn(parts, '/')[0] == parts[0][0]
  {
  }

  /** `base / name`: an absolute right-hand side replaces the base. */
  function Join(base: Path, name: string): (p: Path)
    ensures Parse(name).absolute ==> p == Parse(name)
    ensures !Parse(name).absolute ==> p.absolute == base.absolute && p.parts == base.parts + Parse(name).parts
  {
    var q := Parse(name);
    if q.absolute then q else Path(base.absolute, base.parts + q.parts)
  }

  /** One component applied while resolving: "." stays, ".." goes up (the root is its own
      parent), any other name goes down. */
  function Step(dir: seq<string>, part: string): seq<string>
  {
    if part == "" || part == "." then dir
    else if part == ".." then (if dir == [] then [] else dir[..|dir| - 1])
    else dir + [part]
  }

  function Normalize(dir: seq<string>, parts: seq<string>): seq<string>
    decreases |parts|
  {
    if parts == [] then dir else Normalize(Step(dir, parts[0]), parts[1..])
  }

  /** A resolved path holds no empty, "." or ".." component. */
  predicate Canonical(dir: seq<string>)
  {
    forall k :: 0 <= k < |dir| ==> dir[k] != "" && dir[k] != "." && dir[k] != ".."
  }

  /** `p.resolve()` with `cwd` the working directory, lexically: symbolic links are not
      followed. */
  function Resolve(cwd: seq<string>, p: Path): (r: seq<string>)
    ensures Canonical(r)
  {
    var start := if p.absolute then [] else Normalize([], cwd);
    NormalizeCanonical([], cwd);
    NormalizeCanonical(start, p.parts);
    Normalize(start, p.parts)
  }

  /** `p.is_relative_to(dir)` on resolved paths: `dir`'s components begin `p`'s. */
  predicate IsWithin(p: seq<string>, dir: seq<string>)
  {
    |dir| <= |p| && p[..|dir|] == dir
  }

  // ---------------------------------------------------------------- properties

  lemma {:induction false} NormalizeCanonical(dir: seq<string>, parts: seq<string>)
    requires Canonical(dir)
    ensures Canonical(Normalize(dir, parts))
    decreases |parts|
  {
    if parts != [] {
      NormalizeCanonical(Step(dir, parts[0]), parts[1..]);
    }
  }

  /** Resolving component by component: the components of `xs + ys` resolve as `xs` does,
      then `ys` from there. */
  lemma {:induction false} NormalizeAppend(dir: seq<string>, xs: seq<string>, ys: seq<string>)
    ensures Normalize(dir, xs + ys) == Normalize(Normalize(dir, xs), ys)
    decreases |xs|
  {
    if xs != [] {
      assert (xs + ys)[0] == xs[0] && (xs + ys)[1..] == xs[1..] + ys;
      NormalizeAppend(Step(dir, xs[0]), xs[1..], ys);
    } else {
      assert xs + ys == ys;
    }
  }

  /** Ordinary names go down one level each. */
  lemma {:induction false} NormalizePlain(dir: seq<string>, parts: seq<string>)
    requires Canonical(parts)
    ensures Normalize(dir, parts) == dir + parts
    decreases |parts|
  {
    if parts != [] {
      NormalizePlain(dir + [parts[0]], parts[1..]);
      assert dir + [parts[0]] + parts[1..] == dir + parts;
    }
  }

  /** A resolved directory resolves to itself. */
  lemma CanonicalIsFixed(dir: seq<string>)
    requires Canonical(dir)
    ensures Normalize([], dir) == dir
  {
    NormalizePlain([], dir);
  }

  /** `(resolved_dir / name).resolve()`: a relative name is resolved from `dir`, an absolute
      one from the root, whatever `dir` is. */
  lemma ResolveJoin(cwd: seq<string>, dir: seq<string>, name: string)
    requires Canonical(dir)
    ensures !Parse(name).absolute ==> Resolve(cwd, Join(Path(true, dir), name)) == Normalize(dir, Parse(name).parts)
    ensures Parse(name).absolute ==> Resolve(cwd, Join(Path(true, dir), name)) == Normalize([], Parse(name).parts)
  {
    if !Parse(name).absolute {
      NormalizeAppend([], dir, Parse(name).parts);
      CanonicalIsFixed(dir);
    }
  }

  /** A name free of slashes, "." and ".." stays inside the directory: it resolves to the
      directory's entry of that name. */
  lemma PlainNameStaysInside(cwd: seq<string>, dir: seq<string>, name: string)
    requires Canonical(dir)
    requires name != "" && name != "." && name != ".." && NoSeparator(name, IsSlash)
    ensures Resolve(cwd, Join(Path(true, dir), name)) == dir + [name]
    ensures IsWithin(dir + [name], dir)
  {
    SplitSingle(name, IsSlash);
    NoDotComponents([name]);
    ResolveJoin(cwd, dir, name);
    NormalizePlain(dir, [name]);
    assert (dir + [name])[..|dir|] == dir;
  }

  /** ".." leaves every directory but the root. */
  lemma ParentEscapes(cwd: seq<string>, dir: seq<string>)
    requires Canonical(dir) && dir != []
    ensures !IsWithin(Resolve(cwd, Join(Path(true, dir), "..")), dir)
  {
    SplitSingle("..", IsSlash);
    NoDotComponents([".."]);
    ResolveJoin(cwd, dir, "..");
    assert Normalize(dir, [".."]) == dir[..|dir| - 1];
  }

  /** An absolute name is resolved on its own; it is inside the directory only when it
      names a path below it. */
  lemma AbsoluteNameIgnoresBase(cwd: seq<string>, dir1: seq<string>, dir2: seq<string>, name: string)
    requires Canonical(dir1) && Canonical(dir2)
    requires |name| > 0 && name[0] == '/'
    ensures Resolve(cwd, Join(Path(true, dir1), name)) == Resolve(cwd, Join(Path(true, dir2), name))
  {
    ResolveJoin(cwd, dir1, name);
    ResolveJoin(cwd, dir2, name);
  }

  /** A relative name without ".." components resolves below the directory. */
  lemma DescendingNameStaysInside(cwd: seq<string>, dir: seq<string>, name: string)
    requires Canonical(dir)
    requires !Parse(name).absolute
    requires forall k :: 0 <= k < |Parse(name).parts| ==> Parse(name).parts[k] != ".."
    ensures Resolve(cwd, Join(Path(true, dir), name)) == dir + Parse(name).parts
    ensures IsWithin(Resolve(cwd, Join(Path(true, dir), name)), dir)
  {
    ResolveJoin(cwd, dir, name);
    NormalizePlain(dir, Parse(name).parts);
    assert (dir + Parse(name).parts)[..|dir|] == dir;
  }
}
