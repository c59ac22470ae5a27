/**
 * Slash-separated paths, standing in for Go's `path/filepath`. Join, Base and
 * Dir follow filepath's rules on clean paths (no `//`, no `.` or `..`
 * segments); the lexical cleaning filepath applies afterwards is not modelled.
 */
module Paths {
  import opened Wrappers

  /** A single path element: non-empty and free of separators. */
  predicate IsComponent(c: string) {
    c != [] && '/' !in c
  }

  /** A non-empty path without a trailing separator. */
  predicate IsDirectoryPath(d: string) {
    d != [] && d[|d| - 1] != '/'
  }

  predicate IsAbs(p: string) {
    |p| > 0 && p[0] == '/'
  }

  /** `filepath.Join(a, b)`: empty elements are ignored, the others are joined by one separator. */
  function Join(a: string, b: string): (r: string)
    ensures a != [] && b != [] ==> r == a + "/" + b
  {
    if a == [] then b else if b == [] then a else a + "/" + b
  }

  /** The index of the last `c` in `s`, if any. */
  function LastIndex(s: string, c: char): (r: Option<nat>)
    ensures r.None? <==> c !in s
    ensures r.Some? ==> r.value < |s| && s[r.value] == c && c !in s[r.value + 1..]
  {
    if s == [] then None
    else if s[|s| - 1] == c then
      assert s[|s|..] == [];
      Some(|s| - 1)
    else
      var init := s[..|s| - 1];
      var r := LastIndex(init, c);
      assert s == init + [s[|s| - 1]];
      if r.Some? then
        assert s[r.value + 1..] == init[r.value + 1..] + [s[|s| - 1]] by {
          assert s[r.value + 1..] == s[r.value + 1..|s| - 1] + [s[|s| - 1]];
        }
        r
      else r
  }

  /** Drops trailing separators. */
  function TrimTrailingSlashes(p: string): (r: string)
    ensures |r| <= |p| && r == p[..|r|]
    ensures r == [] || r[|r| - 1] != '/'
  {
    if p != [] && p[|p| - 1] == '/' then TrimTrailingSlashes(p[..|p| - 1]) else p
  }

  /** `filepath.Base`: the last element of `p`. */
  function Base(p: string): string {
    if p == [] then "."
    else
      var q := TrimTrailingSlashes(p);
      var last := match LastIndex(q, '/') case None => q case Some(i) => q[i + 1..];
      if last == [] then "/" else last
  }

  /** `filepath.Dir`: all but the last element of `p`. */
  function Dir(p: string): string {
    match LastIndex(p, '/')
    case None => "."
    case Some(i) =>
      var d := TrimTrailingSlashes(p[..i + 1]);
      if d == [] then "/" else d
  }

  /** `filepath.Abs` against the working directory `cwd`. */
  function Abs(cwd: string, p: string): string {
    if IsAbs(p) then p else Join(cwd, p)
  }

  /** A relative path that names `base` itself or something below it, never a step up. */
  predicate Descends(rel: string) {
    rel != [] && rel != "." && rel != ".." && !(|rel| >= 3 && rel[..3] == "../")
  }

  /** Dir of an absolute path other than the root is absolute and strictly shorter. */
  lemma DirOfAbs(p: string)
    requires IsAbs(p) && p != "/"
    ensures IsAbs(Dir(p)) && |Dir(p)| < |p|
  {
    var i := LastIndex(p, '/').value;
    var d := TrimTrailingSlashes(p[..i + 1]);
    if d != [] {
      assert d[0] == p[0];
      assert |d| < i + 1;
    }
  }

  /**
   * `filepath.Rel(base, target)` for absolute paths: the target's own suffix
   * when it lies below `base`, otherwise one `..` step per element of `base`
   * left behind until a common ancestor is reached. A relative path on either
   * side is refused.
   */
  function Rel(base: string, target: string): (r: Option<string>)
    ensures r.None? <==> !IsAbs(base) || !IsAbs(target)
    ensures r.Some? && Descends(r.value) && base != "/" ==> Join(base, r.value) == target
    decreases |base|
  {
    if !IsAbs(base) || !IsAbs(target) then None
    else if target == base then Some(".")
    else if |target| > |base| + 1 && target[..|base| + 1] == base + "/" then
      assert target == target[..|base| + 1] + target[|base| + 1..];
      Some(target[|base| + 1..])
    else if base == "/" then Some(target[1..])
    else
      DirOfAbs(base);
      var parent := Dir(base);
      if parent == target then Some("..")
      else Some("../" + Rel(parent, target).value)
  }

  /**
   * `filepath.Join(dir, rel)` for an answer of Rel: each leading `..` step
   * climbs to the parent, the way Join's lexical cleaning resolves it.
   */
  function JoinRelative(dir: string, rel: string): (r: string)
    ensures Descends(rel) ==> r == Join(dir, rel)
    decreases |rel|
  {
    if rel == "." then dir
    else if rel == ".." then Dir(dir)
    else if |rel| >= 3 && rel[..3] == "../" then JoinRelative(Dir(dir), rel[3..])
    else Join(dir, rel)
  }

  /** The separator placed by a join is the last one when the joined part has none. */
  lemma {:induction false} LastIndexAfterSeparator(q: string, c: string)
    requires '/' !in c
    ensures LastIndex(q + "/" + c, '/') == Some(|q|)
    decreases |c|
  {
    var p := q + "/" + c;
    if c != [] {
      assert p[|p| - 1] == c[|c| - 1] && c[|c| - 1] in c;
      assert p[..|p| - 1] == q + "/" + c[..|c| - 1];
      assert c == c[..|c| - 1] + [c[|c| - 1]];
      LastIndexAfterSeparator(q, c[..|c| - 1]);
    }
  }

  /** Joining a component onto a directory can be undone by Base. */
  lemma BaseOfJoin(d: string, c: string)
    requires IsComponent(c)
    ensures Base(Join(d, c)) == c
  {
    var p := Join(d, c);
    assert TrimTrailingSlashes(p) == p by {
      assert p[|p| - 1] == c[|c| - 1];
      assert c[|c| - 1] in c;
    }
    if d == [] {
      assert LastIndex(p, '/') == None;
    } else {
      LastIndexAfterSeparator(d, c);
      assert p[|d| + 1..] == c;
    }
  }

  /** Joining a component onto a directory without a trailing separator can be undone by Dir. */
  lemma DirOfJoin(d: string, c: string)
    requires IsDirectoryPath(d)
    requires IsComponent(c)
    ensures Dir(Join(d, c)) == d
  {
    var p := Join(d, c);
    LastIndexAfterSeparator(d, c);
    assert p[..|d| + 1] == d + "/";
    assert TrimTrailingSlashes(d + "/") == d by {
      assert (d + "/")[..|d + "/"| - 1] == d;
    }
  }

  /** A relative path joined below an absolute `base` is recovered by Rel. */
  lemma RelOfJoin(base: string, rel: string)
    requires IsAbs(base) && rel != [] && rel != "."
    ensures Rel(base, Join(base, rel)) == Some(rel)
  {
    var t := Join(base, rel);
    assert t[..|base| + 1] == base + "/";
    assert t[|base| + 1..] == rel;
  }

  /**
   * Rel steps out of `base` for a sibling: from `p/a` to `p/b` the answer is
   * `../b`, not an error.
   */
  lemma RelToSibling(p: string, a: string, b: string)
    requires IsAbs(p) && IsDirectoryPath(p)
    requires IsComponent(a) && IsComponent(b) && a != b && b != "."
    ensures Rel(Join(p, a), Join(p, b)) == Some("../" + b)
  {
    var base := Join(p, a);
    var target := Join(p, b);
    assert base[0] == p[0] && target[0] == p[0];
    assert target[|p| + 1..] == b && base[|p| + 1..] == a;
    if |b| > |a| {
      assert target[|base|] == b[|a|];
      assert b[|a|] in b;
    }
    assert !(|target| > |base| + 1 && target[..|base| + 1] == base + "/");
    DirOfJoin(p, a);
    RelOfJoin(p, b);
    assert Dir(base) != target by {
      assert |target| > |p|;
    }
  }

  /** Joining `../b` onto `p/w` lands on the sibling `p/b`. */
  lemma JoinRelativeSibling(p: string, w: string, b: string)
    requires IsDirectoryPath(p) && IsComponent(w) && IsComponent(b) && b != "." && b != ".."
    ensures JoinRelative(Join(p, w), "../" + b) == Join(p, b)
  {
    var rel := "../" + b;
    assert rel[..3] == "../" && rel[3..] == b;
    assert rel != "." && rel != "..";
    assert JoinRelative(Join(p, w), rel) == JoinRelative(Dir(Join(p, w)), b);
    DirOfJoin(p, w);
    assert Descends(b) by {
      assert |b| >= 3 ==> b[2] in b;
    }
  }

}
