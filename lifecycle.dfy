/**
 * Creating and removing worktrees, and the best-effort copy of configured
 * files into a new worktree. The machine the tool runs on is a `Host`: its
 * file system, the git commands issued to it and the `Copied:` lines printed.
 */
module Lifecycle {
  import opened Wrappers
  import opened Text
  import opened Paths
  import opened Files
  import opened Repository

  /** The git commands that change worktrees. */
  datatype GitCall = WorktreeAdd(path: string, branch: string) | WorktreeRemove(path: string, force: bool)

  /** One failure collected by the copy loop, named as its message names it. */
  datatype CopyFailure = GlobFailed(pattern: string) | RelFailed(source: string) | MkdirFailed(rel: string) | CopyFailed(rel: string)

  datatype CopyError = RootUnknown | SomeFailed(failures: seq<CopyFailure>)

  datatype CreateError = DirectoryFailed | AlreadyExists(name: string, path: string) | AddFailed

  datatype RemoveError = RemoveFailed

  /**
   * What the copy consults: the answer of `git rev-parse --show-toplevel`, the
   * configured patterns, the expansion of each glob (`None` when the pattern
   * is malformed), and whether creating a directory or copying a source
   * succeeds at the system level.
   */
  datatype CopySetup = CopySetup(
    topLevel: Option<string>,
    patterns: seq<string>,
    glob: string -> Option<seq<string>>,
    mkdirOk: string -> bool,
    ioOk: string -> bool)

  /** `p` is `root` or lies below it. */
  predicate Within(root: string, p: string) {
    p == root || (|p| > |root| && p[..|root| + 1] == root + "/")
  }

  /** Outside `root`, `after` is `before`. */
  ghost predicate Confined(before: FileSystem, after: FileSystem, root: string) {
    forall p :: !Within(root, p) ==> (p in after <==> p in before) && (p in before ==> after[p] == before[p])
  }

  /** Every directory of `before` is still there, unchanged. */
  ghost predicate KeepsDirectories(before: FileSystem, after: FileSystem) {
    forall p :: p in before && before[p].Directory? ==> p in after && after[p] == before[p]
  }

  /**
   * copyFile: a missing or unreadable source fails; a directory source is
   * skipped without error; otherwise the destination is created or truncated,
   * which fails when a directory is in the way.
   */
  function CopyFile(fs: FileSystem, src: string, dst: string, ok: bool): (r: Option<FileSystem>)
    ensures r.Some? ==> KeepsDirectories(fs, r.value)
    ensures r.Some? ==> forall p :: p != dst ==> (p in r.value <==> p in fs) && (p in fs ==> r.value[p] == fs[p])
    ensures r.Some? && src in fs && fs[src].Directory? ==> r.value == fs
    ensures r.None? <==> src !in fs || !ok || (fs[src].File? && dst in fs && fs[dst].Directory?)
  {
    if src !in fs || !ok then None
    else if fs[src].Directory? then Some(fs)
    else if dst in fs && fs[dst].Directory? then None
    else Some(fs[dst := File])
  }

  /** The state the copy loop threads through: the file system, the printed copies, the collected failures. */
  datatype CopyState = CopyState(fs: FileSystem, copied: seq<string>, failures: seq<CopyFailure>)

  /** One matched source: Rel, MkdirAll of the destination's directory, copyFile; each failure is collected. */
  function CopyOne(st: CopyState, main: string, wt: string, src: string, setup: CopySetup): CopyState {
    match Rel(main, src)
    case None => st.(failures := st.failures + [RelFailed(src)])
    case Some(rel) =>
      var dst := JoinRelative(wt, rel);
      match MkdirAll(st.fs, Dir(dst), setup.mkdirOk(Dir(dst)))
      case None => st.(failures := st.failures + [MkdirFailed(rel)])
      case Some(made) =>
        match CopyFile(made, src, dst, setup.ioOk(src))
        case None => CopyState(made, st.copied, st.failures + [CopyFailed(rel)])
        case Some(written) => CopyState(written, st.copied + [rel], st.failures)
  }

  /** The sources of one pattern, in order. */
  function CopyAll(st: CopyState, main: string, wt: string, sources: seq<string>, setup: CopySetup): CopyState {
    if sources == [] then st
    else CopyOne(CopyAll(st, main, wt, sources[..|sources| - 1], setup), main, wt, sources[|sources| - 1], setup)
  }

  /** One pattern: a malformed glob is collected as a failure; its matches are copied. */
  function CopyPattern(st: CopyState, main: string, wt: string, pattern: string, setup: CopySetup): CopyState {
    match setup.glob(Join(main, pattern))
    case None => st.(failures := st.failures + [GlobFailed(pattern)])
    case Some(matches) => CopyAll(st, main, wt, matches, setup)
  }

  /** The patterns, in order. */
  function CopyPatterns(st: CopyState, main: string, wt: string, patterns: seq<string>, setup: CopySetup): CopyState {
    if patterns == [] then st
    else CopyPattern(CopyPatterns(st, main, wt, patterns[..|patterns| - 1], setup), main, wt, patterns[|patterns| - 1], setup)
  }

  lemma CopyAllPrefix(st: CopyState, main: string, wt: string, sources: seq<string>, i: nat, setup: CopySetup)
    requires i < |sources|
    ensures CopyAll(st, main, wt, sources[..i + 1], setup) == CopyOne(CopyAll(st, main, wt, sources[..i], setup), main, wt, sources[i], setup)
  {
    assert sources[..i + 1][..i] == sources[..i];
  }

  lemma CopyPatternsPrefix(st: CopyState, main: string, wt: string, patterns: seq<string>, i: nat, setup: CopySetup)
    requires i < |patterns|
    ensures CopyPatterns(st, main, wt, patterns[..i + 1], setup) == CopyPattern(CopyPatterns(st, main, wt, patterns[..i], setup), main, wt, patterns[i], setup)
  {
    assert patterns[..i + 1][..i] == patterns[..i];
  }

  /** A pattern that matches nothing is skipped silently: no failure, no copy, no change. */
  lemma UnmatchedPatternSilent(st: CopyState, main: string, wt: string, pattern: string, setup: CopySetup)
    requires setup.glob(Join(main, pattern)) == Some([])
    ensures CopyPattern(st, main, wt, pattern, setup) == st
  {
  }

  /**
   * A matched directory is skipped, yet reported as copied: nothing is written
   * but its destination's parent directory.
   */
  lemma DirectorySourceReported(st: CopyState, main: string, wt: string, src: string, setup: CopySetup)
    requires src in st.fs && st.fs[src].Directory? && setup.ioOk(src)
    requires Rel(main, src).Some?
    requires var dir := Dir(JoinRelative(wt, Rel(main, src).value)); dir in st.fs && st.fs[dir].Directory? && setup.mkdirOk(dir)
    ensures CopyOne(st, main, wt, src, setup) == st.(copied := st.copied + [Rel(main, src).value])
  {
  }

  /** `before` is a prefix of `after`. */
  predicate Grows<T(==)>(before: seq<T>, after: seq<T>) {
    |before| <= |after| && after[..|before|] == before
  }

  lemma GrowsTransitive<T>(a: seq<T>, b: seq<T>, c: seq<T>)
    requires Grows(a, b) && Grows(b, c)
    ensures Grows(a, c)
  {
    assert c[..|a|] == c[..|b|][..|a|];
  }

  /** One source yields one outcome: either a printed copy or a collected failure. */
  lemma CopyOneReported(st: CopyState, main: string, wt: string, src: string, setup: CopySetup)
    ensures var after := CopyOne(st, main, wt, src, setup);
      || (after.failures == st.failures && |after.copied| == |st.copied| + 1 && Grows(st.copied, after.copied))
      || (after.copied == st.copied && |after.failures| == |st.failures| + 1 && Grows(st.failures, after.failures))
  {
    match Rel(main, src)
    case None =>
      SnocGrows(st.failures, RelFailed(src));
    case Some(rel) =>
      var dst := JoinRelative(wt, rel);
      match MkdirAll(st.fs, Dir(dst), setup.mkdirOk(Dir(dst)))
      case None =>
        SnocGrows(st.failures, MkdirFailed(rel));
      case Some(made) =>
        SnocGrows(st.failures, CopyFailed(rel));
        SnocGrows(st.copied, rel);
  }

  lemma SnocGrows<T>(a: seq<T>, x: T)
    ensures Grows(a, a + [x]) && |a + [x]| == |a| + 1
  {
    assert (a + [x])[..|a|] == a;
  }

  /** Every source yields exactly one outcome, a printed copy or a collected failure: a failure never ends the loop. */
  lemma {:induction false} EverySourceReported(st: CopyState, main: string, wt: string, sources: seq<string>, setup: CopySetup)
    ensures var after := CopyAll(st, main, wt, sources, setup);
      && |after.copied| + |after.failures| == |st.copied| + |st.failures| + |sources|
      && Grows(st.copied, after.copied)
      && Grows(st.failures, after.failures)
  {
    if sources != [] {
      var mid := CopyAll(st, main, wt, sources[..|sources| - 1], setup);
      EverySourceReported(st, main, wt, sources[..|sources| - 1], setup);
      CopyOneReported(mid, main, wt, sources[|sources| - 1], setup);
      var after := CopyOne(mid, main, wt, sources[|sources| - 1], setup);
      GrowsTransitive(st.copied, mid.copied, after.copied);
      GrowsTransitive(st.failures, mid.failures, after.failures);
    }
  }

  /** A pattern yields one outcome per match, or one failure when the glob itself fails. */
  lemma PatternReported(st: CopyState, main: string, wt: string, pattern: string, setup: CopySetup)
    ensures var after := CopyPattern(st, main, wt, pattern, setup);
      |after.copied| + |after.failures| == |st.copied| + |st.failures| +
        match setup.glob(Join(main, pattern)) case None => 1 case Some(matches) => |matches|
  {
    if setup.glob(Join(main, pattern)).Some? {
      EverySourceReported(st, main, wt, setup.glob(Join(main, pattern)).value, setup);
    }
  }

  /** The last separator of `s` lies at or after any separator of `s`. */
  lemma {:induction false} LastIndexAtLeast(s: string, k: nat)
    requires k < |s| && s[k] == '/'
    ensures LastIndex(s, '/').Some? && LastIndex(s, '/').value >= k
    decreases |s|
  {
    if s[|s| - 1] != '/' {
      assert s[..|s| - 1][k] == s[k];
      LastIndexAtLeast(s[..|s| - 1], k);
    }
  }

  /** Trailing separators are never trimmed past a character that is not one. */
  lemma {:induction false} TrimTrailingSlashesAtLeast(q: string, k: nat)
    requires 0 < k <= |q| && q[k - 1] != '/'
    ensures |TrimTrailingSlashes(q)| >= k
    decreases |q|
  {
    if q[|q| - 1] == '/' {
      assert q[..|q| - 1][k - 1] == q[k - 1];
      TrimTrailingSlashesAtLeast(q[..|q| - 1], k);
    }
  }

  /** A destination joined below `wt` lies within it, and is not `wt` itself. */
  lemma DestinationWithin(wt: string, rel: string)
    requires IsDirectoryPath(wt) && rel != []
    ensures Within(wt, Join(wt, rel)) && Join(wt, rel) != wt
  {
    var p := Join(wt, rel);
    assert p[..|wt| + 1] == wt + "/";
  }

  /** The directory made for a destination below `wt` lies within `wt`. */
  lemma DestinationDirWithin(wt: string, rel: string)
    requires IsDirectoryPath(wt) && rel != []
    ensures Within(wt, Dir(Join(wt, rel)))
  {
    var p := Join(wt, rel);
    assert p[|wt|] == '/';
    LastIndexAtLeast(p, |wt|);
    var i := LastIndex(p, '/').value;
    var q := p[..i + 1];
    assert q[|wt| - 1] == wt[|wt| - 1];
    TrimTrailingSlashesAtLeast(q, |wt|);
    var d := TrimTrailingSlashes(q);
    assert Dir(p) == d;
    DirPrefixWithin(wt, p, q, d);
  }

  lemma DirPrefixWithin(wt: string, p: string, q: string, d: string)
    requires IsDirectoryPath(wt) && |p| > |wt| && p[..|wt| + 1] == wt + "/"
    requires |q| <= |p| && q == p[..|q|]
    requires |wt| <= |d| <= |q| && d == q[..|d|]
    ensures Within(wt, d)
  {
    if |d| == |wt| {
      assert d == p[..|wt|];
    } else {
      assert d[..|wt| + 1] == p[..|wt| + 1];
    }
  }

  /** A change at one path within `root` leaves everything outside `root` alone. */
  lemma ChangeWithin(before: FileSystem, after: FileSystem, root: string, d: string)
    requires Within(root, d)
    requires forall p :: p != d ==> (p in after <==> p in before) && (p in before ==> after[p] == before[p])
    ensures Confined(before, after, root)
  {
  }

  /** Two confined changes in a row are confined, and two that keep directories keep them. */
  lemma ConfinedTransitive(a: FileSystem, b: FileSystem, c: FileSystem, root: string)
    requires Confined(a, b, root) && Confined(b, c, root)
    requires KeepsDirectories(a, b) && KeepsDirectories(b, c)
    ensures Confined(a, c, root) && KeepsDirectories(a, c)
  {
  }

  /** Rel refuses `src`, or places it at or below `main`: never a `../` answer. */
  predicate StaysBelow(main: string, src: string) {
    Rel(main, src).None? || Descends(Rel(main, src).value)
  }

  ghost predicate SourcesStayBelow(main: string, sources: seq<string>) {
    forall k :: 0 <= k < |sources| ==> StaysBelow(main, sources[k])
  }

  /** Every match of every pattern stays below `main`, as it does when no pattern climbs out with `..`. */
  ghost predicate PatternsStayBelow(main: string, patterns: seq<string>, glob: string -> Option<seq<string>>) {
    forall k :: 0 <= k < |patterns| && glob(Join(main, patterns[k])).Some? ==> SourcesStayBelow(main, glob(Join(main, patterns[k])).value)
  }

  /** A match named by a relative path that descends from `main` stays below it. */
  lemma JoinedSourceStaysBelow(main: string, rel: string)
    requires IsAbs(main) && Descends(rel)
    ensures StaysBelow(main, Join(main, rel))
  {
    RelOfJoin(main, rel);
  }

  /** Making a directory keeps every directory there was. */
  lemma MkdirAllKeeps(fs: FileSystem, d: string, ok: bool)
    requires MkdirAll(fs, d, ok).Some?
    ensures KeepsDirectories(fs, MkdirAll(fs, d, ok).value)
  {
  }

  /**
   * Copying one source keeps every directory, and, when the source stays
   * below `main`, writes within `wt` only.
   */
  lemma CopyOneConfined(st: CopyState, main: string, wt: string, src: string, setup: CopySetup)
    requires IsDirectoryPath(wt)
    ensures StaysBelow(main, src) ==> Confined(st.fs, CopyOne(st, main, wt, src, setup).fs, wt)
    ensures KeepsDirectories(st.fs, CopyOne(st, main, wt, src, setup).fs)
  {
    match Rel(main, src)
    case None =>
    case Some(rel) =>
      var dst := JoinRelative(wt, rel);
      match MkdirAll(st.fs, Dir(dst), setup.mkdirOk(Dir(dst)))
      case None =>
      case Some(made) =>
        MkdirAllKeeps(st.fs, Dir(dst), setup.mkdirOk(Dir(dst)));
        if Descends(rel) {
          DestinationDirWithin(wt, rel);
          ChangeWithin(st.fs, made, wt, Dir(dst));
        }
        match CopyFile(made, src, dst, setup.ioOk(src))
        case None =>
        case Some(written) =>
          if Descends(rel) {
            DestinationWithin(wt, rel);
            ChangeWithin(made, written, wt, dst);
            ConfinedTransitive(st.fs, made, written, wt);
          }
  }

  /**
   * A match beside the main checkout escapes the worktree: pattern `../b`
   * matches `q/b` next to the main checkout `q/m`, Rel answers `../b`, and the
   * file is written to `d/b` next to the worktree `d/w` and printed as copied.
   */
  lemma CopyEscapesWorktree(st: CopyState, q: string, m: string, d: string, w: string, b: string, setup: CopySetup)
    requires IsAbs(q) && IsDirectoryPath(q) && IsDirectoryPath(d)
    requires IsComponent(m) && IsComponent(w) && IsComponent(b) && b != m && b != w && b != "." && b != ".."
    requires Join(q, b) in st.fs && st.fs[Join(q, b)].File? && setup.ioOk(Join(q, b))
    requires d in st.fs && st.fs[d].Directory? && setup.mkdirOk(d)
    requires Join(d, b) !in st.fs
    ensures var after := CopyOne(st, Join(q, m), Join(d, w), Join(q, b), setup);
      && after.copied == st.copied + ["../" + b]
      && Join(d, b) in after.fs && !Within(Join(d, w), Join(d, b))
      && !Confined(st.fs, after.fs, Join(d, w))
  {
    RelToSibling(q, m, b);
    JoinRelativeSibling(d, w, b);
    DirOfJoin(d, b);
    var dst := Join(d, b);
    assert MkdirAll(st.fs, d, true) == Some(st.fs);
    assert CopyFile(st.fs, Join(q, b), dst, true) == Some(st.fs[dst := File]);
    SiblingNotWithin(d, w, b);
  }

  /** A sibling of `d/w` does not lie within it. */
  lemma SiblingNotWithin(d: string, w: string, b: string)
    requires IsComponent(w) && IsComponent(b) && b != w && d != []
    ensures !Within(Join(d, w), Join(d, b))
  {
    var wt := Join(d, w);
    var dst := Join(d, b);
    assert wt[|d| + 1..] == w && dst[|d| + 1..] == b;
    if |b| > |w| {
      assert dst[|wt|] == b[|w|];
      assert b[|w|] in b;
    }
  }


  /** Copying the sources of a pattern keeps every directory, and writes within `wt` only when every source stays below `main`. */
  lemma {:induction false} CopyAllConfined(st: CopyState, main: string, wt: string, sources: seq<string>, setup: CopySetup)
    requires IsDirectoryPath(wt)
    ensures SourcesStayBelow(main, sources) ==> Confined(st.fs, CopyAll(st, main, wt, sources, setup).fs, wt)
    ensures KeepsDirectories(st.fs, CopyAll(st, main, wt, sources, setup).fs)
  {
    if sources != [] {
      var init := sources[..|sources| - 1];
      var mid := CopyAll(st, main, wt, init, setup);
      assert SourcesStayBelow(main, sources) ==> SourcesStayBelow(main, init) && StaysBelow(main, sources[|sources| - 1]) by {
        if SourcesStayBelow(main, sources) {
          forall k | 0 <= k < |init| ensures StaysBelow(main, init[k]) {
            assert init[k] == sources[k];
          }
        }
      }
      CopyAllConfined(st, main, wt, init, setup);
      CopyOneConfined(mid, main, wt, sources[|sources| - 1], setup);
      if SourcesStayBelow(main, sources) {
        ConfinedTransitive(st.fs, mid.fs, CopyAll(st, main, wt, sources, setup).fs, wt);
      }
    }
  }

  /**
   * The whole copy keeps every directory, and, when no match climbs out of the
   * main checkout, writes within the new worktree only: the main checkout and
   * every other path are untouched.
   */
  lemma {:induction false} CopyPatternsConfined(st: CopyState, main: string, wt: string, patterns: seq<string>, setup: CopySetup)
    requires IsDirectoryPath(wt)
    ensures PatternsStayBelow(main, patterns, setup.glob) ==> Confined(st.fs, CopyPatterns(st, main, wt, patterns, setup).fs, wt)
    ensures KeepsDirectories(st.fs, CopyPatterns(st, main, wt, patterns, setup).fs)
  {
    if patterns != [] {
      var init := patterns[..|patterns| - 1];
      var mid := CopyPatterns(st, main, wt, init, setup);
      var p := patterns[|patterns| - 1];
      assert PatternsStayBelow(main, patterns, setup.glob) ==> PatternsStayBelow(main, init, setup.glob) by {
        if PatternsStayBelow(main, patterns, setup.glob) {
          forall k | 0 <= k < |init| && setup.glob(Join(main, init[k])).Some?
            ensures SourcesStayBelow(main, setup.glob(Join(main, init[k])).value)
          {
            assert init[k] == patterns[k];
          }
        }
      }
      CopyPatternsConfined(st, main, wt, init, setup);
      if setup.glob(Join(main, p)).Some? {
        CopyAllConfined(mid, main, wt, setup.glob(Join(main, p)).value, setup);
        if PatternsStayBelow(main, patterns, setup.glob) {
          assert SourcesStayBelow(main, setup.glob(Join(main, patterns[|patterns| - 1])).value);
          ConfinedTransitive(st.fs, mid.fs, CopyPatterns(st, main, wt, patterns, setup).fs, wt);
        }
      }
    }
  }

  /** The file system without `root` and everything below it. */
  function RemoveTree(fs: FileSystem, root: string): (r: FileSystem)
    ensures forall p :: p in r <==> p in fs && !Within(root, p)
    ensures forall p :: p in r ==> r[p] == fs[p]
  {
    map p | p in fs && !Within(root, p) :: fs[p]
  }

  /**
   * The answer of CreateWorktree, decided before any file is copied: the
   * project directory must be made, the worktree path must be free, and
   * `git worktree add` must succeed.
   */
  function CreateOutcome(fs: FileSystem, settings: Settings, repo: string, name: string, mkdirOk: bool, addOk: bool): (r: Result<string, CreateError>)
    ensures var dir := GetWorktreeDir(settings, repo);
      r == Failure(DirectoryFailed) <==> !mkdirOk || (dir in fs && fs[dir].File?)
    ensures var dir := GetWorktreeDir(settings, repo);
      name != [] ==> (r.Success? <==> mkdirOk && (dir !in fs || fs[dir].Directory?) && Join(dir, name) !in fs && addOk)
    ensures r.Failure? && r.error.AlreadyExists? ==> r.error == AlreadyExists(name, Join(GetWorktreeDir(settings, repo), name))
    ensures IsComponent(name) && IsDirectoryPath(GetWorktreeDir(settings, repo)) && r.Success? ==>
      Base(r.value) == name && Dir(r.value) == GetWorktreeDir(settings, repo)
  {
    var dir := GetWorktreeDir(settings, repo);
    var path := Join(dir, name);
    match MkdirAll(fs, dir, mkdirOk)
    case None => Failure(DirectoryFailed)
    case Some(made) =>
      if path in made then Failure(AlreadyExists(name, path))
      else if !addOk then Failure(AddFailed)
      else
        assert IsComponent(name) && IsDirectoryPath(dir) ==> Base(path) == name && Dir(path) == dir by {
          if IsComponent(name) && IsDirectoryPath(dir) { BaseOfJoin(dir, name); DirOfJoin(dir, name); }
        }
        Success(path)
  }

  /**
   * The file system and the printed copies after CreateWorktree: the project
   * directory as made, then, once git has added the worktree, its directory
   * and the copy of the configured files when the main checkout is known.
   */
  function CreatedFiles(fs: FileSystem, copied: seq<string>, settings: Settings, repo: string, name: string, mkdirOk: bool, addOk: bool, setup: CopySetup): (r: (FileSystem, seq<string>))
    ensures CreateOutcome(fs, settings, repo, name, mkdirOk, addOk).Failure? ==> r.1 == copied
    ensures CreateOutcome(fs, settings, repo, name, mkdirOk, addOk).Success? ==>
      var path := CreateOutcome(fs, settings, repo, name, mkdirOk, addOk).value;
      IsDirectoryPath(path) ==> path in r.0 && r.0[path] == Directory(true)
  {
    var dir := GetWorktreeDir(settings, repo);
    var path := Join(dir, name);
    match MkdirAll(fs, dir, mkdirOk)
    case None => (fs, copied)
    case Some(made) =>
      if path in made || !addOk then (made, copied)
      else
        var added := made[path := Directory(true)];
        if setup.topLevel.None? then (added, copied)
        else
          var st := CopyPatterns(CopyState(added, copied, []), TrimSpace(setup.topLevel.value), path, setup.patterns, setup);
          assert IsDirectoryPath(path) ==> KeepsDirectories(added, st.fs) by {
            if IsDirectoryPath(path) {
              CopyPatternsConfined(CopyState(added, copied, []), TrimSpace(setup.topLevel.value), path, setup.patterns, setup);
            }
          }
          (st.fs, st.copied)
  }

  class Host {
    var fs: FileSystem
    var gitLog: seq<GitCall>
    /** The relative paths printed as `Copied: <rel>`, in order. */
    var copied: seq<string>

    constructor (initial: FileSystem)
      ensures fs == initial && gitLog == [] && copied == []
    {
      fs := initial;
      gitLog := [];
      copied := [];
    }

    /** The inner loop of copyConfiguredFiles: the matches of one pattern. */
    method CopyMatches(main: string, wt: string, matches: seq<string>, setup: CopySetup, failures0: seq<CopyFailure>) returns (failures: seq<CopyFailure>)
      modifies this
      ensures CopyState(fs, copied, failures) == CopyAll(CopyState(old(fs), old(copied), failures0), main, wt, matches, setup)
      ensures gitLog == old(gitLog)
    {
      var start := CopyState(fs, copied, failures0);
      failures := failures0;
      var i := 0;
      while i < |matches|
        invariant 0 <= i <= |matches|
        invariant CopyState(fs, copied, failures) == CopyAll(start, main, wt, matches[..i], setup)
        invariant gitLog == old(gitLog)
      {
        CopyAllPrefix(start, main, wt, matches, i, setup);
        var src := matches[i];
        var rel := Rel(main, src);
        if rel.None? {
          failures := failures + [RelFailed(src)];
        } else {
          var dst := JoinRelative(wt, rel.value);
          var made := MkdirAll(fs, Dir(dst), setup.mkdirOk(Dir(dst)));
          if made.None? {
            failures := failures + [MkdirFailed(rel.value)];
          } else {
            fs := made.value;
            var written := CopyFile(fs, src, dst, setup.ioOk(src));
            if written.None? {
              failures := failures + [CopyFailed(rel.value)];
            } else {
              fs := written.value;
              copied := copied + [rel.value];
            }
          }
        }
        i := i + 1;
      }
      assert matches[..i] == matches;
    }

    /**
     * copyConfiguredFiles: copy every match of every configured pattern from
     * the main checkout into the worktree `wt`, collecting failures and going
     * on. The result is an error exactly when the main checkout is unknown or
     * a failure was collected.
     */
    method CopyConfiguredFiles(wt: string, setup: CopySetup) returns (r: Option<CopyError>)
      modifies this
      ensures gitLog == old(gitLog)
      ensures setup.topLevel.None? ==> r == Some(RootUnknown) && fs == old(fs) && copied == old(copied)
      ensures setup.topLevel.Some? ==>
        var st := CopyPatterns(CopyState(old(fs), old(copied), []), TrimSpace(setup.topLevel.value), wt, setup.patterns, setup);
        && fs == st.fs && copied == st.copied
        && (r.None? <==> st.failures == [])
        && (r.Some? ==> r.value == SomeFailed(st.failures))
    {
      if setup.topLevel.None? {
        return Some(RootUnknown);
      }
      var main := TrimSpace(setup.topLevel.value);
      var start := CopyState(fs, copied, []);
      if |setup.patterns| == 0 {
        return None;
      }
      var copyErrors: seq<CopyFailure> := [];
      var i := 0;
      while i < |setup.patterns|
        invariant 0 <= i <= |setup.patterns|
        invariant CopyState(fs, copied, copyErrors) == CopyPatterns(start, main, wt, setup.patterns[..i], setup)
        invariant gitLog == old(gitLog)
      {
        CopyPatternsPrefix(start, main, wt, setup.patterns, i, setup);
        var pattern := setup.patterns[i];
        var matches := setup.glob(Join(main, pattern));
        if matches.None? {
          copyErrors := copyErrors + [GlobFailed(pattern)];
        } else if |matches.value| == 0 {
          UnmatchedPatternSilent(CopyState(fs, copied, copyErrors), main, wt, pattern, setup);
        } else {
          copyErrors := CopyMatches(main, wt, matches.value, setup, copyErrors);
        }
        i := i + 1;
      }
      assert setup.patterns[..i] == setup.patterns;
      if |copyErrors| > 0 {
        return Some(SomeFailed(copyErrors));
      }
      return None;
    }

    /**
     * CreateWorktree: ensure the project directory, refuse an existing path
     * before any git command, add the worktree, then copy the configured
     * files. A copy that fails is only a warning: the new path is returned.
     */
    method CreateWorktree(settings: Settings, repo: string, name: string, branch: string, mkdirOk: bool, addOk: bool, setup: CopySetup)
      returns (r: Result<string, CreateError>)
      modifies this
      ensures r == CreateOutcome(old(fs), settings, repo, name, mkdirOk, addOk)
      ensures (fs, copied) == CreatedFiles(old(fs), old(copied), settings, repo, name, mkdirOk, addOk, setup)
      ensures
        var dir := GetWorktreeDir(settings, repo);
        var made := MkdirAll(old(fs), dir, mkdirOk);
        made.None? ==> fs == old(fs) && gitLog == old(gitLog) && copied == old(copied)
      ensures
        var dir := GetWorktreeDir(settings, repo);
        var path := Join(dir, name);
        var made := MkdirAll(old(fs), dir, mkdirOk);
        made.Some? && path in made.value ==> fs == made.value && gitLog == old(gitLog) && copied == old(copied)
      ensures
        var dir := GetWorktreeDir(settings, repo);
        var path := Join(dir, name);
        var made := MkdirAll(old(fs), dir, mkdirOk);
        made.Some? && path !in made.value ==> gitLog == old(gitLog) + [WorktreeAdd(path, branch)]
      ensures
        var dir := GetWorktreeDir(settings, repo);
        var path := Join(dir, name);
        var made := MkdirAll(old(fs), dir, mkdirOk);
        made.Some? && path !in made.value && !addOk ==> fs == made.value && copied == old(copied)
      ensures
        var dir := GetWorktreeDir(settings, repo);
        var path := Join(dir, name);
        var made := MkdirAll(old(fs), dir, mkdirOk);
        made.Some? && r.Success? ==>
          var added := made.value[path := Directory(true)];
          && (setup.topLevel.None? ==> fs == added && copied == old(copied))
          && (setup.topLevel.Some? ==>
                var st := CopyPatterns(CopyState(added, old(copied), []), TrimSpace(setup.topLevel.value), path, setup.patterns, setup);
                fs == st.fs && copied == st.copied)
      ensures
        var dir := GetWorktreeDir(settings, repo);
        var path := Join(dir, name);
        var made := MkdirAll(old(fs), dir, mkdirOk);
        made.Some? && r.Success? && IsDirectoryPath(path) ==>
          var added := made.value[path := Directory(true)];
          && path in fs && fs[path] == Directory(true)
          && KeepsDirectories(added, fs)
          && (setup.topLevel.Some? && PatternsStayBelow(TrimSpace(setup.topLevel.value), setup.patterns, setup.glob) ==> Confined(added, fs, path))
    {
      var worktreeDir := GetWorktreeDir(settings, repo);
      var worktreePath := Join(worktreeDir, name);
      var made := MkdirAll(fs, worktreeDir, mkdirOk);
      if made.None? {
        return Failure(DirectoryFailed);
      }
      fs := made.value;
      if worktreePath in fs {
        return Failure(AlreadyExists(name, worktreePath));
      }
      gitLog := gitLog + [WorktreeAdd(worktreePath, branch)];
      if !addOk {
        return Failure(AddFailed);
      }
      fs := fs[worktreePath := Directory(true)];
      ghost var added := fs;
      var copyError := CopyConfiguredFiles(worktreePath, setup);
      if IsDirectoryPath(worktreePath) && setup.topLevel.Some? {
        CopyPatternsConfined(CopyState(added, old(copied), []), TrimSpace(setup.topLevel.value), worktreePath, setup.patterns, setup);
      }
      return Success(worktreePath);
    }

    /** RemoveWorktree: always `git worktree remove --force`; on success the worktree's tree is gone. */
    method RemoveWorktree(path: string, ok: bool) returns (r: Option<RemoveError>)
      modifies this
      ensures gitLog == old(gitLog) + [WorktreeRemove(path, true)]
      ensures copied == old(copied)
      ensures ok ==> r.None? && fs == RemoveTree(old(fs), path)
      ensures !ok ==> r == Some(RemoveFailed) && fs == old(fs)
    {
      gitLog := gitLog + [WorktreeRemove(path, true)];
      if !ok {
        return Some(RemoveFailed);
      }
      fs := RemoveTree(fs, path);
      return None;
    }
  }

  /** A worktree just added below a readable project directory shows up in its listing. */
  lemma AddedIsListed(fs: FileSystem, dir: string, name: string)
    requires dir != [] && IsComponent(name)
    requires Join(dir, name) in fs && fs[Join(dir, name)].Directory?
    requires dir in fs && fs[dir] == Directory(true)
    ensures ReadDir(fs, dir).Entries? && DirEntry(name, true) in ReadDir(fs, dir).entries
  {
    EntryOfChild(fs, dir, name);
  }

  /** Once a worktree is removed, its project directory no longer lists it, under any kind of entry. */
  lemma RemovedNotListed(fs: FileSystem, dir: string, name: string, isDir: bool)
    requires dir != [] && IsComponent(name)
    ensures DirEntry(name, isDir) !in Children(RemoveTree(fs, Join(dir, name)), dir)
  {
    var after := RemoveTree(fs, Join(dir, name));
    if DirEntry(name, isDir) in Children(after, dir) {
      ChildEntry(after, dir, DirEntry(name, isDir));
      assert Within(Join(dir, name), Join(dir, name));
    }
  }
}
