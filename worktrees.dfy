/**
 * The worktree store: the worktrees of a project are the directories right
 * below `<baseDir>/<project>`, each labelled with the branch checked out in it.
 */
module Worktrees {
  import opened Wrappers
  import opened Text
  import opened Paths
  import opened Ordering
  import opened Names
  import opened Files
  import opened Repository

  datatype Worktree = Worktree(Name: string, Path: string, Branch: string)

  datatype Project = Project(Name: string, Path: string, Worktrees: seq<Worktree>)

  datatype ListError = ReadDirFailed(path: string)

  /**
   * What git answers inside a worktree (`None` when the command fails):
   * `branch --show-current`, `rev-parse --abbrev-ref HEAD` and
   * `rev-parse --short HEAD`.
   */
  datatype BranchProbe = BranchProbe(showCurrent: Option<string>, abbrevRef: Option<string>, shortHead: Option<string>)

  /** The outside world a listing consults: the settings and git's answers in each worktree path. */
  datatype Env = Env(settings: Settings, probe: string -> BranchProbe)

  /** The answer the label is read from: `branch --show-current`, or else `rev-parse --abbrev-ref HEAD`. */
  function BranchAnswer(probe: BranchProbe): Option<string> {
    if probe.showCurrent.Some? then probe.showCurrent else probe.abbrevRef
  }

  /**
   * GetWorktreeBranch as the source runs it: only the marker `HEAD` is taken
   * for a detached worktree, and it becomes `detached`, with the short commit
   * hash when git gives one.
   */
  function GetWorktreeBranchAsWritten(probe: BranchProbe): (r: string)
    ensures BranchAnswer(probe).None? ==> r == "unknown"
    ensures BranchAnswer(probe).Some? && TrimSpace(BranchAnswer(probe).value) != "HEAD" ==> r == TrimSpace(BranchAnswer(probe).value)
    ensures BranchAnswer(probe).Some? && TrimSpace(BranchAnswer(probe).value) == "HEAD" ==> r == DetachedLabel(probe.shortHead)
    ensures r != "HEAD"
  {
    match BranchAnswer(probe)
    case None => "unknown"
    case Some(text) =>
      var branch := TrimSpace(text);
      if branch == "HEAD" then DetachedLabel(probe.shortHead)
      else branch
  }

  /** The label of a detached worktree: `detached`, or `detached@<hash>` when git gives the short hash. */
  function DetachedLabel(shortHead: Option<string>): (r: string)
    ensures |r| >= 8 && r[..8] == "detached" && (shortHead.Some? <==> |r| > 8)
  {
    match shortHead
    case None => "detached"
    case Some(hash) => "detached@" + TrimSpace(hash)
  }

  /**
   * `branch --show-current` succeeds with an empty answer in a detached
   * worktree, so as written the fallbacks never run and the label is empty.
   */
  lemma DetachedShowCurrentLabel(abbrevRef: Option<string>, shortHead: Option<string>)
    ensures GetWorktreeBranchAsWritten(BranchProbe(Some("\n"), abbrevRef, shortHead)) == ""
  {
    assert AllSpace("\n") by { assert IsSpace("\n"[0]); }
  }

  /**
   * GetWorktreeBranch: the branch label shown for a worktree. A detached
   * worktree, which `branch --show-current` reports with an empty answer and
   * `rev-parse --abbrev-ref` with the marker `HEAD`, is labelled `detached`,
   * with the short commit hash when git gives one; so no label is empty or
   * the raw marker.
   */
  function GetWorktreeBranch(probe: BranchProbe): (r: string)
    ensures BranchAnswer(probe).None? ==> r == "unknown"
    ensures BranchAnswer(probe).Some? && TrimSpace(BranchAnswer(probe).value) != "HEAD" && TrimSpace(BranchAnswer(probe).value) != [] ==>
      r == TrimSpace(BranchAnswer(probe).value)
    ensures BranchAnswer(probe).Some? && (TrimSpace(BranchAnswer(probe).value) == "HEAD" || TrimSpace(BranchAnswer(probe).value) == []) ==>
      r == DetachedLabel(probe.shortHead)
    ensures r != [] && r != "HEAD"
  {
    match BranchAnswer(probe)
    case None => "unknown"
    case Some(text) =>
      var branch := TrimSpace(text);
      if branch == "HEAD" || branch == [] then DetachedLabel(probe.shortHead)
      else branch
  }

  /** With the correction, a detached worktree reported by `branch --show-current` is labelled by its short hash. */
  lemma DetachedShowCurrentCorrected(abbrevRef: Option<string>, hash: string)
    requires hash != [] && !IsSpace(hash[0]) && !IsSpace(hash[|hash| - 1])
    ensures GetWorktreeBranch(BranchProbe(Some("\n"), abbrevRef, Some(hash + "\n"))) == "detached@" + hash
  {
    assert AllSpace("\n") by { assert IsSpace("\n"[0]); }
    TrimSpaceOfLine(hash, "\n");
  }

  /**
   * The two labels differ exactly when git answers with a blank line: then the
   * label as written is empty and the corrected one names the detached commit.
   */
  lemma LabelsDifferOnlyWhenBlank(probe: BranchProbe)
    ensures GetWorktreeBranchAsWritten(probe) != GetWorktreeBranch(probe) <==>
      BranchAnswer(probe).Some? && TrimSpace(BranchAnswer(probe).value) == []
    ensures BranchAnswer(probe).Some? && TrimSpace(BranchAnswer(probe).value) == [] ==>
      GetWorktreeBranchAsWritten(probe) == [] && GetWorktreeBranch(probe) == DetachedLabel(probe.shortHead)
  {
  }

  /** When `branch --show-current` fails, a detached worktree is labelled by its short hash. */
  lemma DetachedFallbackLabel(hash: string)
    requires hash != [] && !IsSpace(hash[0]) && !IsSpace(hash[|hash| - 1])
    ensures GetWorktreeBranch(BranchProbe(None, Some("HEAD\n"), Some(hash + "\n"))) == "detached@" + hash
  {
    TrimSpaceOfLine("HEAD", "\n");
    TrimSpaceOfLine(hash, "\n");
  }

  /** A worktree of the directory `dir`, at its joined path, with git's label for that path. */
  function WorktreeAt(dir: string, name: string, probe: string -> BranchProbe): Worktree {
    Worktree(name, Join(dir, name), GetWorktreeBranch(probe(Join(dir, name))))
  }

  /** The worktrees the directory entries `es` of `dir` stand for: one per directory entry. */
  function Listed(dir: string, es: set<DirEntry>, probe: string -> BranchProbe): set<Worktree> {
    set e | e in es && e.isDir :: WorktreeAt(dir, e.name, probe)
  }

  /** Listing one more entry adds its worktree when it is a directory. */
  lemma ListedAdd(dir: string, es: set<DirEntry>, e: DirEntry, probe: string -> BranchProbe)
    ensures Listed(dir, es + {e}, probe) == Listed(dir, es, probe) + (if e.isDir then {WorktreeAt(dir, e.name, probe)} else {})
  {
  }

  /** Every listed worktree comes from a directory entry and lies at the join of `dir` and its name. */
  lemma ListedShape(dir: string, es: set<DirEntry>, probe: string -> BranchProbe, w: Worktree)
    ensures w in Listed(dir, es, probe) <==> DirEntry(w.Name, true) in es && w == WorktreeAt(dir, w.Name, probe)
  {
    if w in Listed(dir, es, probe) {
      var e :| e in es && e.isDir && w == WorktreeAt(dir, e.name, probe);
    }
  }

  /** The order of `ListWorktrees` and `ListAllProjects`: case-insensitive by name. */
  function WorktreeKey(w: Worktree): SortKey {
    SortKey(0, ToLower(w.Name))
  }

  /** `ws` lists the worktrees `expected`, each once, sorted by lowercased name. */
  ghost predicate IsListing(ws: seq<Worktree>, expected: set<Worktree>) {
    && (forall w :: w in ws <==> w in expected)
    && |ws| == |expected|
    && SortedBy(ws, WorktreeKey)
  }

  /** `worktrees` holds, once each, the worktrees of the entries `done`. */
  ghost predicate Collected(worktrees: seq<Worktree>, dir: string, done: set<DirEntry>, probe: string -> BranchProbe) {
    && (forall w :: w in worktrees <==> w in Listed(dir, done, probe))
    && (forall k :: 0 <= k < |worktrees| ==> DirEntry(worktrees[k].Name, true) in done)
    && (forall i, j :: 0 <= i < j < |worktrees| ==> worktrees[i] != worktrees[j])
  }

  /** Taking one more entry, not seen before, keeps `Collected`. */
  lemma CollectStep(worktrees: seq<Worktree>, dir: string, done: set<DirEntry>, e: DirEntry, probe: string -> BranchProbe)
    requires Collected(worktrees, dir, done, probe) && e !in done
    ensures Collected(if e.isDir then worktrees + [WorktreeAt(dir, e.name, probe)] else worktrees, dir, done + {e}, probe)
  {
    ListedAdd(dir, done, e, probe);
    if e.isDir {
      var w := WorktreeAt(dir, e.name, probe);
      assert e == DirEntry(w.Name, true);
      forall k | 0 <= k < |worktrees| ensures worktrees[k] != w {
        assert DirEntry(worktrees[k].Name, true) in done;
      }
      var next := worktrees + [w];
      forall k | 0 <= k < |next| ensures DirEntry(next[k].Name, true) in done + {e} {
        if k < |worktrees| { assert next[k] == worktrees[k]; }
      }
    }
  }

  /** The worktrees found under `dir`, before sorting. */
  method CollectWorktrees(dir: string, es: set<DirEntry>, probe: string -> BranchProbe) returns (worktrees: seq<Worktree>)
    ensures forall w :: w in worktrees <==> w in Listed(dir, es, probe)
    ensures |worktrees| == |Listed(dir, es, probe)|
  {
    worktrees := [];
    var pending := es;
    while pending != {}
      invariant pending <= es
      invariant Collected(worktrees, dir, es - pending, probe)
      decreases |pending|
    {
      var e :| e in pending;
      CollectStep(worktrees, dir, es - pending, e, probe);
      assert es - (pending - {e}) == (es - pending) + {e};
      if e.isDir {
        worktrees := worktrees + [WorktreeAt(dir, e.name, probe)];
      }
      pending := pending - {e};
    }
    assert es - pending == es;
    CollectedCount(worktrees, dir, es, probe);
  }

  /** What has been collected from all of `es` is a listing of as many worktrees as `Listed` holds. */
  lemma CollectedCount(worktrees: seq<Worktree>, dir: string, es: set<DirEntry>, probe: string -> BranchProbe)
    requires Collected(worktrees, dir, es, probe)
    ensures |worktrees| == |Listed(dir, es, probe)|
  {
    DistinctCard(worktrees);
    assert (set w | w in worktrees) == Listed(dir, es, probe);
  }

  /**
   * ListWorktrees: a missing project directory lists nothing, an unreadable one
   * is an error, otherwise every sub-directory is a worktree, sorted
   * case-insensitively by name.
   */
  method ListWorktrees(fs: FileSystem, env: Env, repo: string) returns (r: Result<seq<Worktree>, ListError>)
    ensures ReadDir(fs, GetWorktreeDir(env.settings, repo)).Missing? ==> r == Success([])
    ensures ReadDir(fs, GetWorktreeDir(env.settings, repo)).Unreadable? ==> r == Failure(ReadDirFailed(GetWorktreeDir(env.settings, repo)))
    ensures ReadDir(fs, GetWorktreeDir(env.settings, repo)).Entries? ==>
      r.Success? && IsListing(r.value, Listed(GetWorktreeDir(env.settings, repo), ReadDir(fs, GetWorktreeDir(env.settings, repo)).entries, env.probe))
  {
    var worktreeDir := GetWorktreeDir(env.settings, repo);
    var listing := ReadDir(fs, worktreeDir);
    if listing.Missing? {
      return Success([]);
    }
    if listing.Unreadable? {
      return Failure(ReadDirFailed(worktreeDir));
    }
    var worktrees := CollectWorktrees(worktreeDir, listing.entries, env.probe);
    var sorted := SortBy(worktrees, WorktreeKey);
    PermutationMembers(sorted, worktrees);
    return Success(sorted);
  }

  /** A worktree directory belongs to `branch` when it carries the branch's sanitized name or its raw name. */
  predicate Matches(w: Worktree, branch: string) {
    w.Name == SanitizeBranchName(branch) || w.Name == branch
  }

  /**
   * WorktreeExistsForBranch: the first worktree of the sorted listing that
   * belongs to `branch`. A listing that fails counts as no worktree.
   */
  method WorktreeExistsForBranch(fs: FileSystem, env: Env, repo: string, branch: string) returns (found: bool, wt: Option<Worktree>)
    ensures found <==> wt.Some?
    ensures found <==>
      var listing := ReadDir(fs, GetWorktreeDir(env.settings, repo));
      listing.Entries? && exists w :: w in Listed(GetWorktreeDir(env.settings, repo), listing.entries, env.probe) && Matches(w, branch)
    ensures wt.Some? ==>
      var listing := ReadDir(fs, GetWorktreeDir(env.settings, repo));
      var listed := Listed(GetWorktreeDir(env.settings, repo), listing.entries, env.probe);
      && wt.value in listed && Matches(wt.value, branch)
      && forall w :: w in listed && Matches(w, branch) ==> KeyLeq(WorktreeKey(wt.value), WorktreeKey(w))
  {
    var worktrees := ListWorktrees(fs, env, repo);
    if worktrees.Failure? {
      return false, None;
    }
    var ws := worktrees.value;
    var i := 0;
    while i < |ws|
      invariant 0 <= i <= |ws|
      invariant forall k :: 0 <= k < i ==> !Matches(ws[k], branch)
    {
      if Matches(ws[i], branch) {
        FirstMatchLeast(ws, i, branch);
        return true, Some(ws[i]);
      }
      i := i + 1;
    }
    return false, None;
  }

  /** In a sorted listing, the first worktree that belongs to `branch` sorts no later than any other that does. */
  lemma FirstMatchLeast(ws: seq<Worktree>, i: nat, branch: string)
    requires SortedBy(ws, WorktreeKey) && i < |ws|
    requires forall k :: 0 <= k < i ==> !Matches(ws[k], branch)
    ensures forall w :: w in ws && Matches(w, branch) ==> KeyLeq(WorktreeKey(ws[i]), WorktreeKey(w))
  {
    forall w | w in ws && Matches(w, branch) ensures KeyLeq(WorktreeKey(ws[i]), WorktreeKey(w)) {
      var j :| 0 <= j < |ws| && ws[j] == w;
      if j == i {
        StrLeqReflexive(WorktreeKey(w).text);
      }
    }
  }

  /**
   * The worktree created for `branch` sits at its sanitized name (`feat/login`
   * becomes `feat_login`); once that directory exists in a readable project
   * directory, it is listed and belongs to the branch, so WorktreeExistsForBranch
   * finds a worktree for it.
   */
  lemma WorktreeOfBranchFound(fs: FileSystem, env: Env, repo: string, branch: string)
    requires branch != []
    requires GetWorktreeDir(env.settings, repo) != []
    requires ReadDir(fs, GetWorktreeDir(env.settings, repo)).Entries?
    requires Join(GetWorktreeDir(env.settings, repo), SanitizeBranchName(branch)) in fs
    requires fs[Join(GetWorktreeDir(env.settings, repo), SanitizeBranchName(branch))].Directory?
    ensures var dir := GetWorktreeDir(env.settings, repo);
      var w := WorktreeAt(dir, SanitizeBranchName(branch), env.probe);
      && w in Listed(dir, ReadDir(fs, dir).entries, env.probe)
      && Matches(w, branch)
  {
    var dir := GetWorktreeDir(env.settings, repo);
    var name := SanitizeBranchName(branch);
    SanitizedHasNoSlash(branch);
    EntryOfChild(fs, dir, name);
    ListedShape(dir, ReadDir(fs, dir).entries, env.probe, WorktreeAt(dir, name, env.probe));
  }

  /** The order of `ListAllProjects`: case-insensitive by project name. */
  function ProjectKey(p: Project): SortKey {
    SortKey(0, ToLower(p.Name))
  }

  /** The project named `name` lists at least one worktree. */
  ghost predicate HasWorktrees(fs: FileSystem, env: Env, name: string) {
    var dir := GetWorktreeDir(env.settings, name);
    ReadDir(fs, dir).Entries? && Listed(dir, ReadDir(fs, dir).entries, env.probe) != {}
  }

  /** The names of the directory entries `es` of the base directory that make a project. */
  ghost function Qualifying(fs: FileSystem, env: Env, es: set<DirEntry>): set<string> {
    set e | e in es && e.isDir && HasWorktrees(fs, env, e.name) :: e.name
  }

  /** `p` is the project of its name: its directory and a listing of its worktrees. */
  ghost predicate IsProjectOf(p: Project, fs: FileSystem, env: Env) {
    var dir := GetWorktreeDir(env.settings, p.Name);
    && p.Path == dir
    && ReadDir(fs, dir).Entries?
    && IsListing(p.Worktrees, Listed(dir, ReadDir(fs, dir).entries, env.probe))
  }

  function ProjectNames(ps: seq<Project>): set<string> {
    set p | p in ps :: p.Name
  }

  /** `ps` holds one project for each name of `names`, and nothing else. */
  ghost predicate ProjectsFor(ps: seq<Project>, fs: FileSystem, env: Env, names: set<string>) {
    && (forall p :: p in ps ==> IsProjectOf(p, fs, env))
    && ProjectNames(ps) == names
    && (forall p, q :: p in ps && q in ps && p.Name == q.Name ==> p == q)
    && |ps| == |names|
  }

  /** Taking one more entry adds its name when it is a directory with worktrees. */
  lemma QualifyingAdd(fs: FileSystem, env: Env, done: set<DirEntry>, e: DirEntry)
    ensures Qualifying(fs, env, done + {e}) == Qualifying(fs, env, done) + (if e.isDir && HasWorktrees(fs, env, e.name) then {e.name} else {})
  {
  }

  /** A directory entry not yet taken names no project yet: a directory entry is fixed by its name. */
  lemma QualifyingFresh(fs: FileSystem, env: Env, done: set<DirEntry>, e: DirEntry)
    requires e !in done && e.isDir
    ensures e.name !in Qualifying(fs, env, done)
  {
  }

  lemma ProjectNamesSnoc(ps: seq<Project>, p: Project)
    ensures ProjectNames(ps + [p]) == ProjectNames(ps) + {p.Name}
  {
    assert forall q :: q in ps + [p] <==> q in ps || q == p;
  }

  /** Appending the project of a new name keeps `ProjectsFor`. */
  lemma ProjectsSnoc(ps: seq<Project>, fs: FileSystem, env: Env, names: set<string>, p: Project)
    requires ProjectsFor(ps, fs, env, names) && p.Name !in names && IsProjectOf(p, fs, env)
    ensures ProjectsFor(ps + [p], fs, env, names + {p.Name})
  {
    ProjectNamesSnoc(ps, p);
    var next := ps + [p];
    assert forall q :: q in next <==> q in ps || q == p;
  }

  /** `ProjectsFor` speaks of members and length only, so a rearrangement keeps it. */
  lemma ProjectsPermuted(ps: seq<Project>, qs: seq<Project>, fs: FileSystem, env: Env, names: set<string>)
    requires ProjectsFor(ps, fs, env, names) && multiset(qs) == multiset(ps)
    ensures ProjectsFor(qs, fs, env, names)
  {
    PermutationMembers(qs, ps);
    assert ProjectNames(qs) == ProjectNames(ps);
  }

  /** Taking one more entry of the base directory keeps `ProjectsFor`. */
  lemma ProjectStep(ps: seq<Project>, fs: FileSystem, env: Env, done: set<DirEntry>, e: DirEntry, p: Option<Project>)
    requires ProjectsFor(ps, fs, env, Qualifying(fs, env, done)) && e !in done
    requires p.Some? <==> e.isDir && HasWorktrees(fs, env, e.name)
    requires p.Some? ==> p.value.Name == e.name && IsProjectOf(p.value, fs, env)
    ensures ProjectsFor(if p.Some? then ps + [p.value] else ps, fs, env, Qualifying(fs, env, done + {e}))
  {
    QualifyingAdd(fs, env, done, e);
    if p.Some? {
      QualifyingFresh(fs, env, done, e);
      ProjectsSnoc(ps, fs, env, Qualifying(fs, env, done), p.value);
    }
  }

  /** The project a directory of the base directory makes, when its worktrees can be listed and are not empty. */
  method ProjectAt(fs: FileSystem, env: Env, baseDir: string, name: string) returns (p: Option<Project>)
    requires baseDir == GetWorktreeBaseDir(env.settings)
    ensures p.Some? <==> HasWorktrees(fs, env, name)
    ensures p.Some? ==> p.value.Name == name && IsProjectOf(p.value, fs, env)
  {
    var worktrees := ListWorktrees(fs, env, name);
    if worktrees.Success? && |worktrees.value| > 0 {
      return Some(Project(name, Join(baseDir, name), worktrees.value));
    }
    return None;
  }

  /** The projects found in the base directory, before sorting. */
  method CollectProjects(fs: FileSystem, env: Env, baseDir: string, es: set<DirEntry>) returns (projects: seq<Project>)
    requires baseDir == GetWorktreeBaseDir(env.settings)
    ensures ProjectsFor(projects, fs, env, Qualifying(fs, env, es))
  {
    projects := [];
    var pending := es;
    while pending != {}
      invariant pending <= es
      invariant ProjectsFor(projects, fs, env, Qualifying(fs, env, es - pending))
      decreases |pending|
    {
      var e :| e in pending;
      var project: Option<Project> := None;
      if e.isDir {
        project := ProjectAt(fs, env, baseDir, e.name);
      }
      ProjectStep(projects, fs, env, es - pending, e, project);
      assert es - (pending - {e}) == (es - pending) + {e};
      if project.Some? {
        projects := projects + [project.value];
      }
      pending := pending - {e};
    }
    assert es - pending == es;
  }

  /**
   * ListAllProjects: every directory of the base directory whose worktrees can
   * be listed and are not empty is a project; the projects are sorted
   * case-insensitively by name. A missing base directory lists nothing, an
   * unreadable one is an error.
   */
  method ListAllProjects(fs: FileSystem, env: Env) returns (r: Result<seq<Project>, ListError>)
    ensures ReadDir(fs, GetWorktreeBaseDir(env.settings)).Missing? ==> r == Success([])
    ensures ReadDir(fs, GetWorktreeBaseDir(env.settings)).Unreadable? ==> r == Failure(ReadDirFailed(GetWorktreeBaseDir(env.settings)))
    ensures ReadDir(fs, GetWorktreeBaseDir(env.settings)).Entries? ==>
      && r.Success?
      && ProjectsFor(r.value, fs, env, Qualifying(fs, env, ReadDir(fs, GetWorktreeBaseDir(env.settings)).entries))
      && SortedBy(r.value, ProjectKey)
  {
    var baseDir := GetWorktreeBaseDir(env.settings);
    var listing := ReadDir(fs, baseDir);
    if listing.Missing? {
      return Success([]);
    }
    if listing.Unreadable? {
      return Failure(ReadDirFailed(baseDir));
    }
    var projects := CollectProjects(fs, env, baseDir, listing.entries);
    var sorted := SortBy(projects, ProjectKey);
    ProjectsPermuted(projects, sorted, fs, env, Qualifying(fs, env, listing.entries));
    return Success(sorted);
  }

  /** The outcomes of IsMainWorktree. */
  datatype MainError = TopLevelFailed

  /**
   * IsMainWorktree: whether `path`, made absolute against the working
   * directory `cwd`, is the checkout git reports as its top level.
   */
  function IsMainWorktree(cwd: string, path: string, topLevelOutput: Option<string>): (r: Result<bool, MainError>)
    ensures r.Failure? <==> topLevelOutput.None?
  {
    match topLevelOutput
    case None => Failure(TopLevelFailed)
    case Some(output) => Success(Abs(cwd, path) == Abs(cwd, TrimSpace(output)))
  }

  /** The main checkout, named by its absolute path, is the main worktree. */
  lemma MainCheckoutIsMain(cwd: string, main: string)
    requires IsAbs(main) && !IsSpace(main[|main| - 1])
    ensures IsMainWorktree(cwd, main, Some(main + "\n")) == Success(true)
  {
    PrintedPath(main);
  }

  /** The main checkout is recognised when named relative to the working directory too. */
  lemma RelativeSpellingIsMain(cwd: string, rel: string)
    requires IsAbs(cwd) && rel != [] && !IsAbs(rel) && !IsSpace(rel[|rel| - 1])
    ensures IsMainWorktree(cwd, rel, Some(Join(cwd, rel) + "\n")) == Success(true)
  {
    var main := Join(cwd, rel);
    assert main[0] == '/' && !IsSpace(main[0]);
    assert main[|main| - 1] == rel[|rel| - 1];
    PrintedPath(main);
  }

  /** A worktree at another absolute path than the main checkout is not the main worktree. */
  lemma OtherPathIsNotMain(cwd: string, main: string, path: string)
    requires IsAbs(main) && !IsSpace(main[|main| - 1]) && IsAbs(path) && path != main
    ensures IsMainWorktree(cwd, path, Some(main + "\n")) == Success(false)
  {
    PrintedPath(main);
  }
}
