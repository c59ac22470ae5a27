/**
 * Project identity: the name of the repository, shared by all of its linked
 * worktrees, and the directories the tool keeps worktrees in.
 */
module Repository {
  import opened Wrappers
  import opened Text
  import opened Paths

  datatype RepositoryError = NotInRepository | UnableToDetermineName

  /**
   * The common git directory as an absolute path: the answer of
   * `git rev-parse --git-common-dir`, joined onto the answer of
   * `git rev-parse --show-toplevel` when it is relative. `None` when the
   * second command is needed and fails.
   */
  function ResolveCommonDir(commonDir: string, topLevelOutput: Option<string>): (r: Option<string>)
    ensures IsAbs(commonDir) ==> r == Some(commonDir)
    ensures !IsAbs(commonDir) ==> (r.Some? <==> topLevelOutput.Some?)
  {
    if IsAbs(commonDir) then Some(commonDir)
    else match topLevelOutput
      case None => None
      case Some(topLevel) => Some(Join(TrimSpace(topLevel), commonDir))
  }

  /**
   * GetRepositoryName, over the outputs of the two rev-parse commands (`None`
   * when a command fails). The second command runs only for a relative common
   * directory.
   */
  function GetRepositoryName(commonDirOutput: Option<string>, topLevelOutput: Option<string>): (r: Result<string, RepositoryError>)
    ensures r == Failure(NotInRepository) <==>
      commonDirOutput.None? || ResolveCommonDir(TrimSpace(commonDirOutput.value), topLevelOutput).None?
    ensures r.Success? <==>
      commonDirOutput.Some? &&
      var resolved := ResolveCommonDir(TrimSpace(commonDirOutput.value), topLevelOutput);
      resolved.Some? && HasSuffix(resolved.value, ".git")
    ensures r.Success? ==> r.value == Base(Dir(ResolveCommonDir(TrimSpace(commonDirOutput.value), topLevelOutput).value))
  {
    match commonDirOutput
    case None => Failure(NotInRepository)
    case Some(output) =>
      match ResolveCommonDir(TrimSpace(output), topLevelOutput)
      case None => Failure(NotInRepository)
      case Some(commonDir) =>
        if HasSuffix(commonDir, ".git") then Success(Base(Dir(commonDir)))
        else Failure(UnableToDetermineName)
  }

  /** An absolute common directory decides the name alone: the invoking worktree plays no part. */
  lemma TopLevelIrrelevantForAbsoluteCommonDir(commonDirOutput: string, top1: Option<string>, top2: Option<string>)
    requires IsAbs(TrimSpace(commonDirOutput))
    ensures GetRepositoryName(Some(commonDirOutput), top1) == GetRepositoryName(Some(commonDirOutput), top2)
  {
  }

  /** The `.git` directory of the checkout at `repo`. */
  lemma GitDirOf(repo: string)
    requires IsDirectoryPath(repo)
    ensures Join(repo, ".git") == repo + "/.git"
    ensures Dir(repo + "/.git") == repo && HasSuffix(repo + "/.git", ".git")
    ensures !IsSpace((repo + "/.git")[|repo + "/.git"| - 1])
  {
    var common := repo + "/.git";
    assert common[|common| - 4..] == ".git";
    assert common[|common| - 1] == 't';
    DirOfJoin(repo, ".git");
  }

  /** Once the common directory resolves to a `.git` path, the name is that of its parent. */
  lemma NameOfCommonDir(commonDirOutput: string, topLevelOutput: Option<string>, common: string)
    requires ResolveCommonDir(TrimSpace(commonDirOutput), topLevelOutput) == Some(common)
    requires HasSuffix(common, ".git")
    ensures GetRepositoryName(Some(commonDirOutput), topLevelOutput) == Success(Base(Dir(common)))
  {
  }

  /** The answer `.git` of a main checkout, once trimmed, is relative. */
  lemma RelativeGitAnswer()
    ensures TrimSpace(".git\n") == ".git" && !IsAbs(".git")
  {
    assert ".git" + "\n" == ".git\n";
    TrimSpaceOfLine(".git", "\n");
  }

  /** A path printed on its own line trims back to the path. */
  lemma PrintedPath(p: string)
    requires p != [] && !IsSpace(p[0]) && !IsSpace(p[|p| - 1])
    ensures TrimSpace(p + "\n") == p
  {
    TrimSpaceOfLine(p, "\n");
  }

  /** The main checkout at `repo`, where git answers the relative `.git`, is named after `repo`. */
  lemma MainCheckoutName(repo: string)
    requires IsAbs(repo) && IsDirectoryPath(repo) && !IsSpace(repo[|repo| - 1])
    ensures GetRepositoryName(Some(".git\n"), Some(repo + "\n")) == Success(Base(repo))
  {
    GitDirOf(repo);
    RelativeGitAnswer();
    PrintedPath(repo);
    assert ResolveCommonDir(".git", Some(repo + "\n")) == Some(repo + "/.git");
    NameOfCommonDir(".git\n", Some(repo + "\n"), repo + "/.git");
  }

  /**
   * A linked worktree of the repository at `repo`, where git answers the
   * absolute `repo/.git`, gets the same name as the main checkout, wherever the
   * linked worktree itself lies.
   */
  lemma LinkedWorktreeName(repo: string, linkedTopLevel: Option<string>)
    requires IsAbs(repo) && IsDirectoryPath(repo)
    ensures GetRepositoryName(Some(repo + "/.git\n"), linkedTopLevel) == Success(Base(repo))
  {
    GitDirOf(repo);
    var common := repo + "/.git";
    assert common[0] == '/';
    PrintedPath(common);
    assert common + "\n" == repo + "/.git\n";
    NameOfCommonDir(repo + "/.git\n", linkedTopLevel, common);
  }

  /** A common directory that does not end in `.git` yields no name. */
  lemma NoNameWithoutGitSuffix(commonDirOutput: string)
    requires IsAbs(TrimSpace(commonDirOutput)) && !HasSuffix(TrimSpace(commonDirOutput), ".git")
    ensures GetRepositoryName(Some(commonDirOutput), None) == Failure(UnableToDetermineName)
  {
  }

  /** Where worktrees live: the `WORKTREE_BASE_DIR` variable and the configured location. */
  datatype Settings = Settings(baseDirVariable: string, worktreesLocation: string)

  /** GetWorktreeBaseDir: a non-empty `WORKTREE_BASE_DIR` wins over the configured location. */
  function GetWorktreeBaseDir(settings: Settings): string {
    if settings.baseDirVariable != [] then settings.baseDirVariable else settings.worktreesLocation
  }

  /** GetWorktreeDir: the project's directory right below the base directory. */
  function GetWorktreeDir(settings: Settings, repo: string): (r: string)
    ensures IsComponent(repo) ==> Base(r) == repo
    ensures IsComponent(repo) && IsDirectoryPath(GetWorktreeBaseDir(settings)) ==> Dir(r) == GetWorktreeBaseDir(settings)
  {
    var base := GetWorktreeBaseDir(settings);
    assert IsComponent(repo) ==> Base(Join(base, repo)) == repo by {
      if IsComponent(repo) { BaseOfJoin(base, repo); }
    }
    assert IsComponent(repo) && IsDirectoryPath(base) ==> Dir(Join(base, repo)) == base by {
      if IsComponent(repo) && IsDirectoryPath(base) { DirOfJoin(base, repo); }
    }
    Join(base, repo)
  }

  /**
   * A non-empty `WORKTREE_BASE_DIR` decides where every project's worktrees
   * live, whatever location is configured; an empty one leaves it to the
   * configured location.
   */
  lemma BaseDirOverride(settings: Settings, otherLocation: string, repo: string)
    ensures settings.baseDirVariable != [] ==>
      GetWorktreeDir(settings, repo) == GetWorktreeDir(settings.(worktreesLocation := otherLocation), repo)
    ensures IsComponent(repo) && IsDirectoryPath(settings.baseDirVariable) ==>
      Dir(GetWorktreeDir(settings, repo)) == settings.baseDirVariable
    ensures IsComponent(repo) && settings.baseDirVariable == [] && IsDirectoryPath(settings.worktreesLocation) ==>
      Dir(GetWorktreeDir(settings, repo)) == settings.worktreesLocation
  {
  }

  /** Different projects never share a worktree directory. */
  lemma WorktreeDirsDistinct(settings: Settings, repo1: string, repo2: string)
    requires IsComponent(repo1) && IsComponent(repo2) && repo1 != repo2
    ensures GetWorktreeDir(settings, repo1) != GetWorktreeDir(settings, repo2)
  {
  }
}
