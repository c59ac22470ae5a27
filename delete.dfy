/**
 * The `delete` command: pick a worktree of the current project, refuse the
 * main checkout, ask for confirmation, kill the worktree's tmux session and
 * remove the worktree with git.
 */
module DeleteCommand {
  import opened Wrappers
  import opened Text
  import opened Names
  import opened Repository
  import opened Files
  import opened Worktrees
  import opened Lifecycle
  import opened Tmux
  import opened Menus

  /** The index of the first worktree named exactly `name`: the `found`/`break` search. */
  method FindByName(ws: seq<Worktree>, name: string) returns (index: Option<nat>)
    ensures index.Some? ==> index.value < |ws| && ws[index.value].Name == name
    ensures index.Some? ==> forall k :: 0 <= k < index.value ==> ws[k].Name != name
    ensures index.None? <==> forall k :: 0 <= k < |ws| ==> ws[k].Name != name
  {
    var i := 0;
    while i < |ws|
      invariant 0 <= i <= |ws|
      invariant forall k :: 0 <= k < i ==> ws[k].Name != name
    {
      if ws[i].Name == name {
        return Some(i);
      }
      i := i + 1;
    }
    return None;
  }

  /** The line fzf shows for a worktree: name, bracketed branch and path in padded columns. */
  function MenuLine(w: Worktree): string {
    PadRight(w.Name, 30) + " " + PadRight("[" + w.Branch + "]", 20) + " " + w.Path
  }

  /** Choosing a worktree's line in fzf gives back its name, when the name is a single word. */
  lemma MenuLineChoice(w: Worktree)
    requires w.Name != [] && NoSpace(w.Name)
    ensures FzfChoice(MenuLine(w) + "\n") == Some(w.Name)
  {
    var rest := " " + PadRight("[" + w.Branch + "]", 20) + " " + w.Path + "\n";
    assert MenuLine(w) + "\n" == PadRight(w.Name, 30) + rest;
    assert IsSpace(rest[0]);
    PaddedLineChoice(w.Name, 30, rest);
  }

  /** In a listing, the name fzf gives back for a chosen line leads to the very worktree on that line. */
  lemma MenuChoiceFindsWorktree(dir: string, es: set<DirEntry>, probe: string -> BranchProbe, w: Worktree, v: Worktree)
    requires w in Listed(dir, es, probe) && v in Listed(dir, es, probe)
    requires w.Name != [] && NoSpace(w.Name)
    requires Some(v.Name) == FzfChoice(MenuLine(w) + "\n")
    ensures v == w
  {
    MenuLineChoice(w);
    ListedShape(dir, es, probe, w);
    ListedShape(dir, es, probe, v);
  }

  /**
   * selectWorktreeForDeletion: the numbered menu, or fzf, whose answer is
   * resolved by its first field to the worktree of that exact name.
   */
  method SelectWorktreeForDeletion(ws: seq<Worktree>, picker: Picker) returns (r: Result<Worktree, SelectError>)
    ensures picker.Numbered? ==> r == NumberedChoice(ws, picker.choice)
    ensures picker == Fzf(None) ==> r == Failure(SelectionCancelled)
    ensures picker.Fzf? && picker.output.Some? && FzfChoice(picker.output.value).None? ==> r == Failure(NoSelection)
    ensures picker.Fzf? && picker.output.Some? && FzfChoice(picker.output.value).Some? ==>
      var name := FzfChoice(picker.output.value).value;
      && (r.Success? <==> exists k :: 0 <= k < |ws| && ws[k].Name == name)
      && (r.Success? ==> r.value in ws && r.value.Name == name)
      && (r.Failure? ==> r.error == Unmatched)
  {
    match picker
    case Numbered(choice) =>
      return NumberedChoice(ws, choice);
    case Fzf(output) =>
      if output.None? {
        return Failure(SelectionCancelled);
      }
      var name := FzfChoice(output.value);
      if name.None? {
        return Failure(NoSelection);
      }
      var index := FindByName(ws, name.value);
      if index.None? {
        return Failure(Unmatched);
      }
      return Success(ws[index.value]);
  }

  /** The deletion's answer: `yes` in any letter case. */
  predicate Confirmed(answer: string) {
    ToLower(answer) == "yes"
  }

  /** Exactly the three-letter spellings of `yes`, in any mix of cases, confirm. */
  lemma ConfirmedSpellings(answer: string)
    ensures Confirmed(answer) <==>
      && |answer| == 3
      && (answer[0] == 'y' || answer[0] == 'Y')
      && (answer[1] == 'e' || answer[1] == 'E')
      && (answer[2] == 's' || answer[2] == 'S')
  {
    if |answer| == 3 {
      LowerCharInverse(answer[0], 'y');
      LowerCharInverse(answer[1], 'e');
      LowerCharInverse(answer[2], 's');
      assert ToLower(answer) == [LowerChar(answer[0]), LowerChar(answer[1]), LowerChar(answer[2])];
    }
  }

  /**
   * The sessions the delete tries to kill, in order: the primary one when it
   * exists, then the legacy one when it exists and the primary was not killed.
   */
  function KillAttempts(installed: bool, sessions: set<string>, primary: string, legacy: string, killOk: string -> bool): seq<string> {
    if !installed then []
    else
      var killed := primary in sessions && killOk(primary);
      (if primary in sessions then [primary] else []) + (if !killed && legacy in sessions then [legacy] else [])
  }

  /** The sessions actually killed. */
  function Killed(attempts: seq<string>, killOk: string -> bool): set<string> {
    set s | s in attempts && killOk(s)
  }

  function KillCalls(attempts: seq<string>): (r: seq<TmuxCall>)
    ensures |r| == |attempts| && forall k :: 0 <= k < |r| ==> r[k] == KillSessionCall(attempts[k])
  {
    if attempts == [] then [] else [KillSessionCall(attempts[0])] + KillCalls(attempts[1..])
  }

  /** When the primary session is killed, the legacy one is left alone. */
  lemma PrimaryKilledLegacyKept(sessions: set<string>, primary: string, legacy: string, killOk: string -> bool)
    requires primary in sessions && killOk(primary)
    ensures KillAttempts(true, sessions, primary, legacy, killOk) == [primary]
  {
  }

  /** The legacy session is only ever a fallback: tried when it exists and the primary was absent or survived. */
  lemma LegacyOnlyAsFallback(installed: bool, sessions: set<string>, primary: string, legacy: string, killOk: string -> bool)
    requires primary != legacy
    ensures legacy in KillAttempts(installed, sessions, primary, legacy, killOk) <==>
      installed && legacy in sessions && !(primary in sessions && killOk(primary))
  {
  }

  /** At most one session is killed, and only an existing one. */
  lemma AtMostOneKilled(installed: bool, sessions: set<string>, primary: string, legacy: string, killOk: string -> bool)
    ensures var killed := Killed(KillAttempts(installed, sessions, primary, legacy, killOk), killOk);
      |killed| <= 1 && killed <= sessions
  {
    var attempts := KillAttempts(installed, sessions, primary, legacy, killOk);
    var killed := Killed(attempts, killOk);
    if primary in sessions && killOk(primary) && installed {
      assert killed == {primary};
    } else if installed && legacy in sessions && killOk(legacy) {
      assert killed == {legacy};
    } else {
      assert killed == {};
    }
  }

  /** The session clean-up of a delete; a kill that fails is only a warning. */
  method KillWorktreeSessions(server: Server, primary: string, legacy: string, killOk: string -> bool)
    requires primary != legacy
    modifies server
    ensures server.calls == old(server.calls) + KillCalls(KillAttempts(server.installed, old(server.sessions), primary, legacy, killOk))
    ensures server.sessions == old(server.sessions) - Killed(KillAttempts(server.installed, old(server.sessions), primary, legacy, killOk), killOk)
    ensures server.client == old(server.client)
  {
    if !server.installed {
      return;
    }
    var killed := false;
    if server.SessionExists(primary) {
      var err := server.KillSession(primary, killOk(primary));
      killed := err.None?;
    }
    if !killed && server.SessionExists(legacy) {
      var _ := server.KillSession(legacy, killOk(legacy));
    }
  }

  /** What the command is run with: git's answers, the arguments and the user's answers, and the outcome of each kill and of the removal. */
  datatype DeleteRequest = DeleteRequest(
    isRepository: bool,
    commonDirOutput: Option<string>,
    topLevelOutput: Option<string>,
    cwd: string,
    arg: Option<string>,
    picker: Picker,
    force: bool,
    confirmation: string,
    killOk: string -> bool,
    removeOk: bool)

  datatype DeleteOutcome =
    | NotRepository
    | NameUnknown(error: RepositoryError)
    | ListingFailed
    | NoWorktrees
    | NotFound(name: string)
    | SelectionFailed(reason: SelectError)
    | MainUnknown
    | RefusedMain(w: Worktree)
    | Cancelled
    | RemovalFailed(w: Worktree)
    | Deleted(w: Worktree)
  {
    /** The command reached `git worktree remove`. */
    predicate Removing() {
      RemovalFailed? || Deleted?
    }
  }

  /**
   * The worktrees the listing of `repo` shows: none when the project directory
   * is missing, `None` when it cannot be read.
   */
  function ListingOf(fs: FileSystem, env: Env, repo: string): Option<set<Worktree>> {
    var dir := GetWorktreeDir(env.settings, repo);
    match ReadDir(fs, dir)
    case Missing => Some({})
    case Unreadable => None
    case Entries(es) => Some(Listed(dir, es, env.probe))
  }

  /**
   * `w` can be the worktree the delete settles on: a listed worktree of `repo`
   * that is the one named on the command line, or the one whose name fzf gave
   * back, or the one at the chosen number of the sorted listing.
   */
  ghost predicate Selectable(fs: FileSystem, env: Env, repo: string, req: DeleteRequest, w: Worktree) {
    var dir := GetWorktreeDir(env.settings, repo);
    var listing := ListingOf(fs, env, repo);
    && listing.Some? && w in listing.value
    && match req.arg
       case Some(name) => w == WorktreeAt(dir, name, env.probe)
       case None =>
         (match req.picker
          case Fzf(output) =>
            output.Some? && FzfChoice(output.value).Some? && w == WorktreeAt(dir, FzfChoice(output.value).value, env.probe)
          case Numbered(choice) =>
            choice.Some? && exists ws :: IsListing(ws, listing.value) && 1 <= choice.value <= |ws| && ws[choice.value - 1] == w)
  }

  /** Why the user's pick among the non-empty listing `listed` of `dir` fails. */
  ghost predicate SelectionRefused(listed: set<Worktree>, dir: string, probe: string -> BranchProbe, picker: Picker, reason: SelectError) {
    match picker
    case Fzf(None) => reason == SelectionCancelled
    case Fzf(Some(output)) =>
      (match FzfChoice(output)
       case None => reason == NoSelection
       case Some(name) => reason == Unmatched && WorktreeAt(dir, name, probe) !in listed)
    case Numbered(None) => reason == InvalidInput
    case Numbered(Some(c)) => reason == InvalidChoice(c) && !(1 <= c <= |listed|)
  }

  /** Why no worktree of `repo` can be chosen, as the outcome `e` reports it. */
  ghost predicate ChoiceFails(fs: FileSystem, env: Env, repo: string, req: DeleteRequest, e: DeleteOutcome) {
    var dir := GetWorktreeDir(env.settings, repo);
    var listing := ListingOf(fs, env, repo);
    || (e == ListingFailed && listing.None?)
    || (e == NoWorktrees && listing == Some({}))
    || (listing.Some? && listing.value != {} &&
        match req.arg
        case Some(name) => e == NotFound(name) && WorktreeAt(dir, name, env.probe) !in listing.value
        case None => e.SelectionFailed? && SelectionRefused(listing.value, dir, env.probe, req.picker, e.reason))
  }

  /** A successful listing shows exactly what ListingOf holds. */
  lemma ListingShown(fs: FileSystem, env: Env, repo: string, ws: seq<Worktree>)
    requires var listing := ReadDir(fs, GetWorktreeDir(env.settings, repo));
      || (listing.Missing? && ws == [])
      || (listing.Entries? && IsListing(ws, Listed(GetWorktreeDir(env.settings, repo), listing.entries, env.probe)))
    ensures ListingOf(fs, env, repo).Some? && IsListing(ws, ListingOf(fs, env, repo).value)
  {
  }

  /** A listed worktree is the one at its own name. */
  lemma ListedAtName(fs: FileSystem, env: Env, repo: string, w: Worktree)
    requires ListingOf(fs, env, repo).Some? && w in ListingOf(fs, env, repo).value
    ensures w == WorktreeAt(GetWorktreeDir(env.settings, repo), w.Name, env.probe)
  {
    var dir := GetWorktreeDir(env.settings, repo);
    if ReadDir(fs, dir).Entries? {
      ListedShape(dir, ReadDir(fs, dir).entries, env.probe, w);
    }
  }

  /** The worktree to delete: the one named on the command line, or the user's pick. */
  method ChooseWorktree(fs: FileSystem, env: Env, repo: string, req: DeleteRequest) returns (r: Result<Worktree, DeleteOutcome>)
    ensures r.Success? ==> Selectable(fs, env, repo, req, r.value)
    ensures r.Failure? ==> ChoiceFails(fs, env, repo, req, r.error)
  {
    ghost var dir := GetWorktreeDir(env.settings, repo);
    var listed := ListWorktrees(fs, env, repo);
    if listed.Failure? {
      return Failure(ListingFailed);
    }
    var worktrees := listed.value;
    ListingShown(fs, env, repo, worktrees);
    ghost var shown := ListingOf(fs, env, repo).value;
    if |worktrees| == 0 {
      assert shown == {};
      return Failure(NoWorktrees);
    }
    assert worktrees[0] in shown;
    if req.arg.Some? {
      var index := FindByName(worktrees, req.arg.value);
      if index.None? {
        assert WorktreeAt(dir, req.arg.value, env.probe) !in shown;
        return Failure(NotFound(req.arg.value));
      }
      assert worktrees[index.value] in shown;
      ListedAtName(fs, env, repo, worktrees[index.value]);
      return Success(worktrees[index.value]);
    }
    var selected := SelectWorktreeForDeletion(worktrees, req.picker);
    if selected.Failure? {
      if req.picker.Fzf? && req.picker.output.Some? && FzfChoice(req.picker.output.value).Some? {
        var name := FzfChoice(req.picker.output.value).value;
        assert WorktreeAt(dir, name, env.probe) !in shown;
      }
      return Failure(SelectionFailed(selected.error));
    }
    assert selected.value in shown;
    ListedAtName(fs, env, repo, selected.value);
    return Success(selected.value);
  }

  /**
   * The destructive end of the delete: kill the worktree's session (the
   * primary name first, the legacy name as a fallback), then remove the
   * worktree with `git worktree remove --force`, whatever became of the
   * sessions.
   */
  method RemoveSelected(host: Host, server: Server, repo: string, w: Worktree, killOk: string -> bool, removeOk: bool) returns (outcome: DeleteOutcome)
    modifies host, server
    ensures outcome == (if removeOk then Deleted(w) else RemovalFailed(w))
    ensures host.gitLog == old(host.gitLog) + [WorktreeRemove(w.Path, true)]
    ensures host.fs == (if removeOk then RemoveTree(old(host.fs), w.Path) else old(host.fs))
    ensures host.copied == old(host.copied)
    ensures var attempts := KillAttempts(server.installed, old(server.sessions), SessionName(repo, w.Name), LegacySessionName(w.Name), killOk);
      && server.calls == old(server.calls) + KillCalls(attempts)
      && server.sessions == old(server.sessions) - Killed(attempts, killOk)
      && server.client == old(server.client)
  {
    SessionNamesDiffer(repo, w.Name);
    KillWorktreeSessions(server, SessionName(repo, w.Name), LegacySessionName(w.Name), killOk);
    var err := host.RemoveWorktree(w.Path, removeOk);
    if err.Some? {
      return RemovalFailed(w);
    }
    return Deleted(w);
  }

  /**
   * What must hold before anything is killed or removed: the command runs in
   * a repository whose name is `repo`, `w` is the worktree the request
   * selects, `w` is known not to be the main checkout, and the deletion is
   * forced or confirmed.
   */
  ghost predicate Authorized(fs: FileSystem, env: Env, req: DeleteRequest, repo: string, w: Worktree) {
    && req.isRepository
    && GetRepositoryName(req.commonDirOutput, req.topLevelOutput) == Success(repo)
    && Selectable(fs, env, repo, req, w)
    && IsMainWorktree(req.cwd, w.Path, req.topLevelOutput) == Success(false)
    && (req.force || Confirmed(req.confirmation))
  }

  /** Why the delete stops before killing or removing anything, as the outcome `o` reports it. */
  ghost predicate Refused(fs: FileSystem, env: Env, req: DeleteRequest, o: DeleteOutcome) {
    var name := GetRepositoryName(req.commonDirOutput, req.topLevelOutput);
    || (o == NotRepository && !req.isRepository)
    || (req.isRepository && name.Failure? && o == NameUnknown(name.error))
    || (req.isRepository && name.Success? &&
        var repo := name.value;
        || ChoiceFails(fs, env, repo, req, o)
        || (o == MainUnknown && req.topLevelOutput.None? && exists w :: Selectable(fs, env, repo, req, w))
        || (o.RefusedMain? && Selectable(fs, env, repo, req, o.w) && IsMainWorktree(req.cwd, o.w.Path, req.topLevelOutput) == Success(true))
        || (o == Cancelled && !req.force && !Confirmed(req.confirmation) &&
            exists w :: Selectable(fs, env, repo, req, w) && IsMainWorktree(req.cwd, w.Path, req.topLevelOutput) == Success(false)))
  }

  /**
   * The worktree a request names, on the command line or through fzf, is the
   * only one it can select; a numbered pick may tie between worktrees whose
   * names differ only in letter case.
   */
  lemma SelectableUnique(fs: FileSystem, env: Env, repo: string, req: DeleteRequest, w: Worktree, v: Worktree)
    requires req.arg.Some? || req.picker.Fzf?
    requires Selectable(fs, env, repo, req, w) && Selectable(fs, env, repo, req, v)
    ensures w == v
  {
  }

  /** A request that selects a worktree is never refused for want of one. */
  lemma SelectableNotFailed(fs: FileSystem, env: Env, repo: string, req: DeleteRequest, w: Worktree, e: DeleteOutcome)
    requires Selectable(fs, env, repo, req, w)
    ensures !ChoiceFails(fs, env, repo, req, e)
  {
    var listing := ListingOf(fs, env, repo);
    if req.arg.None? && req.picker.Numbered? && req.picker.choice.Some? {
      var ws :| IsListing(ws, listing.value) && 1 <= req.picker.choice.value <= |ws| && ws[req.picker.choice.value - 1] == w;
      assert |ws| == |listing.value|;
    }
  }

  /**
   * An authorized deletion named on the command line or through fzf is never
   * refused: the checks decide one way only.
   */
  lemma AuthorizedNeverRefused(fs: FileSystem, env: Env, req: DeleteRequest, repo: string, w: Worktree, o: DeleteOutcome)
    requires req.arg.Some? || req.picker.Fzf?
    requires Authorized(fs, env, req, repo, w)
    ensures !Refused(fs, env, req, o)
  {
    SelectableNotFailed(fs, env, repo, req, w, o);
    if o.RefusedMain? && Selectable(fs, env, repo, req, o.w) {
      SelectableUnique(fs, env, repo, req, w, o.w);
    }
  }

  /** A refused request authorizes nothing it names on the command line or through fzf. */
  lemma RefusedAuthorizesNothing(fs: FileSystem, env: Env, req: DeleteRequest, o: DeleteOutcome)
    requires Refused(fs, env, req, o)
    ensures forall repo, w :: (req.arg.Some? || req.picker.Fzf?) && Authorized(fs, env, req, repo, w) ==> false
  {
    forall repo, w | (req.arg.Some? || req.picker.Fzf?) && Authorized(fs, env, req, repo, w) ensures false {
      AuthorizedNeverRefused(fs, env, req, repo, w, o);
    }
  }

  /** A request named on the command line or through fzf authorizes at most one deletion. */
  lemma AuthorizedUnique(fs: FileSystem, env: Env, req: DeleteRequest, repo: string, w: Worktree)
    requires req.arg.Some? || req.picker.Fzf?
    requires Authorized(fs, env, req, repo, w)
    ensures forall repo', w' :: Authorized(fs, env, req, repo', w') ==> repo' == repo && w' == w
  {
    forall repo', w' | Authorized(fs, env, req, repo', w') ensures repo' == repo && w' == w {
      SelectableUnique(fs, env, repo, req, w, w');
    }
  }

  /**
   * Everything the delete checks before it acts, in the order the command
   * makes them; no state changes here. A request that names its worktree on
   * the command line or through fzf passes exactly when it is authorized.
   */
  method Preflight(fs: FileSystem, env: Env, req: DeleteRequest) returns (r: Result<(string, Worktree), DeleteOutcome>)
    ensures r.Success? ==> Authorized(fs, env, req, r.value.0, r.value.1)
    ensures r.Failure? ==> Refused(fs, env, req, r.error) && !r.error.RemovalFailed? && !r.error.Deleted?
    ensures forall repo, w :: (req.arg.Some? || req.picker.Fzf?) && Authorized(fs, env, req, repo, w) ==> r == Success((repo, w))
  {
    if !req.isRepository {
      r := Failure(NotRepository);
      RefusedAuthorizesNothing(fs, env, req, r.error);
      return;
    }
    var repoName := GetRepositoryName(req.commonDirOutput, req.topLevelOutput);
    if repoName.Failure? {
      r := Failure(NameUnknown(repoName.error));
      RefusedAuthorizesNothing(fs, env, req, r.error);
      return;
    }
    var chosen := ChooseWorktree(fs, env, repoName.value, req);
    if chosen.Failure? {
      r := Failure(chosen.error);
      RefusedAuthorizesNothing(fs, env, req, r.error);
      return;
    }
    var selected := chosen.value;
    var isMain := IsMainWorktree(req.cwd, selected.Path, req.topLevelOutput);
    if isMain.Failure? {
      r := Failure(MainUnknown);
    } else if isMain.value {
      r := Failure(RefusedMain(selected));
    } else if !req.force && !Confirmed(req.confirmation) {
      r := Failure(Cancelled);
    } else {
      r := Success((repoName.value, selected));
      if req.arg.Some? || req.picker.Fzf? {
        AuthorizedUnique(fs, env, req, repoName.value, selected);
      }
      return;
    }
    RefusedAuthorizesNothing(fs, env, req, r.error);
  }

  /**
   * The `delete` command. Nothing is killed or removed unless the chosen
   * worktree is known not to be the main checkout and the deletion is forced
   * or confirmed; then the sessions are cleaned up and the worktree is
   * removed, whatever became of the sessions.
   */
  method RunDelete(host: Host, server: Server, env: Env, req: DeleteRequest) returns (outcome: DeleteOutcome)
    modifies host, server
    ensures !outcome.Removing() ==>
      && Refused(old(host.fs), env, req, outcome)
      && host.fs == old(host.fs) && host.gitLog == old(host.gitLog) && host.copied == old(host.copied)
      && server.sessions == old(server.sessions) && server.calls == old(server.calls) && server.client == old(server.client)
    ensures outcome.Removing() ==>
      && GetRepositoryName(req.commonDirOutput, req.topLevelOutput).Success?
      && var repo := GetRepositoryName(req.commonDirOutput, req.topLevelOutput).value;
      && var attempts := KillAttempts(server.installed, old(server.sessions), SessionName(repo, outcome.w.Name), LegacySessionName(outcome.w.Name), req.killOk);
      && Authorized(old(host.fs), env, req, repo, outcome.w)
      && outcome == (if req.removeOk then Deleted(outcome.w) else RemovalFailed(outcome.w))
      && host.gitLog == old(host.gitLog) + [WorktreeRemove(outcome.w.Path, true)]
      && host.fs == (if req.removeOk then RemoveTree(old(host.fs), outcome.w.Path) else old(host.fs))
      && host.copied == old(host.copied)
      && server.calls == old(server.calls) + KillCalls(attempts)
      && server.sessions == old(server.sessions) - Killed(attempts, req.killOk)
      && server.client == old(server.client)
    ensures forall repo, w :: (req.arg.Some? || req.picker.Fzf?) && Authorized(old(host.fs), env, req, repo, w) ==>
      outcome == (if req.removeOk then Deleted(w) else RemovalFailed(w))
  {
    var checked := Preflight(host.fs, env, req);
    if checked.Failure? {
      return checked.error;
    }
    var (repo, selected) := checked.value;
    outcome := RemoveSelected(host, server, repo, selected, req.killOk, req.removeOk);
  }
}
