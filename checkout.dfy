/**
 * The `checkout` command: choose a branch, reuse the worktree that already
 * holds it when the user agrees, or else create a worktree for it in a
 * directory named after the sanitized branch, and open a tmux session there.
 */
module CheckoutCommand {
  import opened Wrappers
  import opened Text
  import opened Ordering
  import opened Paths
  import opened Names
  import opened Repository
  import opened Branches
  import opened Files
  import opened Worktrees
  import opened Lifecycle
  import opened Tmux
  import opened Menus

  /** The branches other than `current`, in their listed order. */
  function Others(branches: seq<Branch>, current: string): seq<Branch> {
    if branches == [] then []
    else
      var init := branches[..|branches| - 1];
      var last := branches[|branches| - 1];
      Others(init, current) + (if last.Name != current then [last] else [])
  }

  /** The candidates are exactly the listed branches not named `current`. */
  lemma {:induction false} OthersMembers(branches: seq<Branch>, current: string)
    ensures forall b :: b in Others(branches, current) <==> b in branches && b.Name != current
    ensures |Others(branches, current)| <= |branches|
  {
    if branches != [] {
      var init := branches[..|branches| - 1];
      var last := branches[|branches| - 1];
      assert branches == init + [last];
      OthersMembers(init, current);
    }
  }

  /** No candidate is left exactly when every listed branch is the current one. */
  lemma NoOthers(branches: seq<Branch>, current: string)
    ensures Others(branches, current) == [] <==> NamesOf(branches) <= {current}
  {
    OthersMembers(branches, current);
    if Others(branches, current) == [] {
      forall n | n in NamesOf(branches) ensures n == current {
        var b :| b in branches && b.Name == n;
        assert b !in Others(branches, current);
      }
    } else {
      var b := Others(branches, current)[0];
      assert b in Others(branches, current);
      assert b.Name in NamesOf(branches);
    }
  }

  /** Appending a record with a new name adds one name other than `current`, unless the record is `current`. */
  lemma NamesMinusSnoc(init: seq<Branch>, last: Branch, current: string)
    requires last.Name !in NamesOf(init)
    ensures |NamesOf(init + [last]) - {current}| == |NamesOf(init) - {current}| + (if last.Name != current then 1 else 0)
  {
    NamesOfSnoc(init, last);
    var rest := NamesOf(init) - {current};
    if last.Name != current {
      assert NamesOf(init + [last]) - {current} == rest + {last.Name};
    } else {
      assert NamesOf(init + [last]) - {current} == rest;
    }
  }

  /** With distinct names, there are as many candidates as names other than `current`. */
  lemma {:induction false} OthersCount(branches: seq<Branch>, current: string)
    requires forall i, j :: 0 <= i < j < |branches| ==> branches[i].Name != branches[j].Name
    ensures |Others(branches, current)| == |NamesOf(branches) - {current}|
  {
    if branches != [] {
      var init := branches[..|branches| - 1];
      var last := branches[|branches| - 1];
      assert branches == init + [last];
      assert forall i, j :: 0 <= i < j < |init| ==> init[i].Name != init[j].Name by {
        forall i, j | 0 <= i < j < |init| ensures init[i].Name != init[j].Name {
          assert init[i] == branches[i] && init[j] == branches[j];
        }
      }
      OthersCount(init, current);
      assert last.Name !in NamesOf(init) by {
        forall b | b in init ensures b.Name != last.Name {
          var k :| 0 <= k < |init| && init[k] == b;
          assert branches[k] == b;
        }
      }
      NamesMinusSnoc(init, last, current);
    }
  }

  /** The filter loop of the command: drop the current branch by exact name. */
  method ExcludeCurrent(branches: seq<Branch>, current: string) returns (selectable: seq<Branch>)
    ensures selectable == Others(branches, current)
  {
    selectable := [];
    for i := 0 to |branches|
      invariant selectable == Others(branches[..i], current)
    {
      assert branches[..i + 1][..i] == branches[..i];
      if branches[i].Name != current {
        selectable := selectable + [branches[i]];
      }
    }
    assert branches[..|branches|] == branches;
  }

  /** The current branch the candidates exclude; when git cannot tell, nothing is excluded but an empty name. */
  function CurrentName(currentOutput: Option<string>): string {
    var current := GetCurrentBranch(currentOutput);
    if current.Success? then current.value else ""
  }

  /** Where a branch lives, as the menus show it. */
  function StatusLabel(b: Branch): string {
    if b.IsLocal && b.IsRemote then "[local+remote]"
    else if b.IsLocal then "[local]"
    else "[remote]"
  }

  /** The label tells local from remote-only branches, and among local ones those also on a remote. */
  lemma StatusLabelFaithful(b: Branch, c: Branch)
    requires StatusLabel(b) == StatusLabel(c)
    ensures b.IsLocal == c.IsLocal
    ensures b.IsLocal ==> b.IsRemote == c.IsRemote
  {
    assert "[local+remote]"[1] == 'l' && "[remote]"[1] == 'r' && "[local]"[1] == 'l';
    assert |"[local+remote]"| != |"[local]"|;
  }

  /** The fzf order: local branches first, then by name. */
  function BranchKey(b: Branch): SortKey {
    SortKey(if b.IsLocal then 0 else 1, b.Name)
  }

  /** The `sort.Slice` call of the fzf menu. */
  function MenuOrder(branches: seq<Branch>): (r: seq<Branch>)
    ensures multiset(r) == multiset(branches) && |r| == |branches|
    ensures forall i, j :: 0 <= i < j < |r| && r[j].IsLocal ==> r[i].IsLocal
    ensures forall i, j :: 0 <= i < j < |r| && r[i].IsLocal == r[j].IsLocal ==> StrLeq(r[i].Name, r[j].Name)
  {
    var sorted := SortBy(branches, BranchKey);
    assert forall i, j :: 0 <= i < j < |sorted| ==> KeyLeq(BranchKey(sorted[i]), BranchKey(sorted[j]));
    assert |multiset(sorted)| == |sorted| && |multiset(branches)| == |branches|;
    sorted
  }

  /** The line fzf shows for a branch: its name padded to 40 columns, then its label. */
  function BranchLine(b: Branch): string {
    PadRight(b.Name, 40) + " " + StatusLabel(b)
  }

  /** Choosing a branch's line in fzf gives back the branch's name, when it is a single word. */
  lemma BranchLineChoice(b: Branch)
    requires b.Name != [] && NoSpace(b.Name)
    ensures FzfChoice(BranchLine(b) + "\n") == Some(b.Name)
  {
    var rest := " " + StatusLabel(b) + "\n";
    assert BranchLine(b) + "\n" == PadRight(b.Name, 40) + rest;
    assert IsSpace(rest[0]);
    PaddedLineChoice(b.Name, 40, rest);
  }

  /** selectBranchWithFzf: fzf's answer, reduced to its first field. */
  function SelectBranchWithFzf(output: Option<string>): (r: Result<string, SelectError>)
    ensures output.None? ==> r == Failure(SelectionCancelled)
    ensures r.Failure? ==> r == Failure(SelectionCancelled) || r == Failure(NoSelection)
    ensures r.Success? <==> output.Some? && TrimSpace(output.value) != []
    ensures r.Success? ==> LeadingWord(r.value, TrimSpace(output.value))
  {
    match output
    case None => Failure(SelectionCancelled)
    case Some(text) =>
      var name := FzfChoice(text);
      if name.None? then Failure(NoSelection) else Success(name.value)
  }

  /** selectBranchInteractive: fzf when it is installed, the numbered menu otherwise. */
  function SelectBranchInteractive(branches: seq<Branch>, picker: Picker): (r: Result<string, SelectError>)
    ensures picker.Numbered? ==>
      (r.Success? <==> picker.choice.Some? && 1 <= picker.choice.value <= |branches|)
    ensures picker.Numbered? && r.Success? ==> r.value == branches[picker.choice.value - 1].Name
    ensures picker.Numbered? && r.Failure? ==>
      r.error == (if picker.choice.None? then InvalidInput else InvalidChoice(picker.choice.value))
    ensures picker.Fzf? ==> r == SelectBranchWithFzf(picker.output)
  {
    match picker
    case Fzf(output) => SelectBranchWithFzf(output)
    case Numbered(choice) =>
      var chosen := NumberedChoice(branches, choice);
      if chosen.Failure? then Failure(chosen.error) else Success(chosen.value.Name)
  }

  /** Picking the k-th line of the fzf menu selects the k-th branch of the menu order, which is a candidate. */
  lemma FzfPicksLine(branches: seq<Branch>, k: nat)
    requires k < |branches|
    requires MenuOrder(branches)[k].Name != [] && NoSpace(MenuOrder(branches)[k].Name)
    ensures MenuOrder(branches)[k] in branches
    ensures SelectBranchInteractive(branches, Fzf(Some(BranchLine(MenuOrder(branches)[k]) + "\n"))) == Success(MenuOrder(branches)[k].Name)
  {
    var b := MenuOrder(branches)[k];
    PermutationMembers(MenuOrder(branches), branches);
    assert b in MenuOrder(branches);
    BranchLineChoice(b);
  }

  /** The answers that switch to an existing worktree: `y` or `yes`, in any letter case. */
  predicate AcceptsSwitch(response: string) {
    ToLower(response) == "y" || ToLower(response) == "yes"
  }

  /** Exactly `y`, `Y` and the eight spellings of `yes` accept. */
  lemma AcceptsSwitchSpellings(response: string)
    ensures AcceptsSwitch(response) <==>
      || (|response| == 1 && (response[0] == 'y' || response[0] == 'Y'))
      || (&& |response| == 3
          && (response[0] == 'y' || response[0] == 'Y')
          && (response[1] == 'e' || response[1] == 'E')
          && (response[2] == 's' || response[2] == 'S'))
  {
    if |response| == 1 {
      LowerCharInverse(response[0], 'y');
      assert ToLower(response) == [LowerChar(response[0])];
    }
    if |response| == 3 {
      LowerCharInverse(response[0], 'y');
      LowerCharInverse(response[1], 'e');
      LowerCharInverse(response[2], 's');
      assert ToLower(response) == [LowerChar(response[0]), LowerChar(response[1]), LowerChar(response[2])];
    }
  }

  /** The outcomes of the tmux commands a switch or a session creation may run. */
  datatype TmuxAnswers = TmuxAnswers(sendOk: bool, switchOk: bool, createOk: bool)

  /**
   * The server after switchToWorktree: with tmux installed, an existing
   * session gets the editor command and is switched to; a missing one is
   * created running the command.
   */
  function AfterSwitchToWorktree(s: TmuxState, installed: bool, insideTmux: bool, name: string, path: string, command: string, answers: TmuxAnswers): TmuxState {
    if !installed then s
    else if name in s.sessions then AfterSwitch(AfterSend(s, installed, name, command), installed, insideTmux, name, answers.switchOk)
    else AfterCreateWithCommand(s, installed, insideTmux, name, path, command, answers.createOk, answers.switchOk)
  }

  /**
   * switchToWorktree: probe only the primary session name; when it exists,
   * send the editor command to it and switch to it, otherwise create it
   * running the editor command.
   */
  method SwitchToWorktree(server: Server, repo: string, w: Worktree, editorCommand: string, answers: TmuxAnswers)
    modifies server
    ensures server.State() == AfterSwitchToWorktree(old(server.State()), server.installed, server.insideTmux, SessionName(repo, w.Name), w.Path, editorCommand, answers)
    ensures
      var name := SessionName(repo, w.Name);
      server.installed && name in old(server.sessions) ==>
        && server.calls == old(server.calls) + [SendKeys(FirstPane(name), editorCommand), server.SwitchCall(name)]
        && server.sessions == old(server.sessions)
        && server.client == (if answers.switchOk then Some(name) else old(server.client))
    ensures
      var name := SessionName(repo, w.Name);
      server.installed && name !in old(server.sessions) ==>
        && |server.calls| > |old(server.calls)|
        && server.calls[|old(server.calls)|] == NewSession(name, w.Path, Some(editorCommand), server.insideTmux)
        && server.sessions == old(server.sessions) + (if answers.createOk then {name} else {})
    ensures !server.installed ==> server.State() == old(server.State())
  {
    var sessionName := SessionName(repo, w.Name);
    if !server.installed {
      return;
    }
    if server.SessionExists(sessionName) {
      var _ := server.SendCommandToSession(sessionName, editorCommand, answers.sendOk);
      var _ := server.SwitchToSession(sessionName, answers.switchOk);
    } else {
      var _ := server.CreateSessionWithCommand(sessionName, w.Path, editorCommand, answers.createOk, answers.switchOk);
    }
  }

  /** What the command is run with: git's answers, the argument, the user's answers, and the outcome of each step that can fail. */
  datatype CheckoutRequest = CheckoutRequest(
    isRepository: bool,
    commonDirOutput: Option<string>,
    topLevelOutput: Option<string>,
    arg: Option<string>,
    currentOutput: Option<string>,
    localOutput: Option<string>,
    remoteOutput: Option<string>,
    picker: Picker,
    response: string,
    mkdirOk: bool,
    addOk: bool,
    setup: CopySetup,
    editorCommand: string -> string,
    answers: TmuxAnswers)

  datatype CheckoutOutcome =
    | NotRepository
    | NameUnknown(error: RepositoryError)
    | ListFailed(listError: BranchError)
    | NoOtherBranches
    | SelectionFailed(reason: SelectError)
    | SwitchedToExisting(branch: string, w: Worktree)
    | DeclinedExisting(branch: string, w: Worktree)
    | CreationFailed(branch: string, createError: CreateError)
    | Created(branch: string, path: string, session: string)
  {
    /** The command got as far as a chosen branch. */
    predicate Chosen() {
      SwitchedToExisting? || DeclinedExisting? || CreationFailed? || Created?
    }
  }

  /** A worktree of the repository's listing already holds `branch`, under its raw or its sanitized name. */
  ghost predicate HeldBy(fs: FileSystem, env: Env, repo: string, branch: string, w: Worktree) {
    var listing := ReadDir(fs, GetWorktreeDir(env.settings, repo));
    listing.Entries? && w in Listed(GetWorktreeDir(env.settings, repo), listing.entries, env.probe) && Matches(w, branch)
  }

  /**
   * The worktree the command reuses for `branch`: a holder whose sort key is
   * least among all holders, i.e. the first match in the sorted listing.
   */
  ghost predicate FirstHolder(fs: FileSystem, env: Env, repo: string, branch: string, w: Worktree) {
    && HeldBy(fs, env, repo, branch, w)
    && forall v :: HeldBy(fs, env, repo, branch, v) ==> KeyLeq(WorktreeKey(w), WorktreeKey(v))
  }

  /**
   * The branch the command may settle on, stated over the listed names rather
   * than the menu: the argument when there is one; otherwise a listing
   * failure, an abort when no name but the current one is listed, fzf's first
   * field, or a numbered pick among the other names.
   */
  ghost predicate BranchChoice(req: CheckoutRequest, r: Result<string, CheckoutOutcome>) {
    match req.arg
    case Some(name) => r == Success(name)
    case None =>
      if req.localOutput.None? then r == Failure(ListFailed(ListLocalFailed))
      else if req.remoteOutput.None? then r == Failure(ListFailed(ListRemoteFailed))
      else
        var names := LocalNames(Split(req.localOutput.value, '\n')) + RemoteNames(Split(req.remoteOutput.value, '\n'));
        var current := CurrentName(req.currentOutput);
        if names <= {current} then r == Failure(NoOtherBranches)
        else (match req.picker
          case Fzf(output) =>
            var picked := SelectBranchWithFzf(output);
            r == (if picked.Success? then Success(picked.value) else Failure(SelectionFailed(picked.error)))
          case Numbered(choice) =>
            if choice.Some? && 1 <= choice.value <= |names - {current}| then
              r.Success? && r.value in names && r.value != current
            else
              r == Failure(SelectionFailed(if choice.None? then InvalidInput else InvalidChoice(choice.value))))
  }

  /** The branch to check out: the argument, or the user's pick among the branches other than the current one. */
  method ChooseBranch(req: CheckoutRequest) returns (r: Result<string, CheckoutOutcome>)
    ensures BranchChoice(req, r)
  {
    if req.arg.Some? {
      return Success(req.arg.value);
    }
    var listed := ListAllBranches(req.localOutput, req.remoteOutput);
    if listed.Failure? {
      return Failure(ListFailed(listed.error));
    }
    var current := CurrentName(req.currentOutput);
    var selectable := ExcludeCurrent(listed.value, current);
    NoOthers(listed.value, current);
    if |selectable| == 0 {
      return Failure(NoOtherBranches);
    }
    OthersCount(listed.value, current);
    var candidates := if req.picker.Fzf? then MenuOrder(selectable) else selectable;
    var selected := SelectBranchInteractive(candidates, req.picker);
    if selected.Failure? {
      return Failure(SelectionFailed(selected.error));
    }
    if req.picker.Numbered? {
      var b := candidates[req.picker.choice.value - 1];
      assert b in candidates;
      OthersMembers(listed.value, current);
      NamesListed(listed.value);
      var k :| 0 <= k < |listed.value| && listed.value[k] == b;
    }
    return Success(selected.value);
  }

  /** Why the command stops before a branch is chosen: each early outcome together with its cause. */
  ghost predicate CheckoutRefused(req: CheckoutRequest, o: CheckoutOutcome) {
    if !req.isRepository then o == NotRepository
    else
      var name := GetRepositoryName(req.commonDirOutput, req.topLevelOutput);
      if name.Failure? then o == NameUnknown(name.error)
      else BranchChoice(req, Failure(o))
  }

  /** The checks before anything changes: a repository with a name, and a chosen branch. */
  method Prepare(req: CheckoutRequest) returns (r: Result<(string, string), CheckoutOutcome>)
    ensures r.Failure? ==> CheckoutRefused(req, r.error)
    ensures r.Success? ==>
      && req.isRepository && GetRepositoryName(req.commonDirOutput, req.topLevelOutput) == Success(r.value.0)
      && BranchChoice(req, Success(r.value.1))
  {
    if !req.isRepository {
      return Failure(NotRepository);
    }
    var repoName := GetRepositoryName(req.commonDirOutput, req.topLevelOutput);
    if repoName.Failure? {
      return Failure(NameUnknown(repoName.error));
    }
    var chosen := ChooseBranch(req);
    if chosen.Failure? {
      return Failure(chosen.error);
    }
    return Success((repoName.value, chosen.value));
  }

  /** WorktreeExistsForBranch, as the command reads it. */
  method FindExisting(fs: FileSystem, env: Env, repo: string, branch: string) returns (existing: Option<Worktree>)
    ensures existing.Some? ==> FirstHolder(fs, env, repo, branch, existing.value)
    ensures existing.None? ==> forall w :: !HeldBy(fs, env, repo, branch, w)
  {
    var found, wt := WorktreeExistsForBranch(fs, env, repo, branch);
    return wt;
  }

  /**
   * A new worktree for `branch`: its directory is the sanitized branch name,
   * git is given the raw branch, and a session named after the repository
   * and the directory is opened there running the editor.
   */
  method CreateAndOpen(host: Host, server: Server, env: Env, repo: string, branch: string, req: CheckoutRequest) returns (outcome: CheckoutOutcome)
    modifies host, server
    ensures outcome.CreationFailed? || outcome.Created?
    ensures outcome.branch == branch
    ensures
      var created := CreateOutcome(old(host.fs), env.settings, repo, SanitizeBranchName(branch), req.mkdirOk, req.addOk);
      && (outcome.CreationFailed? <==> created.Failure?)
      && (created.Failure? ==> outcome.createError == created.error)
      && (created.Success? ==> outcome.path == created.value)
    ensures (host.fs, host.copied) == CreatedFiles(old(host.fs), old(host.copied), env.settings, repo, SanitizeBranchName(branch), req.mkdirOk, req.addOk, req.setup)
    ensures
      var created := CreateOutcome(old(host.fs), env.settings, repo, SanitizeBranchName(branch), req.mkdirOk, req.addOk);
      var path := Join(GetWorktreeDir(env.settings, repo), SanitizeBranchName(branch));
      host.gitLog == old(host.gitLog) + (if created.Success? || created == Failure(AddFailed) then [WorktreeAdd(path, branch)] else [])
    ensures outcome.CreationFailed? ==> server.State() == old(server.State())
    ensures outcome.Created? ==>
      && outcome.path == Join(GetWorktreeDir(env.settings, repo), SanitizeBranchName(branch))
      && outcome.session == SessionName(repo, SanitizeBranchName(branch))
      && server.State() == AfterCreateWithCommand(old(server.State()), server.installed, server.insideTmux, outcome.session, outcome.path,
                                                  req.editorCommand(outcome.path), req.answers.createOk, req.answers.switchOk)
  {
    var sanitizedName := SanitizeBranchName(branch);
    var created := host.CreateWorktree(env.settings, repo, sanitizedName, branch, req.mkdirOk, req.addOk, req.setup);
    if created.Failure? {
      return CreationFailed(branch, created.error);
    }
    var worktreePath := created.value;
    var sessionName := SessionName(repo, sanitizedName);
    var _ := server.CreateSessionWithCommand(sessionName, worktreePath, req.editorCommand(worktreePath), req.answers.createOk, req.answers.switchOk);
    return Created(branch, worktreePath, sessionName);
  }

  /**
   * The command once the repository and the branch are known. A worktree that
   * already holds the branch (under its raw or its sanitized name) is never
   * recreated: the command switches to it when the user answers yes, and does
   * nothing otherwise. Otherwise the worktree is created as CreateAndOpen does.
   */
  method OpenBranch(host: Host, server: Server, env: Env, repo: string, branch: string, req: CheckoutRequest) returns (outcome: CheckoutOutcome)
    modifies host, server
    ensures outcome.Chosen() && outcome.branch == branch
    ensures !outcome.Created? && !outcome.CreationFailed? ==> unchanged(host)
    ensures !outcome.Created? && !outcome.SwitchedToExisting? ==> server.State() == old(server.State())
    ensures (exists w :: HeldBy(old(host.fs), env, repo, branch, w)) <==> outcome.SwitchedToExisting? || outcome.DeclinedExisting?
    ensures outcome.SwitchedToExisting? || outcome.DeclinedExisting? ==>
      && FirstHolder(old(host.fs), env, repo, branch, outcome.w)
      && (outcome.SwitchedToExisting? <==> AcceptsSwitch(req.response))
    ensures outcome.SwitchedToExisting? ==>
      server.State() == AfterSwitchToWorktree(old(server.State()), server.installed, server.insideTmux,
                                              SessionName(repo, outcome.w.Name), outcome.w.Path, req.editorCommand(outcome.w.Path), req.answers)
    ensures outcome.Created? || outcome.CreationFailed? ==>
      var created := CreateOutcome(old(host.fs), env.settings, repo, SanitizeBranchName(branch), req.mkdirOk, req.addOk);
      var path := Join(GetWorktreeDir(env.settings, repo), SanitizeBranchName(branch));
      && (outcome.CreationFailed? <==> created.Failure?)
      && (created.Failure? ==> outcome.createError == created.error)
      && (created.Success? ==> outcome.path == created.value)
      && (host.fs, host.copied) == CreatedFiles(old(host.fs), old(host.copied), env.settings, repo, SanitizeBranchName(branch), req.mkdirOk, req.addOk, req.setup)
      && host.gitLog == old(host.gitLog) + (if created.Success? || created == Failure(AddFailed) then [WorktreeAdd(path, branch)] else [])
    ensures outcome.Created? ==>
      && outcome.path == Join(GetWorktreeDir(env.settings, repo), SanitizeBranchName(branch))
      && outcome.session == SessionName(repo, SanitizeBranchName(branch))
      && server.State() == AfterCreateWithCommand(old(server.State()), server.installed, server.insideTmux, outcome.session, outcome.path,
                                                  req.editorCommand(outcome.path), req.answers.createOk, req.answers.switchOk)
  {
    var existing := FindExisting(host.fs, env, repo, branch);
    if existing.Some? {
      if AcceptsSwitch(req.response) {
        SwitchToWorktree(server, repo, existing.value, req.editorCommand(existing.value.Path), req.answers);
        return SwitchedToExisting(branch, existing.value);
      }
      return DeclinedExisting(branch, existing.value);
    }
    outcome := CreateAndOpen(host, server, env, repo, branch, req);
  }

  /**
   * The `checkout` command: the checks of Prepare, then OpenBranch on the
   * repository's name and the chosen branch.
   */
  method RunCheckout(host: Host, server: Server, env: Env, req: CheckoutRequest) returns (outcome: CheckoutOutcome)
    modifies host, server
    ensures !outcome.Created? && !outcome.CreationFailed? ==> unchanged(host)
    ensures !outcome.Created? && !outcome.SwitchedToExisting? ==> server.State() == old(server.State())
    ensures !outcome.Chosen() ==> CheckoutRefused(req, outcome)
    ensures outcome.Chosen() ==>
      && req.isRepository && GetRepositoryName(req.commonDirOutput, req.topLevelOutput).Success?
      && BranchChoice(req, Success(outcome.branch))
    ensures outcome.Chosen() ==>
      var repo := GetRepositoryName(req.commonDirOutput, req.topLevelOutput).value;
      && ((exists w :: HeldBy(old(host.fs), env, repo, outcome.branch, w)) <==> outcome.SwitchedToExisting? || outcome.DeclinedExisting?)
      && (outcome.SwitchedToExisting? || outcome.DeclinedExisting? ==>
            FirstHolder(old(host.fs), env, repo, outcome.branch, outcome.w) && (outcome.SwitchedToExisting? <==> AcceptsSwitch(req.response)))
    ensures outcome.SwitchedToExisting? ==>
      var repo := GetRepositoryName(req.commonDirOutput, req.topLevelOutput).value;
      server.State() == AfterSwitchToWorktree(old(server.State()), server.installed, server.insideTmux,
                                              SessionName(repo, outcome.w.Name), outcome.w.Path, req.editorCommand(outcome.w.Path), req.answers)
    ensures outcome.Created? || outcome.CreationFailed? ==>
      var repo := GetRepositoryName(req.commonDirOutput, req.topLevelOutput).value;
      var created := CreateOutcome(old(host.fs), env.settings, repo, SanitizeBranchName(outcome.branch), req.mkdirOk, req.addOk);
      var path := Join(GetWorktreeDir(env.settings, repo), SanitizeBranchName(outcome.branch));
      && (outcome.CreationFailed? <==> created.Failure?)
      && (created.Failure? ==> outcome.createError == created.error)
      && (created.Success? ==> outcome.path == created.value)
      && (host.fs, host.copied) == CreatedFiles(old(host.fs), old(host.copied), env.settings, repo, SanitizeBranchName(outcome.branch), req.mkdirOk, req.addOk, req.setup)
      && host.gitLog == old(host.gitLog) + (if created.Success? || created == Failure(AddFailed) then [WorktreeAdd(path, outcome.branch)] else [])
    ensures outcome.Created? ==>
      var repo := GetRepositoryName(req.commonDirOutput, req.topLevelOutput).value;
      && outcome.path == Join(GetWorktreeDir(env.settings, repo), SanitizeBranchName(outcome.branch))
      && outcome.session == SessionName(repo, SanitizeBranchName(outcome.branch))
      && server.State() == AfterCreateWithCommand(old(server.State()), server.installed, server.insideTmux, outcome.session, outcome.path,
                                                  req.editorCommand(outcome.path), req.answers.createOk, req.answers.switchOk)
  {
    var prepared := Prepare(req);
    if prepared.Failure? {
      return prepared.error;
    }
    var (repo, selectedBranch) := prepared.value;
    outcome := OpenBranch(host, server, env, repo, selectedBranch, req);
  }
}
