# wt — a Dafny model of the worktree manager's core

`wt` maps git branches to worktree directories laid out as
`<baseDir>/<project>/<worktree>` and pairs each worktree with a tmux session.
This project models the name and identity logic of that tool and proves
properties of it:

- the two name sanitizers (branch to directory name, name to tmux session name);
- project identity from git's common directory, and the base and project directories;
- the branch catalog that merges local and remote listings;
- the worktree store over an abstract file system: listing, lookup by branch,
  project listing, creation with the best-effort copy of configured files,
  removal, the main-checkout test and the branch label;
- the tmux server as a set of sessions, with the reuse-or-create and switch policies;
- the decision logic of the `delete` and `checkout` commands.

Every external command (git, tmux, fzf, the glob expansion, the file system
calls that can fail) is an input: its output, or whether it succeeds, is a
parameter of the operation that runs it. The file system is a map from paths
to nodes (`Files.FileSystem`); the machine is a `Lifecycle.Host` object whose
file system, git command log and printed copies change in place; the tmux
server is a `Tmux.Server` object whose session set, attached client and
command log change in place.

Modules, one per file: `Wrappers` (Option, Result), `Text` (trimming,
fields, lines, ASCII lowering, padding), `Ordering` (Go string order and the
`sort.Slice` calls), `Paths` (`filepath.Join`/`Base`/`Dir`/`Abs`/`Rel`),
`Names`, `Repository`, `Branches`, `Files`, `Worktrees`, `Lifecycle`,
`Tmux`, `Menus` (fzf and numbered menus), `DeleteCommand`, `CheckoutCommand`.

## Model

| member | source | states |
|---|---|---|
| Names.SanitizeBranchName | internal/git/worktree.go:71-86 | same length; each of `/ : space \ * ? < > \| "` becomes `_`, every other character is kept |
| Names.SanitizeSessionName | internal/tmux/session.go:123-134 | same length; each of `: . space / \` becomes `_`, every other character is kept |
| Names.SanitizeBranchNameIdempotent | internal/git/worktree.go:73-85 | sanitizing a directory name again changes nothing |
| Names.SanitizeSessionNameIdempotent | internal/tmux/session.go:126-133 | sanitizing a session name again changes nothing |
| Names.SanitizeBranchNameFixed | internal/git/worktree.go:73-85 | a branch is its own directory name exactly when it has no character of the table |
| Names.SanitizeSessionNameFixed | internal/tmux/session.go:126-133 | a name is its own session name exactly when it has no character of the table |
| Names.DotTablesDiffer | internal/tmux/session.go:128 | `.` survives in a directory name (`v1.2`) but not in a session name (`v1_2`) |
| Names.StarTablesDiffer | internal/git/worktree.go:78 | `*` is replaced in a directory name but kept in a session name |
| Names.SessionOfBranchDirectory | cmd/worktree/checkout.go:96-109 | the session name of a sanitized directory name replaces the characters of both tables |
| Names.SlashBranchDirectory | internal/git/worktree.go:74 | `prefix/name` with safe parts becomes the directory `prefix_name` |
| Names.SanitizedHasNoSlash | internal/git/worktree.go:74 | a sanitized branch never contains `/`, so it names one directory level |
| Names.SessionName | cmd/worktree/delete.go:112 | length repo + 1 + worktree: the sanitized repository name, one `-`, then the sanitized worktree name; sanitizing it again changes nothing |
| Names.LegacySessionName | cmd/worktree/delete.go:113 | the worktree name's length, and a valid session name: sanitizing it again changes nothing |
| Names.SessionNamesDiffer | cmd/worktree/delete.go:110-113 | the primary and the legacy session names of a worktree never coincide |
| Repository.ResolveCommonDir | internal/git/repository.go:27-39 | an absolute common dir is kept; a relative one resolves exactly when `--show-toplevel` answers |
| Repository.GetRepositoryName | internal/git/repository.go:19-50 | "not in a git repository" exactly when a rev-parse fails; a name exactly when the resolved dir ends in `.git`, and then it is `Base(Dir(commonDir))` |
| Repository.TopLevelIrrelevantForAbsoluteCommonDir | internal/git/repository.go:27-39 | with an absolute common dir, the top level (the invoking worktree) plays no part |
| Repository.NameOfCommonDir | internal/git/repository.go:42-46 | a common dir resolving to a `.git` path names its parent directory |
| Repository.MainCheckoutName | internal/git/repository.go:21-46 | in the main checkout at `repo` (git answers `.git`), the name is `Base(repo)` |
| Repository.LinkedWorktreeName | internal/git/repository.go:42-46 | every linked worktree sharing `<repo>/.git` gets the name `Base(repo)`, whatever its own top level |
| Repository.NoNameWithoutGitSuffix | internal/git/repository.go:42-49 | a common dir not ending in `.git` gives "unable to determine repository name" |
| Repository.BaseDirOverride | internal/git/repository.go:52-62 | a non-empty `WORKTREE_BASE_DIR` makes the project directory independent of the configured location and places it right below that variable; an empty one places it right below the configured location |
| Repository.GetWorktreeDir | internal/git/repository.go:60-62 | the project directory is right below the base directory: its `Base` is the project and its `Dir` the base |
| Repository.WorktreeDirsDistinct | internal/git/repository.go:60-62 | different projects never share a worktree directory |
| Branches.GetCurrentBranch | internal/git/branch.go:19-26 | an error exactly when the command fails; otherwise the trimmed output |
| Branches.StripRemote | internal/git/branch.go:70-82 | `^[^/]+/(.+)$`: a result is the non-empty text after the first `/`, preceded by a non-empty remote |
| Branches.StripRemoteOf | internal/git/branch.go:80-82 | `remote/rest` gives `rest`, so `origin/feat/x` gives `feat/x` |
| Branches.RemoteName | internal/git/branch.go:73-82 | blank lines and refs ending in `/HEAD` contribute nothing; a contributed name is non-empty |
| Branches.CollectLocal | internal/git/branch.go:53-61 | one local record per non-blank trimmed line, keyed by its name |
| Branches.MarkRemoteStep | internal/git/branch.go:83-90 | a remote ref marks an existing record remote, or adds a remote-only one, keeping one record per name |
| Branches.MergeRemote | internal/git/branch.go:73-92 | after the remote loop the map has exactly the local and remote names, each with both flags right |
| Branches.Records | internal/git/branch.go:94-98 | the map's records as a sequence in some order, one per name |
| Branches.ListAllBranches | internal/git/branch.go:43-101 | an error exactly when a listing command fails; otherwise the merged catalog of the two listings |
| Branches.BranchExists | internal/git/branch.go:112-124 | true exactly when some local or remote listing line names the branch exactly |
| Branches.DistinctNamesCount | internal/git/branch.go:94-98 | the catalog has as many records as distinct names |
| Branches.CatalogEntriesFlagged | internal/git/branch.go:53-92 | every record is local or remote |
| Branches.LocalAndRemoteMerge | internal/git/branch.go:83-90 | local `x` plus `origin/x` gives exactly the one record `{x, local, remote}` |
| Branches.HeadPointerIgnored | internal/git/branch.go:73-82 | dropping a `*/HEAD` line from the remote listing leaves the remote names, and so the catalog, unchanged |
| Ordering.StrLeqTransitive | internal/git/worktree.go:47 | Go's string order is transitive (with totality and antisymmetry beside it) |
| Ordering.SortBy | internal/git/worktree.go:46-48 | a `sort.Slice` result is a permutation of its input, sorted by the key; ties in any order |
| Paths.BaseOfJoin | internal/git/repository.go:44-45 | `Base(Join(d, c)) == c` for a single component `c` |
| Paths.DirOfJoin | internal/git/repository.go:44 | `Dir(Join(d, c)) == d` for a directory without trailing `/` |
| Paths.Rel | internal/git/worktree.go:199-203 | refused exactly when the base or the target is relative; an answer that descends from the base, joined to it, gives the target back |
| Paths.JoinRelative | internal/git/worktree.go:205 | for an answer that descends from the base it is plain `Join`; leading `../` steps climb to the parent |
| Paths.RelOfJoin | internal/git/worktree.go:199-205 | `Rel(base, Join(base, rel)) == rel` for an absolute base and a non-empty `rel` other than `.` |
| Paths.RelToSibling | internal/git/worktree.go:199-203 | from `p/a` to the sibling `p/b` the answer is `../b`, not an error |
| Paths.JoinRelativeSibling | internal/git/worktree.go:205 | `../b` joined onto `p/w` is the sibling `p/b` |
| Files.MkdirAll | internal/git/worktree.go:143 | fails exactly when the call fails or a file is in the way; otherwise the path is a directory, nothing else changes, and an existing directory leaves the file system as it was |
| Files.ChildEntry | internal/git/worktree.go:28-35 | a listing entry names a path right below the directory, a directory exactly when the entry says so |
| Files.EntryNamesUnique | internal/git/worktree.go:28 | a name appears at most once in a listing |
| Worktrees.GetWorktreeBranch | internal/git/worktree.go:294-319 | `unknown` when both branch queries fail; a detached worktree is `detached` or `detached@<hash>`; otherwise the trimmed branch; never empty, never `HEAD` |
| Worktrees.GetWorktreeBranchAsWritten | internal/git/worktree.go:294-319 | as the source runs it: `unknown` when both queries fail; the trimmed answer `HEAD` gives `detached@<hash>` (or `detached`); any other answer, blank included, is the label |
| Worktrees.DetachedShowCurrentLabel | internal/git/worktree.go:296-308 | as written, the empty answer of `--show-current` for a detached worktree yields the empty label |
| Worktrees.DetachedShowCurrentCorrected | internal/git/worktree.go:307-315 | corrected, that answer yields `detached@<hash>` |
| Worktrees.LabelsDifferOnlyWhenBlank | internal/git/worktree.go:296-315 | the label as written and the corrected one differ exactly when git's branch answer is blank; then the first is empty and the second `detached@<hash>` |
| Worktrees.DetachedFallbackLabel | internal/git/worktree.go:299-315 | when `--show-current` fails and rev-parse says `HEAD`, the label is `detached@<hash>` |
| Worktrees.ListedShape | internal/git/worktree.go:34-43 | a listed worktree is exactly a directory entry, at `Join(dir, name)`, with git's label for that path |
| Worktrees.CollectWorktrees | internal/git/worktree.go:33-44 | the loop collects every directory entry once and skips the others |
| Worktrees.ListWorktrees | internal/git/worktree.go:21-51 | missing directory: empty list; unreadable: an error; otherwise exactly the listed worktrees, each once, sorted by lowercased name |
| Worktrees.WorktreeExistsForBranch | internal/git/worktree.go:53-69 | found exactly when a listed worktree is named by the raw or the sanitized branch; the one returned matches and comes first in the sorted listing |
| Worktrees.FirstMatchLeast | internal/git/worktree.go:62-66 | the first match in a sorted listing has the least key among all matches |
| Worktrees.WorktreeOfBranchFound | internal/git/worktree.go:59-66 | once the directory named by a branch's sanitized name exists in a readable project directory, it is listed and matches the branch, whatever characters the branch has |
| Worktrees.ProjectAt | internal/git/worktree.go:108-127 | a project is produced exactly when its worktree listing reads and is non-empty; it has `Path == Join(baseDir, name)` |
| Worktrees.CollectProjects | internal/git/worktree.go:106-128 | the loop keeps exactly the qualifying project directories, one project each |
| Worktrees.ProjectsPermuted | internal/git/worktree.go:131-133 | reordering the projects keeps them the same set of projects |
| Worktrees.ListAllProjects | internal/git/worktree.go:94-136 | missing base: empty; unreadable: an error; otherwise exactly the readable non-empty projects, sorted by lowercased name |
| Worktrees.IsMainWorktree | internal/git/worktree.go:270-292 | an error exactly when `--show-toplevel` fails; otherwise the absolute paths are compared |
| Worktrees.MainCheckoutIsMain | internal/git/worktree.go:278-291 | the top level itself is the main worktree |
| Worktrees.RelativeSpellingIsMain | internal/git/worktree.go:281-291 | a relative spelling of the top level is the main worktree too |
| Worktrees.OtherPathIsNotMain | internal/git/worktree.go:281-291 | any other absolute path is not the main worktree |
| Lifecycle.CopyFile | internal/git/worktree.go:231-257 | fails exactly when the source is missing, the I/O fails or a directory is in the way; a directory source changes nothing; only the destination changes |
| Lifecycle.UnmatchedPatternSilent | internal/git/worktree.go:192-195 | a pattern matching nothing changes nothing and reports nothing |
| Lifecycle.DirectorySourceReported | internal/git/worktree.go:244-247 | a directory source is skipped but still printed as copied |
| Lifecycle.CopyOneReported | internal/git/worktree.go:197-221 | each source adds exactly one printed copy or one collected failure |
| Lifecycle.EverySourceReported | internal/git/worktree.go:197-221 | a failure never ends the loop: copies plus failures grow by the number of sources, both only by appending |
| Lifecycle.PatternReported | internal/git/worktree.go:184-196 | a pattern yields one outcome per match, or one failure when the glob fails |
| Lifecycle.CopyOneConfined | internal/git/worktree.go:199-218 | copying one source keeps every directory, and changes only paths inside the worktree when the source lies at or below the main checkout |
| Lifecycle.CopyEscapesWorktree | internal/git/worktree.go:186-220 | a match `../b` beside the main checkout is written to `b` beside the new worktree and printed as `Copied: ../b`: the copy is not confined |
| Lifecycle.JoinedSourceStaysBelow | internal/git/worktree.go:186-199 | a match spelled `<main>/<rel>` with a `rel` that does not climb lies below the main checkout |
| Lifecycle.CopyAllConfined | internal/git/worktree.go:197-221 | all matches of a pattern keep every directory, and change only paths inside the worktree when every match lies below the main checkout |
| Lifecycle.CopyPatternsConfined | internal/git/worktree.go:184-222 | the whole copy keeps every directory, and changes only paths inside the worktree when no match climbs out of the main checkout |
| Lifecycle.RemoveTree | internal/git/worktree.go:261 | removal deletes exactly the path and everything below it |
| Lifecycle.CreateOutcome | internal/git/worktree.go:138-166 | `DirectoryFailed` exactly when mkdir fails or a file is in the way; success exactly when mkdir succeeds, the path is free and `git worktree add` succeeds; an existing path is reported with its name and path; the result is `Join(dir, name)`, with `Base` the name and `Dir` the project directory |
| Lifecycle.Host.CopyMatches | internal/git/worktree.go:197-221 | the inner loop's new state is the copy fold over the matches; no git command runs |
| Lifecycle.Host.CopyConfiguredFiles | internal/git/worktree.go:168-229 | unknown root: an error and no change; otherwise the state of the copy fold, and an error exactly when a failure was collected |
| Lifecycle.CreatedFiles | internal/git/worktree.go:138-166 | the file system and copy list a creation leaves: the list is untouched when creation fails, and the new worktree is a directory afterwards when it succeeds |
| Lifecycle.Host.CreateWorktree | internal/git/worktree.go:138-166 | the answer is CreateOutcome and the file system and copy list are CreatedFiles, whatever the copy does; a failed mkdir changes nothing, an existing path runs no git command; on success the new state is the added directory followed by the copy fold from the trimmed top level (no copy when it is unknown); every directory is kept, and the copy stays inside the new worktree when no match climbs out of the main checkout |
| Lifecycle.Host.RemoveWorktree | internal/git/worktree.go:259-268 | always `worktree remove --force <path>`; on success the tree is gone, otherwise nothing changes |
| Lifecycle.AddedIsListed | internal/git/worktree.go:153 | a created worktree directory appears in the project's listing |
| Lifecycle.RemovedNotListed | internal/git/worktree.go:259-268 | a removed worktree no longer appears in the listing |
| Tmux.FirstPane | internal/tmux/session.go:85 | `send-keys` targets `<session>:0.0` |
| Tmux.Server.SwitchToSessionAsWritten | internal/tmux/session.go:94-121 | as the source runs it: outside tmux nothing runs and nothing is reported |
| Tmux.Server.SwitchToSession | internal/tmux/session.go:94-121 | `switch-client` inside tmux, `attach-session` outside; only a failed switch inside tmux is reported; the whole server state (sessions unchanged, the client moved on success, the one call appended) is AfterSwitch |
| Tmux.SwitchOutsideTmuxLost | internal/tmux/session.go:103-118 | outside tmux the source leaves the terminal unattached, the corrected switch attaches it |
| Tmux.Server.CreateSession | internal/tmux/session.go:26-46 | no tmux: no change; an existing session is switched to, nothing created; otherwise exactly that session is added detached, then switched to |
| Tmux.Server.CreateSessionWithCommand | internal/tmux/session.go:48-77 | as above, with the command; inside tmux created detached then switched to, outside started attached; the whole server state is AfterCreateWithCommand |
| Tmux.SessionReadyAfterCreate | internal/tmux/session.go:48-77 | when the session existed or its creation succeeded, it is among the sessions afterwards, and the client is on it exactly when the switch succeeded or it was started attached, else the client is unchanged |
| Tmux.Server.SendCommandToSession | internal/tmux/session.go:79-92 | one `send-keys` to the first pane when tmux is installed; sessions and client unchanged (AfterSend) |
| Tmux.Server.KillSession | cmd/worktree/delete.go:119 | one `kill-session`; the session is gone exactly when the kill succeeds |
| Menus.FzfChoice | cmd/worktree/delete.go:198-207 | nothing exactly when fzf's trimmed answer is blank; otherwise the leading word of the trimmed answer, followed by its end or by a space |
| Menus.PaddedLineChoice | cmd/worktree/delete.go:179 | a menu line starting with a padded one-word name gives that name back |
| Menus.NumberedChoice | cmd/worktree/delete.go:161-172 | invalid input, or an invalid choice outside `1..len`; otherwise item `choice-1` |
| DeleteCommand.FindByName | cmd/worktree/delete.go:53-65 | the first index whose name equals the argument exactly, or none exactly when no name does |
| DeleteCommand.MenuLineChoice | cmd/worktree/delete.go:178-181 | choosing a worktree's menu line gives back its name |
| DeleteCommand.MenuChoiceFindsWorktree | cmd/worktree/delete.go:204-212 | in a listing, the name read back from a chosen line leads to the very worktree on that line |
| DeleteCommand.SelectWorktreeForDeletion | cmd/worktree/delete.go:149-216 | numbered menu bounds; fzf cancelled, blank, or resolved by first field to a worktree of that exact name, else unmatched |
| DeleteCommand.ConfirmedSpellings | cmd/worktree/delete.go:100-106 | only the three-letter spellings of `yes` in any letter case confirm |
| DeleteCommand.PrimaryKilledLegacyKept | cmd/worktree/delete.go:115-131 | when the primary session is killed, the legacy one is not touched |
| DeleteCommand.LegacyOnlyAsFallback | cmd/worktree/delete.go:125-131 | the legacy session is tried exactly when tmux is installed, it exists and the primary was absent or survived |
| DeleteCommand.AtMostOneKilled | cmd/worktree/delete.go:115-131 | at most one session is killed, and only an existing one |
| DeleteCommand.KillWorktreeSessions | cmd/worktree/delete.go:109-132 | the kill commands and the sessions removed are those of the kill policy; nothing else changes |
| DeleteCommand.ChooseWorktree | cmd/worktree/delete.go:37-74 | a chosen worktree is in the listing and is the one the argument, the fzf word or the menu number selects; each failure comes with its cause: unreadable listing, empty listing, no worktree of that name, or a refused pick |
| DeleteCommand.SelectableNotFailed | cmd/worktree/delete.go:37-74 | a request that selects a worktree is never refused for want of one |
| DeleteCommand.Preflight | cmd/worktree/delete.go:26-107 | success only when authorized (repository, selected worktree, known not main, forced or confirmed); every refusal with its cause; a request naming its worktree by argument or fzf succeeds whenever it is authorized |
| DeleteCommand.AuthorizedNeverRefused | cmd/worktree/delete.go:26-107 | an authorized deletion named by argument or fzf is never refused |
| DeleteCommand.RefusedAuthorizesNothing | cmd/worktree/delete.go:26-107 | a refused request authorizes no deletion named by argument or fzf |
| DeleteCommand.AuthorizedUnique | cmd/worktree/delete.go:53-65 | a request named by argument or fzf authorizes at most one repository and worktree |
| DeleteCommand.RemoveSelected | cmd/worktree/delete.go:109-141 | the kill commands and removed sessions of the kill policy, client unchanged; then one `worktree remove --force`; the tree is gone exactly when removal succeeds, otherwise the file system is as it was |
| DeleteCommand.RunDelete | cmd/worktree/delete.go:25-143 | a refusal (with its cause) changes nothing; otherwise the authorized worktree gets exactly the kill policy and one forced removal; a worktree named by argument or fzf that is authorized is removed (or its removal fails) |
| CheckoutCommand.OthersMembers | cmd/worktree/checkout.go:56-63 | the candidates are exactly the listed branches not named like the current one |
| CheckoutCommand.NoOthers | cmd/worktree/checkout.go:65-68 | no candidate is left exactly when every listed branch is the current one |
| CheckoutCommand.OthersCount | cmd/worktree/checkout.go:56-63 | with distinct names, there are as many candidates as listed names other than the current one |
| CheckoutCommand.ExcludeCurrent | cmd/worktree/checkout.go:56-63 | the filter loop yields the candidates in listing order |
| CheckoutCommand.StatusLabelFaithful | cmd/worktree/checkout.go:137-144 | the label tells local from remote-only, and local-only from local+remote |
| CheckoutCommand.MenuOrder | cmd/worktree/checkout.go:163-169 | a permutation with every local branch before every non-local one, and names ascending within each group |
| CheckoutCommand.BranchLineChoice | cmd/worktree/checkout.go:172-183 | choosing a branch's menu line gives back its name |
| CheckoutCommand.SelectBranchWithFzf | cmd/worktree/checkout.go:162-214 | cancelled when fzf fails; no selection when blank; otherwise the leading word of the trimmed answer |
| CheckoutCommand.SelectBranchInteractive | cmd/worktree/checkout.go:128-160 | numbered choices valid exactly in `1..len`, giving that branch's name, otherwise invalid input or an invalid choice; with fzf, the fzf answer |
| CheckoutCommand.FzfPicksLine | cmd/worktree/checkout.go:162-211 | picking the k-th menu line selects the k-th branch of the menu order, which is a candidate |
| CheckoutCommand.AcceptsSwitchSpellings | cmd/worktree/checkout.go:84-86 | only `y`, `Y` and the spellings of `yes` switch to an existing worktree |
| CheckoutCommand.SwitchToWorktree | cmd/worktree/checkout.go:216-247 | probes only the primary session: if it exists, send the editor command then switch; otherwise create it running the command; the whole server state (sessions, client, call log) is AfterSwitchToWorktree, and without tmux nothing changes |
| CheckoutCommand.ChooseBranch | cmd/worktree/checkout.go:43-75 | the argument; otherwise a listing failure, an abort exactly when every listed name is the current one, fzf's word (or its failure), or for a number in `1..#other names` a listed name other than the current one and an invalid choice otherwise |
| CheckoutCommand.Prepare | cmd/worktree/checkout.go:26-75 | not a repository, no name, or the choice's failure, each with its cause; otherwise the repository's name and the branch the choice allows |
| CheckoutCommand.FindExisting | cmd/worktree/checkout.go:78 | the worktree holding the branch whose sort key is least among all holders (the first match in the sorted listing), or none exactly when no listed worktree holds it |
| CheckoutCommand.OpenBranch | cmd/worktree/checkout.go:77-124 | a worktree already holding the branch exactly when it is switched to or declined, and then it is the holder with the least sort key, as FindExisting returns it; switched to exactly on `y`/`yes`; a switch leaves the server in AfterSwitchToWorktree for that worktree's session, path and editor command; otherwise creation exactly as CreateAndOpen states it; the host is untouched unless creating, the server (client included) unless switching or created |
| CheckoutCommand.CreateAndOpen | cmd/worktree/checkout.go:95-124 | fails exactly when CreateOutcome fails, with its error; otherwise the path CreateOutcome gives (the sanitized branch below the project directory); the file system and copy list are CreatedFiles, git logs the add of the raw branch exactly when it ran; on failure the server is unchanged, on success its state is AfterCreateWithCommand for the session `<repo>-<sanitized>` in the new path |
| CheckoutCommand.RunCheckout | cmd/worktree/checkout.go:25-125 | every early stop with its cause; a chosen branch is the one the choice allows, reused exactly when a worktree holds it, the one reused being the holder with the least sort key (server state AfterSwitchToWorktree on a switch), otherwise created exactly as CreateOutcome decides with the host state CreatedFiles and the server state AfterCreateWithCommand; host untouched unless creating, server (client included) unless switching or created |

## Left out

- internal/ui/selector.go, internal/editor/editor.go and internal/config/config.go are not part of this model: the editor command is an input function, opening an editor outside tmux is not modelled, and the copy patterns and worktrees location are inputs.
- cmd/worktree/new.go, list.go, open.go, switch.go, branch.go and root.go are command wiring and printing; they are not part of this model.
- `CreateBranch`, `CheckoutBranch` and `FetchRemoteBranches` (internal/git/branch.go) only run git; a fetch failure is a warning, and its effect on the remote listing is the remote listing given as input.
- `IsGitRepository`, `IsInstalled` and `IsInsideTmux` are inputs (`isRepository`, `Server.installed`, `Server.insideTmux`).
- Tmux.Server.KillSession: the source of `tmux.KillSession` is not part of this model; it is modelled as one `kill-session` whose success is an input.
- Tmux.Server.SessionExists: tmux matches `-t` targets by prefix and pattern as well; here a session exists only under its exact name.
- Paths: `filepath.Join` and `Abs` do not clean `.` and `..` elements, except the leading `../` steps of a Rel answer, which JoinRelative resolves; Rel answers for absolute paths only (Go also relates two relative paths), which is all the copy needs since both of its paths are absolute.
- Paths.Rel: the round trip back through `Join` is stated for an answer that descends from a base other than `/`; the `../` answers are covered for siblings only (Paths.RelToSibling, Paths.JoinRelativeSibling).
- Lifecycle.CopyOneConfined: confinement is promised only for a source at or below the main checkout; Lifecycle.CopyEscapesWorktree shows a source beside it written beside the worktree, as the code does.
- Lifecycle.CopyAllConfined: confinement is promised only when every match lies at or below the main checkout, for the reason above.
- Lifecycle.CopyPatternsConfined: confinement is promised only when no pattern's matches climb out of the main checkout, for the reason above.
- Lifecycle.Host.CreateWorktree: the copy's confinement is promised only when no pattern's matches climb out of the main checkout, for the reason above.
- Worktrees.ListedShape: listed worktrees carry the corrected label (Worktrees.GetWorktreeBranch), so a detached worktree whose branch answer is blank is labelled `detached@<hash>` where the code gives the empty label (see "## Findings").
- Worktrees.ListWorktrees: the worktrees it returns carry the corrected label, for the reason above.
- Worktrees.ListAllProjects: the worktree listings it reads carry the corrected label, for the reason above.
- Tmux.Server.CreateSession: switching to the session goes through the corrected Tmux.Server.SwitchToSession, so outside tmux the model attaches the terminal and records the client where the code's attach fails silently (see "## Findings").
- Tmux.Server.CreateSessionWithCommand: an existing session is switched to through the corrected switch, for the reason above.
- CheckoutCommand.SwitchToWorktree: an existing session is switched to through the corrected switch, for the reason above.
- DeleteCommand.Preflight: that an authorized request succeeds is stated for a worktree named by argument or through fzf; a numbered pick depends on the listing order, which is open when two names lower to the same key.
- DeleteCommand.RunDelete: that an authorized request removes its worktree is stated for the argument and fzf only, for the reason above.
- CheckoutCommand.ChooseBranch: a numbered pick is promised to be some listed name other than the current one, not a particular one, because the menu follows Go's map iteration order, which is unspecified.
- Text.ToLower lowers ASCII letters only; `strings.ToLower` also lowers other Unicode letters.
- Lifecycle.CopyFile does not model file contents or permission bits, nor a partially written destination when `io.Copy` fails.
- Files.MkdirAll creates only the directory itself, not missing ancestors.
- The time between `CreateWorktree`'s existence check and `git worktree add` (another process could create the path) is not modelled.
- Printed messages and warnings on standard error are not modelled, except the `Copied:` lines (`Host.copied`).
- The order of `os.ReadDir` and of Go map iteration is an arbitrary choice in the model (a set is drawn from), so the listing order before sorting is not fixed.
- Ordering.SortBy: `sort.Slice` is not stable and leaves ties in an unspecified order; the model fixes one order and proves only sortedness and permutation.
- CheckoutCommand.MenuOrder: `sort.Slice` reorders the caller's slice in place; here the sorted sequence is a new value, which the command does not use afterwards anyway.
- Worktrees.WorktreeExistsForBranch: the contract says the match returned has the least key among matches, not that it is the first in listing order, because two names can lower to the same key and then their order is unspecified. CheckoutCommand.FindExisting, CheckoutCommand.OpenBranch and CheckoutCommand.RunCheckout inherit this: the worktree reused has the least key among the holders.

## Findings

| source | as written | input that shows it | evidently intended | confidence | as-written member | corrected member |
|---|---|---|---|---|---|---|
| internal/tmux/session.go:103-111 | outside tmux the attach command gets `Stdout` set and is then run with `CombinedOutput`, which refuses a command whose standard output is already set; the refusal is swallowed because the tool is not inside tmux | tmux installed, not inside tmux, session `work` exists, `SwitchToSession("work")` | attach the terminal to the session | not executed; follows from the `os/exec` rule that `CombinedOutput` fails when `Stdout` is set | Tmux.Server.SwitchToSessionAsWritten, Tmux.SwitchOutsideTmuxLost | Tmux.Server.SwitchToSession |
| internal/git/worktree.go:296-308 | `git branch --show-current` succeeds and prints nothing for a detached HEAD, so the `HEAD` test never fires and the label is empty | a worktree with a detached HEAD: `--show-current` answers `"\n"` | label it `detached@<hash>` as the detached-HEAD branch does | not executed; relies on `--show-current` printing nothing when HEAD is detached | Worktrees.GetWorktreeBranchAsWritten, Worktrees.DetachedShowCurrentLabel | Worktrees.GetWorktreeBranch, Worktrees.DetachedShowCurrentCorrected |
