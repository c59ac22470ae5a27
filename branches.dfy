/**
 * The branch catalog: local and remote branch listings merged into one record
 * per branch name.
 */
module Branches {
  import opened Wrappers
  import opened Text

  datatype Branch = Branch(Name: string, IsRemote: bool, IsLocal: bool)

  datatype BranchError = ListLocalFailed | ListRemoteFailed | CurrentBranchFailed

  /** GetCurrentBranch, over the output of `git rev-parse --abbrev-ref HEAD`. */
  function GetCurrentBranch(output: Option<string>): (r: Result<string, BranchError>)
    ensures output.None? <==> r == Failure(CurrentBranchFailed)
    ensures r.Success? ==> r.value == TrimSpace(output.value) && (r.value == [] || !IsSpace(r.value[0]))
  {
    match output
    case None => Failure(CurrentBranchFailed)
    case Some(text) => Success(TrimSpace(text))
  }

  /** The index of the first `c` in `s`, if any. */
  function FirstIndex(s: string, c: char): (r: Option<nat>)
    ensures r.None? <==> c !in s
    ensures r.Some? ==> r.value < |s| && s[r.value] == c && c !in s[..r.value]
  {
    if s == [] then None
    else if s[0] == c then Some(0)
    else
      var r := FirstIndex(s[1..], c);
      assert s == [s[0]] + s[1..];
      if r.Some? then
        assert s[..r.value + 1] == [s[0]] + s[1..][..r.value];
        Some(r.value + 1)
      else None
  }

  /**
   * The regular expression `^[^/]+/(.+)$` on a remote ref: the text after the
   * first `/`, provided both the remote and the rest are non-empty.
   */
  function StripRemote(ref: string): (r: Option<string>)
    ensures r.Some? ==> r.value != [] && exists i :: 0 < i < |ref| && ref[i] == '/' && '/' !in ref[..i] && r.value == ref[i + 1..]
  {
    match FirstIndex(ref, '/')
    case None => None
    case Some(i) => if 0 < i && i + 1 < |ref| then Some(ref[i + 1..]) else None
  }

  /** A remote `remote/rest` with a non-empty remote free of `/` and a non-empty rest gives `rest`. */
  lemma StripRemoteOf(remote: string, rest: string)
    requires remote != [] && '/' !in remote && rest != []
    ensures StripRemote(remote + "/" + rest) == Some(rest)
  {
    var ref := remote + "/" + rest;
    assert ref[..|remote|] == remote;
    assert ref[|remote|] == '/';
    assert FirstIndex(ref, '/') == Some(|remote|);
    assert ref[|remote| + 1..] == rest;
  }

  /** The name a line of the local listing contributes, if any. */
  function LocalName(line: string): Option<string> {
    var name := TrimSpace(line);
    if name != [] then Some(name) else None
  }

  /**
   * The name a line of the remote listing contributes: none for an empty line
   * or a pointer ending in `/HEAD`, otherwise the ref with its remote stripped.
   */
  function RemoteName(line: string): (r: Option<string>)
    ensures HasSuffix(TrimSpace(line), "/HEAD") ==> r.None?
    ensures TrimSpace(line) == [] ==> r.None?
    ensures r.Some? ==> r.value != []
  {
    var remoteName := TrimSpace(line);
    if remoteName == [] || HasSuffix(remoteName, "/HEAD") then None
    else StripRemote(remoteName)
  }

  /** The names an optional name contributes: none or one. */
  function Named(name: Option<string>): set<string> {
    if name.Some? then {name.value} else {}
  }

  /** The names a local listing contributes, one per non-blank line. */
  function LocalNames(lines: seq<string>): set<string>
  {
    if lines == [] then {}
    else
      var init := lines[..|lines| - 1];
      assert lines == init + [lines[|lines| - 1]];
      LocalNames(init) + Named(LocalName(lines[|lines| - 1]))
  }

  /** The names a remote listing contributes, one per line naming a branch. */
  function RemoteNames(lines: seq<string>): set<string>
  {
    if lines == [] then {}
    else
      var init := lines[..|lines| - 1];
      assert lines == init + [lines[|lines| - 1]];
      RemoteNames(init) + Named(RemoteName(lines[|lines| - 1]))
  }

  function NamesOf(branches: seq<Branch>): set<string> {
    set b | b in branches :: b.Name
  }

  /**
   * `branches` is the merged catalog of the given local and remote names: one
   * entry per name, local or remote exactly as the listings say.
   */
  ghost predicate IsCatalog(branches: seq<Branch>, locals: set<string>, remotes: set<string>) {
    && NamesOf(branches) == locals + remotes
    && (forall i, j :: 0 <= i < j < |branches| ==> branches[i].Name != branches[j].Name)
    && (forall b :: b in branches ==> b.IsLocal == (b.Name in locals) && b.IsRemote == (b.Name in remotes))
  }

  /** The map under construction holds one record per name seen so far, keyed by that name. */
  ghost predicate MapMatches(m: map<string, Branch>, locals: set<string>, remotes: set<string>) {
    && m.Keys == locals + remotes
    && forall n :: n in m ==> m[n] == Branch(n, n in remotes, n in locals)
  }

  /** A further local line adds the name it carries, if any. */
  lemma LocalNamesSnoc(lines: seq<string>, line: string)
    ensures LocalNames(lines + [line]) == LocalNames(lines) + Named(LocalName(line))
  {
    assert (lines + [line])[..|lines|] == lines;
  }

  /** The names of the first `i + 1` local lines. */
  lemma LocalNamesPrefix(lines: seq<string>, i: nat)
    requires i < |lines|
    ensures LocalNames(lines[..i + 1]) == LocalNames(lines[..i]) + Named(LocalName(lines[i]))
  {
    assert lines[..i + 1] == lines[..i] + [lines[i]];
    LocalNamesSnoc(lines[..i], lines[i]);
  }

  /** A further remote line adds the name it carries, if any. */
  lemma RemoteNamesSnoc(lines: seq<string>, line: string)
    ensures RemoteNames(lines + [line]) == RemoteNames(lines) + Named(RemoteName(line))
  {
    assert (lines + [line])[..|lines|] == lines;
  }

  /** The names of the first `i + 1` remote lines. */
  lemma RemoteNamesPrefix(lines: seq<string>, i: nat)
    requires i < |lines|
    ensures RemoteNames(lines[..i + 1]) == RemoteNames(lines[..i]) + Named(RemoteName(lines[i]))
  {
    assert lines[..i + 1] == lines[..i] + [lines[i]];
    RemoteNamesSnoc(lines[..i], lines[i]);
  }

  /** The record update for one remote ref naming `n`. */
  function MarkRemote(m: map<string, Branch>, n: string): map<string, Branch> {
    if n in m then m[n := m[n].(IsRemote := true)] else m[n := Branch(n, true, false)]
  }

  /** Marking `n` remote keeps the map in step with the names seen, now including `n`. */
  lemma MarkRemoteStep(m: map<string, Branch>, locals: set<string>, seen: set<string>, n: string)
    requires MapMatches(m, locals, seen)
    ensures MapMatches(MarkRemote(m, n), locals, seen + {n})
  {
    var m' := MarkRemote(m, n);
    forall k | k in m' ensures m'[k] == Branch(k, k in seen + {n}, k in locals) {
      if k != n { assert m'[k] == m[k]; }
    }
  }

  /** The first loop of ListAllBranches: one local record per non-blank line. */
  method CollectLocal(lines: seq<string>) returns (m: map<string, Branch>)
    ensures MapMatches(m, LocalNames(lines), {})
  {
    m := map[];
    for i := 0 to |lines|
      invariant MapMatches(m, LocalNames(lines[..i]), {})
    {
      LocalNamesPrefix(lines, i);
      var name := LocalName(lines[i]);
      if name.Some? {
        m := m[name.value := Branch(name.value, false, true)];
      }
    }
    assert lines[..|lines|] == lines;
  }

  /**
   * The second loop of ListAllBranches: each remote ref marks its stripped
   * name remote, adding a remote-only record when the name is new.
   */
  method MergeRemote(m0: map<string, Branch>, ghost locals: set<string>, lines: seq<string>) returns (m: map<string, Branch>)
    requires MapMatches(m0, locals, {})
    ensures MapMatches(m, locals, RemoteNames(lines))
  {
    m := m0;
    for i := 0 to |lines|
      invariant MapMatches(m, locals, RemoteNames(lines[..i]))
    {
      RemoteNamesPrefix(lines, i);
      var matches := RemoteName(lines[i]);
      if matches.Some? {
        var branchName := matches.value;
        MarkRemoteStep(m, locals, RemoteNames(lines[..i]), branchName);
        if branchName in m {
          var existing := m[branchName];
          m := m[branchName := existing.(IsRemote := true)];
        } else {
          m := m[branchName := Branch(branchName, true, false)];
        }
      }
    }
    assert lines[..|lines|] == lines;
  }

  /** Appending a record adds its name. */
  lemma NamesOfSnoc(branches: seq<Branch>, b: Branch)
    ensures NamesOf(branches + [b]) == NamesOf(branches) + {b.Name}
  {
    assert b in branches + [b];
    forall c | c in branches ensures c in branches + [b] {
      var k :| 0 <= k < |branches| && branches[k] == c;
      assert (branches + [b])[k] == c;
    }
  }

  /** The name of a listed record is among the names. */
  lemma NameListed(branches: seq<Branch>, i: nat)
    requires i < |branches|
    ensures branches[i].Name in NamesOf(branches)
  {
    assert branches[i] in branches;
  }

  /** The name of every listed record is among the names. */
  lemma NamesListed(branches: seq<Branch>)
    ensures forall i :: 0 <= i < |branches| ==> branches[i].Name in NamesOf(branches)
  {
    forall i | 0 <= i < |branches| ensures branches[i].Name in NamesOf(branches) {
      assert branches[i] in branches;
    }
  }

  /** A name no record carries is not among the names. */
  lemma NameNotListed(branches: seq<Branch>, name: string)
    requires forall k :: 0 <= k < |branches| ==> branches[k].Name != name
    ensures name !in NamesOf(branches)
  {
    forall b | b in branches ensures b.Name != name {
      var k :| 0 <= k < |branches| && branches[k] == b;
    }
  }

  /** The final loop of ListAllBranches: the map's records as a sequence, in an arbitrary order. */
  method Records(m: map<string, Branch>, ghost locals: set<string>, ghost remotes: set<string>) returns (result: seq<Branch>)
    requires MapMatches(m, locals, remotes)
    ensures IsCatalog(result, locals, remotes)
  {
    result := [];
    var pending := m.Keys;
    assert NamesOf([]) == {};
    while pending != {}
      invariant Drawn(m, result, pending)
      decreases |pending|
    {
      var name :| name in pending;
      DrawnStep(m, result, pending, name);
      result := result + [m[name]];
      pending := pending - {name};
    }
    RecordsMatch(m, locals, remotes, result);
  }

  /**
   * Midway through the final loop: `result` holds the records of the names
   * already drawn, each once, and `pending` the names still to draw.
   */
  ghost predicate Drawn(m: map<string, Branch>, result: seq<Branch>, pending: set<string>) {
    && pending <= m.Keys
    && NamesOf(result) == m.Keys - pending
    && (forall k :: 0 <= k < |result| ==> result[k].Name in m && result[k] == m[result[k].Name])
    && (forall i, j :: 0 <= i < j < |result| ==> result[i].Name != result[j].Name)
  }

  /** Drawing one pending name keeps the loop invariant. */
  lemma DrawnStep(m: map<string, Branch>, result: seq<Branch>, pending: set<string>, name: string)
    requires Drawn(m, result, pending) && name in pending
    requires forall n :: n in m ==> m[n].Name == n
    ensures Drawn(m, result + [m[name]], pending - {name})
  {
    NamesOfSnoc(result, m[name]);
    NamesListed(result);
    var r := result + [m[name]];
    assert forall k :: 0 <= k < |result| ==> r[k] == result[k];
  }

  /** Records drawn from a map in step with the listings carry the listings' flags. */
  lemma RecordsMatch(m: map<string, Branch>, locals: set<string>, remotes: set<string>, result: seq<Branch>)
    requires MapMatches(m, locals, remotes)
    requires forall k :: 0 <= k < |result| ==> result[k].Name in m && result[k] == m[result[k].Name]
    ensures forall b :: b in result ==> b.IsLocal == (b.Name in locals) && b.IsRemote == (b.Name in remotes)
  {
    forall b | b in result ensures b.IsLocal == (b.Name in locals) && b.IsRemote == (b.Name in remotes) {
      var k :| 0 <= k < |result| && result[k] == b;
    }
  }

  /**
   * ListAllBranches, over the outputs of `git branch` and `git branch -r`
   * (`None` when a command fails). The order of the result is that of map
   * iteration, which Go leaves unspecified; here it is an arbitrary choice.
   */
  method ListAllBranches(localOutput: Option<string>, remoteOutput: Option<string>) returns (r: Result<seq<Branch>, BranchError>)
    ensures localOutput.None? ==> r == Failure(ListLocalFailed)
    ensures localOutput.Some? && remoteOutput.None? ==> r == Failure(ListRemoteFailed)
    ensures r.Success? <==> localOutput.Some? && remoteOutput.Some?
    ensures r.Success? ==> IsCatalog(r.value, LocalNames(Split(localOutput.value, '\n')), RemoteNames(Split(remoteOutput.value, '\n')))
  {
    if localOutput.None? {
      return Failure(ListLocalFailed);
    }
    var localLines := Split(localOutput.value, '\n');
    var branches := CollectLocal(localLines);
    if remoteOutput.None? {
      return Failure(ListRemoteFailed);
    }
    var remoteLines := Split(remoteOutput.value, '\n');
    branches := MergeRemote(branches, LocalNames(localLines), remoteLines);
    var result := Records(branches, LocalNames(localLines), RemoteNames(remoteLines));
    return Success(result);
  }

  /** BranchExists: whether the merged catalog has a branch named exactly `name`. */
  method BranchExists(localOutput: Option<string>, remoteOutput: Option<string>, name: string) returns (r: Result<bool, BranchError>)
    ensures r.Success? <==> localOutput.Some? && remoteOutput.Some?
    ensures r.Success? ==> r.value == (name in LocalNames(Split(localOutput.value, '\n')) + RemoteNames(Split(remoteOutput.value, '\n')))
  {
    var listed := ListAllBranches(localOutput, remoteOutput);
    if listed.Failure? {
      return Failure(listed.error);
    }
    var branches := listed.value;
    for i := 0 to |branches|
      invariant forall k :: 0 <= k < i ==> branches[k].Name != name
    {
      if branches[i].Name == name {
        NameListed(branches, i);
        return Success(true);
      }
    }
    NameNotListed(branches, name);
    return Success(false);
  }

  /** Names in a catalog are distinct, so it has exactly one record per name. */
  lemma {:induction false} DistinctNamesCount(branches: seq<Branch>)
    requires forall i, j :: 0 <= i < j < |branches| ==> branches[i].Name != branches[j].Name
    ensures |NamesOf(branches)| == |branches|
  {
    if branches != [] {
      var init := branches[..|branches| - 1];
      var last := branches[|branches| - 1];
      assert branches == init + [last];
      DistinctNamesCount(init);
      assert last.Name !in NamesOf(init) by {
        forall b | b in init ensures b.Name != last.Name {
          var k :| 0 <= k < |init| && init[k] == b;
          assert branches[k] == b;
        }
      }
      assert NamesOf(branches) == NamesOf(init) + {last.Name};
    }
  }

  /** Every catalog entry is local or remote: a name only enters the catalog from one of the listings. */
  lemma CatalogEntriesFlagged(branches: seq<Branch>, locals: set<string>, remotes: set<string>)
    requires IsCatalog(branches, locals, remotes)
    ensures forall b :: b in branches ==> b.IsLocal || b.IsRemote
  {
    forall b | b in branches ensures b.IsLocal || b.IsRemote {
      assert b.Name in NamesOf(branches);
    }
  }

  /** A catalog built from the single name `x`, local and remote, is the one record `{x, local, remote}`. */
  lemma SingleNameCatalog(branches: seq<Branch>, x: string)
    requires IsCatalog(branches, {x}, {x})
    ensures branches == [Branch(x, true, true)]
  {
    DistinctNamesCount(branches);
    assert |branches| == 1;
    assert branches[0] in branches;
  }

  /** Local `x` and remote `remote/x` (such as `origin/x`) merge into the single record `{x, local, remote}`. */
  lemma LocalAndRemoteMerge(branches: seq<Branch>, remote: string, x: string)
    requires remote != [] && '/' !in remote && '\n' !in remote && !IsSpace(remote[0])
    requires x != [] && '\n' !in x && !IsSpace(x[0]) && !IsSpace(x[|x| - 1])
    requires !HasSuffix(remote + "/" + x, "/HEAD")
    requires IsCatalog(branches, LocalNames(Split(x + "\n", '\n')), RemoteNames(Split(remote + "/" + x + "\n", '\n')))
    ensures branches == [Branch(x, true, true)]
  {
    LocalListingOfOne(x);
    RemoteListingOfOne(remote, x);
    SingleNameCatalog(branches, x);
  }

  /** The local listing `x\n` names exactly `x`. */
  lemma LocalListingOfOne(x: string)
    requires x != [] && '\n' !in x && !IsSpace(x[0]) && !IsSpace(x[|x| - 1])
    ensures LocalNames(Split(x + "\n", '\n')) == {x}
  {
    assert x + "\n" == x + ['\n'];
    SplitLine(x, '\n');
    assert [] + [x] == [x] && [x] + [""] == [x, ""];
    LocalNamesSnoc([], x);
    LocalNamesSnoc([x], "");
    LocalNameOfWord(x);
    LocalNameOfBlank();
  }

  /** A line holding a name with non-blank ends names it. */
  lemma LocalNameOfWord(x: string)
    requires x != [] && !IsSpace(x[0]) && !IsSpace(x[|x| - 1])
    ensures LocalName(x) == Some(x)
  {
    TrimSpaceOfWord(x);
  }

  /** The empty line after the final newline names nothing. */
  lemma LocalNameOfBlank()
    ensures LocalName("") == None && RemoteName("") == None
  {
    assert |TrimSpace("")| == 0;
  }

  /** The remote listing `remote/x\n` names exactly `x`. */
  lemma RemoteListingOfOne(remote: string, x: string)
    requires remote != [] && '/' !in remote && '\n' !in remote && !IsSpace(remote[0])
    requires x != [] && '\n' !in x && !IsSpace(x[|x| - 1])
    requires !HasSuffix(remote + "/" + x, "/HEAD")
    ensures RemoteNames(Split(remote + "/" + x + "\n", '\n')) == {x}
  {
    var ref := remote + "/" + x;
    assert ref + "\n" == ref + ['\n'];
    NotInAppend(remote, "/", '\n');
    NotInAppend(remote + "/", x, '\n');
    SplitLine(ref, '\n');
    assert [] + [ref] == [ref] && [ref] + [""] == [ref, ""];
    RemoteNamesSnoc([], ref);
    RemoteNamesSnoc([ref], "");
    RemoteNameOfRef(remote, x);
    LocalNameOfBlank();
  }

  /** The ref `remote/x` names `x`, unless it is a HEAD pointer. */
  lemma RemoteNameOfRef(remote: string, x: string)
    requires remote != [] && '/' !in remote && !IsSpace(remote[0])
    requires x != [] && !IsSpace(x[|x| - 1])
    requires !HasSuffix(remote + "/" + x, "/HEAD")
    ensures RemoteName(remote + "/" + x) == Some(x)
  {
    var ref := remote + "/" + x;
    assert ref[0] == remote[0] && ref[|ref| - 1] == x[|x| - 1];
    TrimSpaceOfWord(ref);
    StripRemoteOf(remote, x);
  }

  /** Dropping element `i` before the last one commutes with appending the last one. */
  lemma DropBeforeLast<T>(xs: seq<T>, i: nat)
    requires i < |xs| - 1
    ensures xs[..|xs| - 1][..i] + xs[..|xs| - 1][i + 1..] + [xs[|xs| - 1]] == xs[..i] + xs[i + 1..]
  {
    var init := xs[..|xs| - 1];
    assert xs[..i] == init[..i];
    assert xs[i + 1..] == init[i + 1..] + [xs[|xs| - 1]];
  }

  /**
   * A remote HEAD pointer contributes no branch: wherever `origin/HEAD` is
   * listed, dropping that line leaves the remote names, and so the catalog,
   * as they are.
   */
  lemma {:induction false} HeadPointerIgnored(lines: seq<string>, i: nat)
    requires i < |lines| && HasSuffix(TrimSpace(lines[i]), "/HEAD")
    ensures RemoteNames(lines) == RemoteNames(lines[..i] + lines[i + 1..])
  {
    var init := lines[..|lines| - 1];
    var last := lines[|lines| - 1];
    assert lines == init + [last];
    RemoteNamesSnoc(init, last);
    if i == |lines| - 1 {
      assert RemoteName(last).None?;
      assert lines[..i] + lines[i + 1..] == init;
    } else {
      assert init[i] == lines[i];
      HeadPointerIgnored(init, i);
      var rest := init[..i] + init[i + 1..];
      RemoteNamesSnoc(rest, last);
      DropBeforeLast(lines, i);
    }
  }

}
