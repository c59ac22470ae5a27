/**
 * The two name sanitizers. Both replace every character of a fixed table by
 * `_` and keep all other characters; the tables differ because a directory
 * name and a tmux session name forbid different characters.
 */
module Names {

  /** Characters SanitizeBranchName replaces (`.` is not among them). */
  const BranchTable: set<char> := {'/', ':', ' ', '\\', '*', '?', '<', '>', '|', '"'}

  /** Characters SanitizeSessionName replaces (`* ? < > | "` are not among them). */
  const SessionTable: set<char> := {':', '.', ' ', '/', '\\'}

  /** The shape shared by both sanitizers: a per-character replacer. */
  function ReplaceChars(s: string, table: set<char>): (r: string)
    ensures |r| == |s|
    ensures forall i :: 0 <= i < |s| ==> r[i] == if s[i] in table then '_' else s[i]
  {
    if s == [] then [] else [if s[0] in table then '_' else s[0]] + ReplaceChars(s[1..], table)
  }

  /** A directory name for a branch (`strings.NewReplacer` over BranchTable). */
  function SanitizeBranchName(branch: string): (r: string)
    ensures |r| == |branch|
    ensures forall i :: 0 <= i < |branch| ==> (branch[i] in BranchTable ==> r[i] == '_')
    ensures forall i :: 0 <= i < |branch| ==> (branch[i] !in BranchTable ==> r[i] == branch[i])
  {
    ReplaceChars(branch, BranchTable)
  }

  /** A tmux session name (`strings.NewReplacer` over SessionTable). */
  function SanitizeSessionName(name: string): (r: string)
    ensures |r| == |name|
    ensures forall i :: 0 <= i < |name| ==> (name[i] in SessionTable ==> r[i] == '_')
    ensures forall i :: 0 <= i < |name| ==> (name[i] !in SessionTable ==> r[i] == name[i])
  {
    ReplaceChars(name, SessionTable)
  }

  /** No character of the table survives a replacement by `_` when `_` is outside the table. */
  lemma {:induction false} ReplaceCharsClean(s: string, table: set<char>)
    requires '_' !in table
    ensures forall i :: 0 <= i < |ReplaceChars(s, table)| ==> ReplaceChars(s, table)[i] !in table
  {
  }

  /** A string with no table character is its own replacement, and only such a string is. */
  lemma {:induction false} ReplaceCharsFixed(s: string, table: set<char>)
    requires '_' !in table
    ensures ReplaceChars(s, table) == s <==> forall i :: 0 <= i < |s| ==> s[i] !in table
  {
    if ReplaceChars(s, table) == s {
      forall i | 0 <= i < |s| ensures s[i] !in table {
        assert ReplaceChars(s, table)[i] == s[i];
      }
    }
  }

  /** Replacing twice is replacing once. */
  lemma ReplaceCharsIdempotent(s: string, table: set<char>)
    requires '_' !in table
    ensures ReplaceChars(ReplaceChars(s, table), table) == ReplaceChars(s, table)
  {
    ReplaceCharsClean(s, table);
    ReplaceCharsFixed(ReplaceChars(s, table), table);
  }

  /** Replacing with one table and then another is replacing with their union. */
  lemma ReplaceCharsCompose(s: string, first: set<char>, second: set<char>)
    requires '_' !in first
    ensures ReplaceChars(ReplaceChars(s, first), second) == ReplaceChars(s, first + second)
  {
  }

  /** Inputs that differ at a position outside the table keep differing. */
  lemma ReplaceCharsKeepsDifference(s: string, t: string, table: set<char>, i: nat)
    requires |s| == |t| && i < |s|
    requires s[i] != t[i] && s[i] !in table && t[i] !in table
    ensures ReplaceChars(s, table) != ReplaceChars(t, table)
  {
    assert ReplaceChars(s, table)[i] != ReplaceChars(t, table)[i];
  }

  lemma SanitizeBranchNameIdempotent(branch: string)
    ensures SanitizeBranchName(SanitizeBranchName(branch)) == SanitizeBranchName(branch)
  {
    ReplaceCharsIdempotent(branch, BranchTable);
  }

  lemma SanitizeSessionNameIdempotent(name: string)
    ensures SanitizeSessionName(SanitizeSessionName(name)) == SanitizeSessionName(name)
  {
    ReplaceCharsIdempotent(name, SessionTable);
  }

  /** A branch name is used unchanged as a directory name exactly when it has no BranchTable character. */
  lemma SanitizeBranchNameFixed(branch: string)
    ensures SanitizeBranchName(branch) == branch <==> forall i :: 0 <= i < |branch| ==> branch[i] !in BranchTable
  {
    ReplaceCharsFixed(branch, BranchTable);
  }

  /** A session name is used unchanged exactly when it has no SessionTable character. */
  lemma SanitizeSessionNameFixed(name: string)
    ensures SanitizeSessionName(name) == name <==> forall i :: 0 <= i < |name| ==> name[i] !in SessionTable
  {
    ReplaceCharsFixed(name, SessionTable);
  }

  /** The session name of a sanitized worktree name replaces the characters of both tables. */
  lemma SessionOfBranchDirectory(branch: string)
    ensures SanitizeSessionName(SanitizeBranchName(branch)) == ReplaceChars(branch, BranchTable + SessionTable)
  {
    ReplaceCharsCompose(branch, BranchTable, SessionTable);
  }

  /** The tables differ: `.` survives in a directory name but not in a session name. */
  lemma DotTablesDiffer()
    ensures SanitizeBranchName("v1.2") == "v1.2" && SanitizeSessionName("v1.2") == "v1_2"
  {
    var s := "v1.2";
    assert s[0] == 'v' && s[1] == '1' && s[2] == '.' && s[3] == '2';
    assert 'v' !in BranchTable;
    assert '1' !in BranchTable;
    assert '.' !in BranchTable;
    assert '2' !in BranchTable;
    assert 'v' !in SessionTable;
    assert '1' !in SessionTable;
    assert '.' in SessionTable;
    assert '2' !in SessionTable;
    var d := SanitizeBranchName(s);
    assert d[0] == 'v' && d[1] == '1' && d[2] == '.' && d[3] == '2';
    var t := SanitizeSessionName(s);
    assert t[0] == 'v' && t[1] == '1' && t[2] == '_' && t[3] == '2';
  }

  /** The tables differ: `*` survives in a session name but not in a directory name. */
  lemma StarTablesDiffer()
    ensures SanitizeBranchName("a*b") == "a_b" && SanitizeSessionName("a*b") == "a*b"
  {
    var s := "a*b";
    assert s[0] == 'a' && s[1] == '*' && s[2] == 'b';
    assert 'a' !in BranchTable;
    assert '*' in BranchTable;
    assert 'b' !in BranchTable;
    assert 'a' !in SessionTable;
    assert '*' !in SessionTable;
    assert 'b' !in SessionTable;
    var d := SanitizeBranchName(s);
    assert d[0] == 'a' && d[1] == '_' && d[2] == 'b';
    var t := SanitizeSessionName(s);
    assert t[0] == 'a' && t[1] == '*' && t[2] == 'b';
  }

  /** A `prefix/name` branch whose parts are already safe becomes the directory `prefix_name`. */
  lemma SlashBranchDirectory(prefix: string, name: string)
    requires forall i :: 0 <= i < |prefix| ==> prefix[i] !in BranchTable
    requires forall i :: 0 <= i < |name| ==> name[i] !in BranchTable
    ensures SanitizeBranchName(prefix + "/" + name) == prefix + "_" + name
  {
    var b := prefix + "/" + name;
    var r := SanitizeBranchName(b);
    forall i | 0 <= i < |b| ensures r[i] == (prefix + "_" + name)[i] {
      if i < |prefix| {
        assert b[i] == prefix[i];
      } else if i > |prefix| {
        assert b[i] == name[i - |prefix| - 1];
      }
    }
  }

  /** A sanitized branch name never contains a separator, so it names a single directory. */
  lemma SanitizedHasNoSlash(branch: string)
    ensures '/' !in SanitizeBranchName(branch)
  {
    var r := SanitizeBranchName(branch);
    forall i | 0 <= i < |r| ensures r[i] != '/' {
      assert branch[i] in BranchTable || r[i] == branch[i];
    }
  }

  /** The tmux session of a worktree: the sanitized `<repo>-<worktree>`. */
  function SessionName(repo: string, worktree: string): (r: string)
    ensures |r| == |repo| + 1 + |worktree|
    ensures r[..|repo|] == SanitizeSessionName(repo) && r[|repo|] == '-' && r[|repo| + 1..] == SanitizeSessionName(worktree)
    ensures SanitizeSessionName(r) == r
  {
    var joined := repo + "-" + worktree;
    var r := SanitizeSessionName(joined);
    assert '-' !in SessionTable;
    assert r[..|repo|] == SanitizeSessionName(repo) by {
      forall i | 0 <= i < |repo| ensures r[i] == SanitizeSessionName(repo)[i] {
        assert joined[i] == repo[i];
      }
    }
    assert r[|repo| + 1..] == SanitizeSessionName(worktree) by {
      forall i | 0 <= i < |worktree| ensures r[|repo| + 1 + i] == SanitizeSessionName(worktree)[i] {
        assert joined[|repo| + 1 + i] == worktree[i];
      }
    }
    SanitizeSessionNameIdempotent(joined);
    r
  }

  /** The session name older versions gave a worktree: its sanitized name alone. */
  function LegacySessionName(worktree: string): (r: string)
    ensures |r| == |worktree|
    ensures SanitizeSessionName(r) == r
  {
    SanitizeSessionNameIdempotent(worktree);
    SanitizeSessionName(worktree)
  }

  /** The two session names of a worktree never coincide, so the legacy probe never reaches the primary session. */
  lemma SessionNamesDiffer(repo: string, worktree: string)
    ensures SessionName(repo, worktree) != LegacySessionName(worktree)
  {
  }
}
