/**
 * The parts of Go's `strings` package the tool relies on: TrimSpace, the first
 * element of Fields, Split on a separator, ASCII lowering and `%-Ns` padding.
 */
module Text {
  import opened Wrappers

  /** Go's `unicode.IsSpace`: the blanks TrimSpace and Fields skip. */
  predicate IsSpace(c: char) {
    c == ' ' || c == '\t' || c == '\n' || c == '\r' || c == '\U{B}' || c == '\U{C}'
    || c == '\U{85}' || c == '\U{A0}' || c == '\U{1680}'
    || ('\U{2000}' <= c <= '\U{200A}')
    || c == '\U{2028}' || c == '\U{2029}' || c == '\U{202F}' || c == '\U{205F}' || c == '\U{3000}'
  }

  predicate NoSpace(s: string) {
    forall i :: 0 <= i < |s| ==> !IsSpace(s[i])
  }

  predicate AllSpace(s: string) {
    forall i :: 0 <= i < |s| ==> IsSpace(s[i])
  }

  /** Drops the leading blanks of `s`. */
  function TrimLeft(s: string): string {
    if s != [] && IsSpace(s[0]) then TrimLeft(s[1..]) else s
  }

  /** TrimLeft keeps a suffix of `s`, drops only blanks, and stops at a non-blank. */
  lemma {:induction false} TrimLeftShape(s: string)
    ensures |TrimLeft(s)| <= |s| && TrimLeft(s) == s[|s| - |TrimLeft(s)|..]
    ensures AllSpace(s[..|s| - |TrimLeft(s)|])
    ensures TrimLeft(s) == [] || !IsSpace(TrimLeft(s)[0])
  {
    if s != [] && IsSpace(s[0]) {
      TrimLeftShape(s[1..]);
      var r := TrimLeft(s[1..]);
      assert s[1..][|s| - 1 - |r|..] == s[|s| - |r|..];
      var dropped := s[..|s| - |r|];
      assert dropped == [s[0]] + s[1..][..|s| - 1 - |r|];
      forall i | 0 <= i < |dropped| ensures IsSpace(dropped[i]) {
        if i > 0 { assert dropped[i] == s[1..][..|s| - 1 - |r|][i - 1]; }
      }
    } else {
      assert s[|s| - |s|..] == s;
    }
  }

  /** Drops the trailing blanks of `s`. */
  function TrimRight(s: string): string {
    if s != [] && IsSpace(s[|s| - 1]) then TrimRight(s[..|s| - 1]) else s
  }

  /** TrimRight keeps a prefix of `s`, drops only blanks, and stops at a non-blank. */
  lemma {:induction false} TrimRightShape(s: string)
    ensures |TrimRight(s)| <= |s| && TrimRight(s) == s[..|TrimRight(s)|]
    ensures AllSpace(s[|TrimRight(s)|..])
    ensures TrimRight(s) == [] || !IsSpace(TrimRight(s)[|TrimRight(s)| - 1])
  {
    if s != [] && IsSpace(s[|s| - 1]) {
      var init := s[..|s| - 1];
      TrimRightShape(init);
      var r := TrimRight(init);
      assert init[..|r|] == s[..|r|];
      var dropped := s[|r|..];
      assert dropped == init[|r|..] + [s[|s| - 1]];
      forall i | 0 <= i < |dropped| ensures IsSpace(dropped[i]) {
        if i < |dropped| - 1 { assert dropped[i] == init[|r|..][i]; }
      }
    } else {
      assert s[..|s|] == s;
    }
  }

  /** `strings.TrimSpace`: the middle of `s` between its leading and trailing blanks. */
  function TrimSpace(s: string): (r: string)
    ensures |r| <= |s|
    ensures r == [] <==> AllSpace(s)
    ensures r != [] ==> !IsSpace(r[0]) && !IsSpace(r[|r| - 1])
  {
    var t := TrimLeft(s);
    TrimLeftShape(s);
    assert AllSpace(t) ==> AllSpace(s) by {
      if AllSpace(t) {
        assert t == [];
        assert s[..|s|] == s;
      }
    }
    var r := TrimRight(t);
    TrimRightShape(t);
    assert r == [] ==> AllSpace(t) by {
      if r == [] { assert t[|r|..] == t; }
    }
    assert r != [] ==> !AllSpace(s) by {
      if r != [] {
        assert r[0] == t[0];
        assert t[0] == s[|s| - |t|];
      }
    }
    r
  }

  /** The leading run of non-blank characters of `s`. */
  function TakeWord(s: string): (r: string)
    ensures |r| <= |s| && r == s[..|r|] && NoSpace(r)
    ensures |r| == |s| || IsSpace(s[|r|])
  {
    if s == [] || IsSpace(s[0]) then [] else [s[0]] + TakeWord(s[1..])
  }

  /** `w` is the run of non-blanks `s` starts with: a non-empty word followed by a blank or by nothing. */
  predicate LeadingWord(w: string, s: string) {
    w != [] && NoSpace(w) && |w| <= |s| && s[..|w|] == w && (|w| == |s| || IsSpace(s[|w|]))
  }

  /** A text starts with at most one leading word. */
  lemma LeadingWordUnique(a: string, b: string, s: string)
    requires LeadingWord(a, s) && LeadingWord(b, s)
    ensures a == b
  {
  }

  /** The first element of `strings.Fields(s)`; `None` when `s` holds no field at all. */
  function FirstField(s: string): (r: Option<string>)
    ensures r.None? <==> AllSpace(s)
    ensures r.Some? ==> r.value != [] && NoSpace(r.value)
    ensures s != [] && !IsSpace(s[0]) ==> r.Some? && LeadingWord(r.value, s)
  {
    var t := TrimLeft(s);
    TrimLeftShape(s);
    if t == [] then
      assert s[..|s|] == s;
      None
    else
      assert !AllSpace(s) by { assert s[|s| - |t|] == t[0]; }
      Some(TakeWord(t))
  }

  lemma {:induction false} TakeWordOfPrefix(w: string, rest: string)
    requires NoSpace(w)
    requires rest == [] || IsSpace(rest[0])
    ensures TakeWord(w + rest) == w
  {
    if w == [] {
      assert w + rest == rest;
    } else {
      assert (w + rest)[1..] == w[1..] + rest;
      TakeWordOfPrefix(w[1..], rest);
    }
  }

  /** TrimRight never cuts into a prefix that ends in a non-blank. */
  lemma {:induction false} TrimRightKeeps(s: string, n: nat)
    requires 0 < n <= |s| && !IsSpace(s[n - 1])
    ensures n <= |TrimRight(s)|
  {
    if IsSpace(s[|s| - 1]) {
      TrimRightKeeps(s[..|s| - 1], n);
    }
  }

  /**
   * A line made of a word followed by blanks or by nothing keeps that word as
   * its first field after TrimSpace: the parse fzf's answer goes through.
   */
  lemma FirstFieldOfTrimmedLine(w: string, rest: string)
    requires w != [] && NoSpace(w)
    requires rest == [] || IsSpace(rest[0])
    ensures FirstField(TrimSpace(w + rest)) == Some(w)
  {
    var s := w + rest;
    assert s[0] == w[0];
    assert TrimLeft(s) == s;
    var p := TrimRight(s);
    TrimRightShape(s);
    assert s[|w| - 1] == w[|w| - 1];
    TrimRightKeeps(s, |w|);
    assert p == w + rest[..|p| - |w|] by {
      assert p == s[..|p|];
    }
    assert p[0] == w[0];
    assert TrimLeft(p) == p;
    var rest' := rest[..|p| - |w|];
    assert rest' == [] || IsSpace(rest'[0]);
    TakeWordOfPrefix(w, rest');
  }

  /** `strings.Split(s, string(sep))` for a one-character separator. */
  function Split(s: string, sep: char): (r: seq<string>)
    ensures |r| >= 1
    ensures forall k :: 0 <= k < |r| ==> sep !in r[k]
  {
    if s == [] then [[]]
    else
      var rest := Split(s[1..], sep);
      if s[0] == sep then [[]] + rest
      else [[s[0]] + rest[0]] + rest[1..]
  }

  /** Joining the parts of a split with the separator gives back the text. */
  lemma {:induction false} SplitJoin(s: string, sep: char)
    ensures JoinWith(Split(s, sep), sep) == s
  {
    if s != [] {
      var rest := Split(s[1..], sep);
      SplitJoin(s[1..], sep);
      assert [s[0]] + s[1..] == s;
      if s[0] != sep {
        var r := Split(s, sep);
        if |rest| > 1 {
          assert rest[1..][0] == rest[1];
          assert JoinWith(rest, sep) == rest[0] + [sep] + JoinWith(rest[1..], sep);
          assert r[1..] == rest[1..];
          assert s == [s[0]] + (rest[0] + [sep] + JoinWith(rest[1..], sep));
        }
      }
    }
  }

  /** `strings.Join(parts, string(sep))`: the inverse of Split. */
  function JoinWith(parts: seq<string>, sep: char): string {
    if parts == [] then []
    else if |parts| == 1 then parts[0]
    else parts[0] + [sep] + JoinWith(parts[1..], sep)
  }

  /** Go's `unicode.ToLower` restricted to ASCII letters. */
  function LowerChar(c: char): char {
    if 'A' <= c <= 'Z' then (c as int + 32) as char else c
  }

  /** `strings.ToLower`, character by character. */
  function ToLower(s: string): (r: string)
    ensures |r| == |s|
    ensures forall i :: 0 <= i < |s| ==> r[i] == LowerChar(s[i])
  {
    if s == [] then [] else [LowerChar(s[0])] + ToLower(s[1..])
  }

  /** Which characters lower to `c` when `c` is a lower-case ASCII letter. */
  lemma LowerCharInverse(x: char, c: char)
    requires 'a' <= c <= 'z'
    ensures LowerChar(x) == c <==> x == c || x as int == c as int - 32
  {
  }

  /** `fmt.Sprintf("%-Ns", s)`: `s` padded on the right with blanks to `width` characters. */
  function PadRight(s: string, width: nat): (r: string)
    ensures |r| == if |s| < width then width else |s|
    ensures r[..|s|] == s && AllSpace(r[|s|..])
  {
    if |s| < width then s + seq(width - |s|, _ => ' ') else s
  }

  /** `strings.HasSuffix`. */
  predicate HasSuffix(s: string, suffix: string) {
    |suffix| <= |s| && s[|s| - |suffix|..] == suffix
  }

  /** A command's one-line answer, trimmed, is the line itself when the line has no blank at either end. */
  lemma TrimSpaceOfLine(line: string, ending: string)
    requires line != [] && !IsSpace(line[0]) && !IsSpace(line[|line| - 1])
    requires AllSpace(ending)
    ensures TrimSpace(line + ending) == line
  {
    var s := line + ending;
    assert s[0] == line[0];
    assert TrimLeft(s) == s;
    TrimRightShape(s);
    assert s[|line| - 1] == line[|line| - 1];
    TrimRightKeeps(s, |line|);
    TrimRightStopsAt(s, |line|);
    assert s[..|line|] == line;
  }

  /** TrimRight removes a blank suffix entirely. */
  lemma {:induction false} TrimRightStopsAt(s: string, n: nat)
    requires n <= |s| && AllSpace(s[n..])
    ensures |TrimRight(s)| <= n
  {
    if |s| > n {
      assert IsSpace(s[n..][|s| - 1 - n]);
      assert s[..|s| - 1][n..] == s[n..][..|s| - 1 - n];
      TrimRightStopsAt(s[..|s| - 1], n);
    } else {
      TrimRightShape(s);
    }
  }

  /** A text holding one separator-terminated line splits into that line and an empty tail. */
  lemma {:induction false} SplitLine(line: string, sep: char)
    requires sep !in line
    ensures Split(line + [sep], sep) == [line, []]
  {
    if line != [] {
      assert (line + [sep])[1..] == line[1..] + [sep];
      SplitLine(line[1..], sep);
      assert [line[0]] + line[1..] == line;
    }
  }

  /** A text with non-blank ends is its own TrimSpace. */
  lemma TrimSpaceOfWord(x: string)
    requires x != [] && !IsSpace(x[0]) && !IsSpace(x[|x| - 1])
    ensures TrimSpace(x) == x
  {
    TrimSpaceOfLine(x, "");
    assert x + "" == x;
  }

  /** A character in neither part is not in their concatenation. */
  lemma NotInAppend(a: string, b: string, c: char)
    requires c !in a && c !in b
    ensures c !in a + b
  {
    forall i | 0 <= i < |a + b| ensures (a + b)[i] != c {
      if i >= |a| { assert (a + b)[i] == b[i - |a|]; }
    }
  }
}
