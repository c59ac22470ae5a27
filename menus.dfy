/**
 * The two ways the commands let a user pick from a list: fzf, whose answer is
 * the chosen line, and a numbered menu read from standard input.
 */
module Menus {
  import opened Wrappers
  import opened Text

  /** What the user answered: fzf's output (`None` when fzf was cancelled), or the number read (`None` when no number could be read). */
  datatype Picker = Fzf(output: Option<string>) | Numbered(choice: Option<int>)

  datatype SelectError = InvalidInput | InvalidChoice(choice: int) | SelectionCancelled | NoSelection | Unmatched

  /** The first whitespace-separated field of fzf's trimmed answer; `None` when the answer is blank. */
  function FzfChoice(output: string): (r: Option<string>)
    ensures r.None? <==> TrimSpace(output) == []
    ensures r.Some? ==> LeadingWord(r.value, TrimSpace(output))
  {
    var selected := TrimSpace(output);
    if selected == [] then None
    else
      assert !AllSpace(selected) by { assert IsSpace(selected[0]) == false; }
      FirstField(selected)
  }

  /** A menu line that starts with a padded single-word name gives that name back when fzf returns it. */
  lemma PaddedLineChoice(name: string, width: nat, rest: string)
    requires name != [] && NoSpace(name)
    requires rest == [] || IsSpace(rest[0])
    ensures FzfChoice(PadRight(name, width) + rest) == Some(name)
  {
    var padded := PadRight(name, width);
    var tail := padded[|name|..] + rest;
    assert padded == name + padded[|name|..];
    assert padded + rest == name + tail;
    assert tail == [] || IsSpace(tail[0]) by {
      if padded[|name|..] != [] {
        assert tail[0] == padded[|name|..][0];
      }
    }
    FirstFieldOfTrimmedLine(name, tail);
  }

  /** The numbered menu: choice `n` picks the n-th item, counting from 1; anything else is an error. */
  function NumberedChoice<T>(items: seq<T>, choice: Option<int>): (r: Result<T, SelectError>)
    ensures choice.None? ==> r == Failure(InvalidInput)
    ensures choice.Some? && !(1 <= choice.value <= |items|) ==> r == Failure(InvalidChoice(choice.value))
    ensures r.Success? <==> choice.Some? && 1 <= choice.value <= |items|
    ensures r.Success? ==> r.value == items[choice.value - 1]
  {
    match choice
    case None => Failure(InvalidInput)
    case Some(c) =>
      if c < 1 || c > |items| then Failure(InvalidChoice(c)) else Success(items[c - 1])
  }
}
