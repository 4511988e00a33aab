/**
  The decision step of the interactive `prompt`: which key press ends the
  prompt and with which answer. Reading keys from the terminal is replaced
  by a finite sequence of key presses.
*/
module Prompt {
  import opened Wrappers

  /** What the prompt does with one key press: answer with a character, or ask again. */
  datatype Reply = Answer(c: char) | Retry

  /**
    One round of `prompt`: Enter (a line feed) picks the default when there
    is one; otherwise a key listed in `letters` is the answer; anything else
    is reported as unrecognized and asked again.
  */
  function Decide(input: char, letters: string, default: Option<char>): (r: Reply)
    ensures default.Some? && input == '\n' ==> r == Answer(default.value)
    ensures !(default.Some? && input == '\n') ==> (r == Answer(input) <==> input in letters)
    ensures r == Retry <==> !(default.Some? && input == '\n') && input !in letters
  {
    if default.Some? && input == '\n' then Answer(default.value)
    else if input in letters then Answer(input)
    else Retry
  }

  /** Key press `i` answers `c`, and every earlier press was retried. */
  predicate FirstAnswerAt(inputs: seq<char>, letters: string, default: Option<char>, i: int, c: char)
  {
    && 0 <= i < |inputs|
    && Decide(inputs[i], letters, default) == Answer(c)
    && forall j :: 0 <= j < i ==> Decide(inputs[j], letters, default) == Retry
  }

  /**
    The `prompt` loop over the key presses `inputs`: the answer of the first
    press that is not retried, or None when the presses run out first (the
    terminal read failing).
  */
  function Prompt(inputs: seq<char>, letters: string, default: Option<char>): (r: Option<char>)
    ensures r.Some? ==> r.value in letters || (default.Some? && r.value == default.value)
    ensures r.None? <==> forall i :: 0 <= i < |inputs| ==> Decide(inputs[i], letters, default) == Retry
    ensures r.Some? ==> exists i :: FirstAnswerAt(inputs, letters, default, i, r.value)
  {
    if |inputs| == 0 then None
    else
      match Decide(inputs[0], letters, default)
      case Answer(c) =>
        assert FirstAnswerAt(inputs, letters, default, 0, c);
        Some(c)
      case Retry =>
        var r := Prompt(inputs[1..], letters, default);
        assert forall i :: 1 <= i < |inputs| ==> inputs[i] == inputs[1..][i - 1];
        if r.Some? then
          var i :| FirstAnswerAt(inputs[1..], letters, default, i, r.value);
          assert FirstAnswerAt(inputs, letters, default, i + 1, r.value);
          r
        else
          r
  }

  /** Enter with no default is an ordinary key: it answers only when listed in `letters`. */
  lemma EnterWithoutDefault(letters: string)
    ensures Decide('\n', letters, None) == (if '\n' in letters then Answer('\n') else Retry)
  {
  }

  /** The default answers Enter even when it is not one of `letters`. */
  lemma DefaultNeedNotBeListed(d: char)
    ensures Prompt(['x', '\n'], "yn", Some(d)) == Some(d)
  {
    assert Decide('x', "yn", Some(d)) == Retry;
    assert ['x', '\n'][1..] == ['\n'];
  }

  /** Key presses after the one that answers are never read. */
  lemma {:induction false} LaterKeysIgnored(inputs: seq<char>, more: seq<char>, letters: string, default: Option<char>)
    requires Prompt(inputs, letters, default).Some?
    ensures Prompt(inputs + more, letters, default) == Prompt(inputs, letters, default)
  {
    assert (inputs + more)[0] == inputs[0];
    if Decide(inputs[0], letters, default) == Retry {
      assert (inputs + more)[1..] == inputs[1..] + more;
      LaterKeysIgnored(inputs[1..], more, letters, default);
    }
  }
}
