/**
  Text measures used by the per-file pre-filter: UTF-8 byte length, line
  count with the semantics of Rust's `str::lines`, and substring search.
*/
module Text {

  // ---------------------------------------------------------------------
  // UTF-8 length
  // ---------------------------------------------------------------------

  /** Bytes the UTF-8 encoding of one Unicode scalar value takes. */
  function Utf8Width(c: char): nat
  {
    if c as int < 0x80 then 1
    else if c as int < 0x800 then 2
    else if c as int < 0x1_0000 then 3
    else 4
  }

  /** Byte length of the UTF-8 encoding of a string (Rust's `str::len`). */
  function ByteLength(s: string): (n: nat)
    // every character takes between one and four bytes
    ensures |s| <= n <= 4 * |s|
  {
    if |s| == 0 then 0 else Utf8Width(s[0]) + ByteLength(s[1..])
  }

  /** A string of ASCII characters is as long in bytes as in characters. */
  lemma {:induction false} AsciiByteLength(s: string)
    requires forall i :: 0 <= i < |s| ==> s[i] as int < 0x80
    ensures ByteLength(s) == |s|
  {
    if |s| > 0 {
      AsciiByteLength(s[1..]);
    }
  }

  // ---------------------------------------------------------------------
  // Lines
  // ---------------------------------------------------------------------

  /** Number of line feeds in a string. */
  function CountNewlines(s: string): nat
  {
    if |s| == 0 then 0 else (if s[0] == '\n' then 1 else 0) + CountNewlines(s[1..])
  }

  /**
    `str::lines().count()`: no lines in the empty string; otherwise one line
    per line feed, plus one for a last line without a line feed.
  */
  function LineCount(s: string): (n: nat)
    // no more lines than characters, and none only for the empty string
    ensures n <= |s|
    ensures n == 0 <==> |s| == 0
  {
    if |s| == 0 then 0
    else
      CountNewlinesAtMostLength(s);
      if s[|s| - 1] == '\n' then
        LastNewlineCounted(s);
        CountNewlines(s)
      else
        CountNewlinesBelowLength(s);
        CountNewlines(s) + 1
  }

  lemma {:induction false} CountNewlinesAtMostLength(s: string)
    ensures CountNewlines(s) <= |s|
  {
    if |s| > 0 {
      CountNewlinesAtMostLength(s[1..]);
    }
  }

  /** A string whose last character is not a line feed has fewer line feeds than characters. */
  lemma {:induction false} CountNewlinesBelowLength(s: string)
    requires |s| > 0 && s[|s| - 1] != '\n'
    ensures CountNewlines(s) < |s|
  {
    if |s| > 1 {
      assert s[1..][|s[1..]| - 1] == s[|s| - 1];
      CountNewlinesBelowLength(s[1..]);
    }
  }

  /** A final line feed is counted. */
  lemma {:induction false} LastNewlineCounted(s: string)
    requires |s| > 0 && s[|s| - 1] == '\n'
    ensures CountNewlines(s) > 0
  {
    if |s| > 1 && s[0] != '\n' {
      assert s[1..][|s[1..]| - 1] == s[|s| - 1];
      LastNewlineCounted(s[1..]);
    }
  }

  /** Index of the first line feed, or `|s|` when there is none. */
  function FirstNewline(s: string): (i: nat)
    ensures i <= |s|
    ensures i < |s| ==> s[i] == '\n'
    ensures forall j :: 0 <= j < i ==> s[j] != '\n'
  {
    if |s| == 0 then 0
    else if s[0] == '\n' then 0
    else 1 + FirstNewline(s[1..])
  }

  /** Drops one trailing carriage return, as `str::lines` does before a line feed. */
  function StripCarriageReturn(line: string): string
  {
    if |line| > 0 && line[|line| - 1] == '\r' then line[..|line| - 1] else line
  }

  /**
    The lines of a string as `str::lines` yields them: split after each line
    feed, the line feed and a carriage return before it removed; a last line
    without a line feed is kept as it is, and no empty line follows a final
    line feed.
  */
  function Lines(s: string): (r: seq<string>)
    // no line holds a line feed, and there are no more lines than characters
    ensures forall k, j :: 0 <= k < |r| && 0 <= j < |r[k]| ==> r[k][j] != '\n'
    ensures |r| <= |s|
    decreases |s|
  {
    if |s| == 0 then []
    else
      var i := FirstNewline(s);
      if i == |s| then [s]
      else
        var line := StripCarriageReturn(s[..i]);
        var rest := Lines(s[i + 1..]);
        assert forall j :: 0 <= j < |line| ==> line[j] == s[j];
        assert forall k :: 0 < k < |[line] + rest| ==> ([line] + rest)[k] == rest[k - 1];
        [line] + rest
  }

  lemma {:induction false} CountNewlinesAppend(a: string, b: string)
    ensures CountNewlines(a + b) == CountNewlines(a) + CountNewlines(b)
  {
    if |a| == 0 {
      assert a + b == b;
    } else {
      assert (a + b)[0] == a[0] && (a + b)[1..] == a[1..] + b;
      CountNewlinesAppend(a[1..], b);
    }
  }

  lemma {:induction false} NoNewlineCount(s: string)
    requires forall j :: 0 <= j < |s| ==> s[j] != '\n'
    ensures CountNewlines(s) == 0
  {
    if |s| > 0 {
      NoNewlineCount(s[1..]);
    }
  }

  /** Splitting at the first line feed: that line feed plus those of the remainder. */
  lemma CountNewlinesAtFirst(s: string, i: nat)
    requires i < |s| && s[i] == '\n'
    requires forall j :: 0 <= j < i ==> s[j] != '\n'
    ensures CountNewlines(s) == 1 + CountNewlines(s[i + 1..])
  {
    var rest := s[i + 1..];
    NoNewlineCount(s[..i]);
    assert s == s[..i] + ([s[i]] + rest);
    CountNewlinesAppend(s[..i], [s[i]] + rest);
    CountNewlinesAppend([s[i]], rest);
    assert CountNewlines([s[i]]) == 1;
  }

  /** The counting definition agrees with the splitting one: `LineCount` is the number of `Lines`. */
  lemma {:induction false} LineCountIsNumberOfLines(s: string)
    ensures |Lines(s)| == LineCount(s)
    decreases |s|
  {
    if |s| > 0 {
      var i := FirstNewline(s);
      if i == |s| {
        NoNewlineCount(s);
      } else {
        var rest := s[i + 1..];
        CountNewlinesAtFirst(s, i);
        LineCountIsNumberOfLines(rest);
        if |rest| == 0 {
          assert s[|s| - 1] == '\n';
        } else {
          assert s[|s| - 1] == rest[|rest| - 1];
        }
      }
    }
  }

  /** A non-empty string without line feeds is a single line. */
  lemma SingleLine(s: string)
    requires |s| > 0
    requires forall j :: 0 <= j < |s| ==> s[j] != '\n'
    ensures LineCount(s) == 1
  {
    NoNewlineCount(s);
  }

  /** A string of line feeds only has one line per character. */
  lemma {:induction false} OnlyNewlines(s: string)
    requires forall j :: 0 <= j < |s| ==> s[j] == '\n'
    ensures LineCount(s) == |s|
  {
    if |s| > 0 {
      OnlyNewlinesCount(s);
    }
  }

  lemma {:induction false} OnlyNewlinesCount(s: string)
    requires forall j :: 0 <= j < |s| ==> s[j] == '\n'
    ensures CountNewlines(s) == |s|
  {
    if |s| > 0 {
      OnlyNewlinesCount(s[1..]);
    }
  }

  // ---------------------------------------------------------------------
  // Substrings
  // ---------------------------------------------------------------------

  /** `needle` occurs in `hay` starting at index `i`. */
  predicate OccursAt(hay: string, needle: string, i: int)
  {
    0 <= i && i + |needle| <= |hay| && hay[i..i + |needle|] == needle
  }

  /** `str::contains` with a string pattern: a left-to-right scan for an occurrence. */
  function Contains(hay: string, needle: string): (b: bool)
    // an occurrence needs room, the empty needle is everywhere, and a suffix occurrence is found
    ensures b ==> |needle| <= |hay|
    ensures needle == "" ==> b
    ensures |needle| <= |hay| && hay[|hay| - |needle|..] == needle ==> b
    decreases |hay|
  {
    if |needle| <= |hay| && hay[..|needle|] == needle then true
    else if |hay| == 0 then false
    else Contains(hay[1..], needle)
  }

  /** The scan finds an occurrence exactly when one exists. */
  lemma {:induction false} ContainsIffOccurs(hay: string, needle: string)
    ensures Contains(hay, needle) <==> exists i :: OccursAt(hay, needle, i)
    decreases |hay|
  {
    if |needle| <= |hay| && hay[..|needle|] == needle {
      assert OccursAt(hay, needle, 0);
    } else if |hay| > 0 {
      ContainsIffOccurs(hay[1..], needle);
      forall i | 1 <= i
        ensures OccursAt(hay, needle, i) <==> OccursAt(hay[1..], needle, i - 1)
      {
        if i + |needle| <= |hay| {
          assert hay[1..][i - 1..i - 1 + |needle|] == hay[i..i + |needle|];
        }
      }
      if Contains(hay[1..], needle) {
        var i :| OccursAt(hay[1..], needle, i);
        assert OccursAt(hay, needle, i + 1);
      } else {
        assert !OccursAt(hay, needle, 0);
        forall i ensures !OccursAt(hay, needle, i) {
          if i >= 1 {
            assert !OccursAt(hay[1..], needle, i - 1);
          }
        }
      }
    }
  }
}
