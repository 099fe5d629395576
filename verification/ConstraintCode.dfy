/**
 What the constraint scanners do with a text, without their lexer: how a search for a delimiter or a
 top-level character and the stripping of comments go on past a comment, a string, or one character.
 */
module ConstraintCode {
  import opened Text
  import opened CodeText
  import opened ConstraintScanner

  // ---- stretches without code

  function ModeAfter(mode: Mode, s: string, n: nat): Mode
    requires n <= |s|
    decreases n
  {
    if n == 0 then mode else ModeAfter(NextMode(mode, s), s[1..], n - 1)
  }

  /** None of the first `n` characters is code. */
  predicate Quiet(mode: Mode, s: string, n: nat)
    requires n <= |s|
    decreases n
  {
    n == 0 || (!IsCode(mode, s) && Quiet(NextMode(mode, s), s[1..], n - 1))
  }

  /** From code, the first `n` characters are none, and after them there is code again unless the text ends. */
  predicate Skipped(s: string, n: nat) {
    n <= |s| && Quiet(Code, s, n) && (n < |s| ==> ModeAfter(Code, s, n) == Code)
  }

  /** One past `end`, or the end of the text. */
  function Past(s: string, end: nat): nat {
    if end < |s| then end + 1 else |s|
  }

  lemma CommentStarts(s: string)
    ensures At(s, "//", 0) <==> StartsComment(s)
  {
    if |s| >= 2 {
      assert s[0..2] == [s[0], s[1]];
    }
  }

  lemma {:induction false} CommentGoesOn(s: string, end: nat)
    requires LineEndsAt(s, 0, end)
    ensures Quiet(LineComment, s, Past(s, end))
    ensures ModeAfter(LineComment, s, Past(s, end)) == if end < |s| then Code else LineComment
    decreases end
  {
    if end > 0 {
      CommentGoesOn(s[1..], end - 1);
    }
  }

  lemma CommentIsSkipped(s: string, end: nat)
    requires At(s, "//", 0) && LineEndsAt(s, 2, end)
    ensures Skipped(s, Past(s, end))
  {
    CommentStarts(s);
    CommentGoesOn(s[1..], end - 1);
  }

  lemma {:induction false} StringGoesOn(s: string, i: nat, end: nat)
    requires 1 <= i <= end && StringEndsAt(s, 1, end)
    ensures Quiet(Quoted(Backslashes(s, 1, i) % 2 == 1), s[i..], Past(s, end) - i)
    ensures end < |s| ==>
              ModeAfter(Quoted(Backslashes(s, 1, i) % 2 == 1), s[i..], Past(s, end) - i) == Code
    decreases end - i
  {
    if i < end {
      assert !IsClosingQuote(s, 1, i);
      assert s[i..][1..] == s[i + 1..];
      StringGoesOn(s, i + 1, end);
    }
  }

  lemma StringIsSkipped(s: string, end: nat)
    requires s != [] && s[0] == '"' && StringEndsAt(s, 1, end)
    ensures Skipped(s, Past(s, end))
  {
    StringGoesOn(s, 1, end);
  }

  // ---- searching at the top level

  lemma {:induction false} FindInQuiet(s: string, needle: char, mode: Mode, depth: nat, n: nat)
    requires n <= |s| && Quiet(mode, s, n)
    ensures FindTop(s, needle, State(mode, depth))
         == Shift(FindTop(s[n..], needle, State(ModeAfter(mode, s, n), depth)), n)
    decreases n
  {
    if n > 0 {
      assert s[1..][n - 1..] == s[n..];
      FindInQuiet(s[1..], needle, NextMode(mode, s), depth, n - 1);
    }
  }

  lemma FindSkips(s: string, needle: char, depth: nat, n: nat)
    requires Skipped(s, n)
    ensures FindTop(s, needle, State(Code, depth)) == Shift(FindTop(s[n..], needle, State(Code, depth)), n)
  {
    FindInQuiet(s, needle, Code, depth, n);
  }

  /** A search at the top level goes on after a comment. */
  lemma FindPastComment(s: string, needle: char, depth: nat, end: nat)
    requires At(s, "//", 0) && LineEndsAt(s, 2, end)
    ensures FindTop(s, needle, State(Code, depth))
         == Shift(FindTop(s[Past(s, end)..], needle, State(Code, depth)), Past(s, end))
  {
    CommentIsSkipped(s, end);
    FindSkips(s, needle, depth, Past(s, end));
  }

  /** And after a string, whose quote no backslash escapes. */
  lemma FindPastString(s: string, needle: char, depth: nat, end: nat)
    requires s != [] && s[0] == '"' && StringEndsAt(s, 1, end)
    ensures FindTop(s, needle, State(Code, depth))
         == Shift(FindTop(s[Past(s, end)..], needle, State(Code, depth)), Past(s, end))
  {
    StringIsSkipped(s, end);
    FindSkips(s, needle, depth, Past(s, end));
  }

  /** Elsewhere it stops at the character outside all brackets, and counts the three kinds of brackets. */
  lemma FindReads(s: string, needle: char, depth: nat)
    requires s != [] && s[0] != '"' && !At(s, "//", 0) && needle !in {'(', '[', '{', ')', ']', '}'}
    ensures FindTop(s, needle, State(Code, depth))
         == if s[0] == needle && depth == 0 then Some(0)
            else if s[0] in {'(', '[', '{'} then Shift(FindTop(s[1..], needle, State(Code, depth + 1)), 1)
            else if s[0] in {')', ']', '}'} && depth > 0 then Shift(FindTop(s[1..], needle, State(Code, depth - 1)), 1)
            else Shift(FindTop(s[1..], needle, State(Code, depth)), 1)
  {
    CommentStarts(s);
  }

  // ---- matching a delimiter

  lemma {:induction false} MatchInQuiet(s: string, open: char, close: char, mode: Mode, depth: nat, n: nat)
    requires n <= |s| && Quiet(mode, s, n)
    ensures MatchFrom(s, open, close, mode, depth)
         == Shift(MatchFrom(s[n..], open, close, ModeAfter(mode, s, n), depth), n)
    decreases n
  {
    if n > 0 {
      assert s[1..][n - 1..] == s[n..];
      MatchInQuiet(s[1..], open, close, NextMode(mode, s), depth, n - 1);
    }
  }

  lemma MatchPastComment(s: string, open: char, close: char, depth: nat, end: nat)
    requires At(s, "//", 0) && LineEndsAt(s, 2, end)
    ensures MatchFrom(s, open, close, Code, depth)
         == Shift(MatchFrom(s[Past(s, end)..], open, close, Code, depth), Past(s, end))
  {
    CommentIsSkipped(s, end);
    MatchInQuiet(s, open, close, Code, depth, Past(s, end));
  }

  lemma MatchPastString(s: string, open: char, close: char, depth: nat, end: nat)
    requires s != [] && s[0] == '"' && StringEndsAt(s, 1, end)
    ensures MatchFrom(s, open, close, Code, depth)
         == Shift(MatchFrom(s[Past(s, end)..], open, close, Code, depth), Past(s, end))
  {
    StringIsSkipped(s, end);
    MatchInQuiet(s, open, close, Code, depth, Past(s, end));
  }

  /** Elsewhere it counts the delimiters, and stops at the one that leaves none open. */
  lemma MatchReads(s: string, open: char, close: char, depth: nat)
    requires s != [] && s[0] != '"' && !At(s, "//", 0) && open != close
    ensures MatchFrom(s, open, close, Code, depth)
         == if s[0] == close && depth <= 1 then Some(0)
            else if s[0] == close then Shift(MatchFrom(s[1..], open, close, Code, depth - 1), 1)
            else if s[0] == open then Shift(MatchFrom(s[1..], open, close, Code, depth + 1), 1)
            else Shift(MatchFrom(s[1..], open, close, Code, depth), 1)
  {
    CommentStarts(s);
  }

  // ---- stripping comments

  lemma {:induction false} StripInComment(s: string, end: nat)
    requires LineEndsAt(s, 0, end)
    ensures StripFrom(s, LineComment) == StripFrom(s[end..], Code)
    decreases end
  {
    if end > 0 {
      assert s[1..][end - 1..] == s[end..];
      StripInComment(s[1..], end - 1);
    } else if s != [] {
      CommentStarts(s);
      assert s[0..] == s;
    }
  }

  /** A comment is dropped up to its line feed. */
  lemma StripDropsComment(s: string, end: nat)
    requires At(s, "//", 0) && LineEndsAt(s, 2, end)
    ensures StripFrom(s, Code) == StripFrom(s[end..], Code)
  {
    CommentStarts(s);
    assert s[1..][end - 1..] == s[end..];
    StripInComment(s[1..], end - 1);
  }

  lemma {:induction false} StripInString(s: string, i: nat, end: nat)
    requires 1 <= i <= end && StringEndsAt(s, 1, end)
    ensures StripFrom(s[i..], Quoted(Backslashes(s, 1, i) % 2 == 1))
         == s[i..Past(s, end)] + StripFrom(s[Past(s, end)..], Code)
    decreases end - i
  {
    if i < |s| {
      assert s[i..][1..] == s[i + 1..];
      assert s[i..Past(s, end)] == [s[i]] + s[i + 1..Past(s, end)];
      if i < end {
        assert !IsClosingQuote(s, 1, i);
        StripInString(s, i + 1, end);
      }
    }
  }

  /** A string is kept as it is, whatever it contains. */
  lemma StripKeepsString(s: string, end: nat)
    requires s != [] && s[0] == '"' && StringEndsAt(s, 1, end)
    ensures StripFrom(s, Code) == s[..Past(s, end)] + StripFrom(s[Past(s, end)..], Code)
  {
    StripInString(s, 1, end);
    assert s[..Past(s, end)] == [s[0]] + s[1..Past(s, end)];
  }

  /** And so is any other character. */
  lemma StripKeepsCode(s: string)
    requires s != [] && s[0] != '"' && !At(s, "//", 0)
    ensures StripFrom(s, Code) == [s[0]] + StripFrom(s[1..], Code)
  {
    CommentStarts(s);
  }
}
