/**
 What the assertion-macro scanner takes for code, without its automaton, and what it makes of a
 macro call.
 */
module AssertionCode {
  import opened Text
  import opened CodeText
  import opened AssertionMacros

  /** The scan is in code before the character at `i`. */
  predicate InCode(text: string, i: nat) {
    i <= |text| && ModeAt(text, i).Code?
  }

  predicate NoCode(text: string, i: nat, j: nat) {
    forall k | i <= k < j && k < |text| :: !CodeAt(text, k)
  }

  lemma StartsInCode(text: string)
    ensures InCode(text, 0)
  {
  }

  lemma TwoAt(text: string, pattern: string, i: nat)
    requires |pattern| == 2
    ensures At(text, pattern, i) <==> i + 1 < |text| && text[i] == pattern[0] && text[i + 1] == pattern[1]
  {
    if i + 1 < |text| {
      assert text[i..i + 2] == [text[i], text[i + 1]];
    }
  }

  lemma {:induction false} LineGoesOn(text: string, i: nat, n: nat)
    requires i <= n <= |text| && ModeAt(text, i).LineComment? && forall k | i <= k < n :: text[k] != '\n'
    ensures ModeAt(text, n).LineComment? && NoCode(text, i, n)
    decreases n
  {
    if i < n {
      LineGoesOn(text, i, n - 1);
    }
  }

  /** From `//` nothing is code up to and with the line feed, and code goes on after it. */
  lemma LineCommentSkipped(text: string, i: nat, end: nat)
    requires InCode(text, i) && At(text, "//", i) && LineEndsAt(text, i + 2, end)
    ensures NoCode(text, i, end + 1) && (end < |text| ==> InCode(text, end + 1))
  {
    TwoAt(text, "//", i);
    assert ModeAt(text, i + 1).Slash? && ModeAt(text, i + 2).LineComment?;
    LineGoesOn(text, i + 2, end);
  }

  /** The block comment's memory is the character before, once there is one. */
  predicate InBlock(text: string, from: nat, n: nat)
    requires n <= |text|
  {
    ModeAt(text, n) == BlockComment(if n > from then text[n - 1] else '\0')
  }

  lemma {:induction false} BlockGoesOn(text: string, from: nat, n: nat, end: nat)
    requires from <= n <= end <= |text| && InBlock(text, from, from) && BlockEndsAt(text, from, end)
    ensures InBlock(text, from, n) && NoCode(text, from, n)
    decreases n
  {
    if from < n {
      BlockGoesOn(text, from, n - 1, end);
      if n - 1 > from {
        TwoAt(text, "*/", n - 2);
      }
    }
  }

  /** From an opening pair nothing is code up to and with the first closing pair after it. */
  lemma BlockCommentSkipped(text: string, i: nat, end: nat)
    requires InCode(text, i) && At(text, "/*", i) && BlockEndsAt(text, i + 2, end)
    ensures NoCode(text, i, end + 2) && (end < |text| ==> InCode(text, end + 2))
  {
    TwoAt(text, "/*", i);
    assert ModeAt(text, i + 1).Slash? && InBlock(text, i + 2, i + 2);
    BlockGoesOn(text, i + 2, end, end);
    if end < |text| {
      TwoAt(text, "*/", end);
      if end > i + 2 {
        TwoAt(text, "*/", end - 1);
      }
      assert ModeAt(text, end + 1) == BlockComment('*');
    }
  }

  lemma {:induction false} StringGoesOn(text: string, from: nat, n: nat, end: nat)
    requires from <= n <= end <= |text| && ModeAt(text, from) == Quoted(false) && StringEndsAt(text, from, end)
    ensures ModeAt(text, n) == Quoted(Backslashes(text, from, n) % 2 == 1) && NoCode(text, from, n)
    decreases n
  {
    if from < n {
      StringGoesOn(text, from, n - 1, end);
      assert !IsClosingQuote(text, from, n - 1);
    }
  }

  /** From a quote nothing is code up to and with the first quote that an even number of backslashes precedes. */
  lemma StringSkipped(text: string, i: nat, end: nat)
    requires InCode(text, i) && i < |text| && text[i] == '"' && StringEndsAt(text, i + 1, end)
    ensures NoCode(text, i, end + 1) && (end < |text| ==> InCode(text, end + 1))
  {
    StringGoesOn(text, i + 1, end, end);
  }

  /** Any character of code but a slash or a quote is handed on. */
  lemma PlainIsCode(text: string, i: nat)
    requires InCode(text, i) && i < |text| && text[i] != '/' && text[i] != '"'
    ensures CodeAt(text, i) && InCode(text, i + 1)
  {
  }

  /** After a slash that begins no comment one character is handed on, whatever it is, and not the slash. */
  lemma LoneSlash(text: string, i: nat)
    requires InCode(text, i) && i < |text| && text[i] == '/' && !At(text, "//", i) && !At(text, "/*", i)
    ensures !CodeAt(text, i)
    ensures i + 1 < |text| ==> CodeAt(text, i + 1) && InCode(text, i + 2)
  {
    TwoAt(text, "//", i);
    TwoAt(text, "/*", i);
    assert ModeAt(text, i + 1).Slash?;
  }

  // ---- all of it at once

  function StringEnd(text: string, from: nat, k: nat): (end: nat)
    requires from <= k <= |text| && forall j | from <= j < k :: !IsClosingQuote(text, from, j)
    ensures StringEndsAt(text, from, end)
    decreases |text| - k
  {
    if k == |text| || IsClosingQuote(text, from, k) then k else StringEnd(text, from, k + 1)
  }

  function FirstOr(text: string, pattern: string, from: nat): nat
    requires from <= |text|
  {
    match FindFrom(text, pattern, from)
    case Some(i) => i
    case None => |text|
  }

  /** The places of code from `i` on, comment by comment and string by string. */
  function CodePlaces(text: string, i: nat): set<nat>
    decreases if i <= |text| then |text| - i else 0
  {
    if i >= |text| then {}
    else if At(text, "//", i) then CodePlaces(text, FirstOr(text, "\n", i + 2) + 1)
    else if At(text, "/*", i) then CodePlaces(text, FirstOr(text, "*/", i + 2) + 2)
    else if text[i] == '"' then CodePlaces(text, StringEnd(text, i + 1, i + 1) + 1)
    else if text[i] == '/' then (if i + 1 < |text| then {i + 1} else {}) + CodePlaces(text, i + 2)
    else {i} + CodePlaces(text, i + 1)
  }

  lemma FirstLineEnd(text: string, from: nat)
    requires from <= |text|
    ensures LineEndsAt(text, from, FirstOr(text, "\n", from))
  {
    forall k | from <= k < |text| ensures At(text, "\n", k) <==> text[k] == '\n' {
      assert text[k..k + 1] == [text[k]];
    }
  }

  /** The scanner hands on exactly those places. */
  lemma {:induction false} CodeFromIff(text: string, i: nat, k: nat)
    requires i <= k < |text| && InCode(text, i)
    ensures CodeAt(text, k) <==> k in CodePlaces(text, i)
    decreases |text| - i
  {
    if At(text, "//", i) {
      TwoAt(text, "//", i);
      var end := FirstOr(text, "\n", i + 2);
      FirstLineEnd(text, i + 2);
      LineCommentSkipped(text, i, end);
      FromThere(text, end + 1, k);
      if k > end { CodeFromIff(text, end + 1, k); }
    } else if At(text, "/*", i) {
      TwoAt(text, "/*", i);
      var end := FirstOr(text, "*/", i + 2);
      BlockCommentSkipped(text, i, end);
      FromThere(text, end + 2, k);
      if k > end + 1 { CodeFromIff(text, end + 2, k); }
    } else if text[i] == '"' {
      var end := StringEnd(text, i + 1, i + 1);
      StringSkipped(text, i, end);
      FromThere(text, end + 1, k);
      if k > end { CodeFromIff(text, end + 1, k); }
    } else if text[i] == '/' {
      LoneSlash(text, i);
      FromThere(text, i + 2, k);
      if k > i + 1 { CodeFromIff(text, i + 2, k); }
    } else {
      PlainIsCode(text, i);
      FromThere(text, i + 1, k);
      if k > i { CodeFromIff(text, i + 1, k); }
    }
  }

  /** Nothing before `i` is found from `i` on. */
  lemma {:induction false} FromThere(text: string, i: nat, k: nat)
    ensures k in CodePlaces(text, i) ==> i <= k < |text|
    decreases if i <= |text| then |text| - i else 0
  {
    if i < |text| {
      if At(text, "//", i) {
        TwoAt(text, "//", i);
        FromThere(text, FirstOr(text, "\n", i + 2) + 1, k);
      } else if At(text, "/*", i) {
        TwoAt(text, "/*", i);
        FromThere(text, FirstOr(text, "*/", i + 2) + 2, k);
      } else if text[i] == '"' {
        FromThere(text, StringEnd(text, i + 1, i + 1) + 1, k);
      } else if text[i] == '/' {
        FromThere(text, i + 2, k);
      } else {
        FromThere(text, i + 1, k);
      }
    }
  }

  /** What is code and what is not, for a whole text. */
  lemma CodeIff(text: string, k: nat)
    requires k < |text|
    ensures CodeAt(text, k) <==> k in CodePlaces(text, 0)
  {
    CodeFromIff(text, 0, k);
  }

  // ---- delimiters and macro calls

  /** Plain code: no slashes and no quotes, so every character is handed on. */
  predicate IsPlain(s: string) {
    forall i | 0 <= i < |s| :: s[i] != '/' && s[i] != '"'
  }

  lemma {:induction false} PlainAppended(text: string, more: string, n: nat)
    requires ModeAt(text, |text|) == Code && IsPlain(more) && n <= |more|
    ensures ModeAt(text + more, |text| + n) == Code
    ensures n < |more| ==> CodeAt(text + more, |text| + n)
  {
    if n > 0 {
      PlainAppended(text, more, n - 1);
    } else {
      ModeOfPrefix(text, more, |text|);
    }
  }

  /** A bracketed fragment in any of the three pairs of delimiters is a bracketed fragment. */
  lemma PairIsBracketed(pair: string, inner: string)
    requires pair in {"()", "[]", "{}"}
    requires Bracketed(inner, 0, |inner|) && ModeAt(inner, |inner|) == Code
    ensures var fragment := [pair[0]] + inner + [pair[1]];
            Bracketed(fragment, 0, |fragment|) && ModeAt(fragment, |fragment|) == Code
  {
    var front, fragment := [pair[0]] + inner, [pair[0]] + inner + [pair[1]];
    PlainAppended([], [pair[0]], 0);
    assert [] + [pair[0]] == [pair[0]];
    assert ModeAt([pair[0]], 1) == Code;
    BracketedAppended([pair[0]], inner, 0, |inner|);
    FragmentReturnsToCode([pair[0]], inner);
    BracketedPrefix(front, [pair[1]], 1, |front|);
    ModeOfPrefix(front, [pair[1]], |front|);
    ModeOfPrefix([pair[0]], inner + [pair[1]], 0);
    assert [pair[0]] + (inner + [pair[1]]) == fragment;
    assert OpensAt(fragment, 0) && ClosesAt(fragment, |front|);
    assert Pair(fragment, 0, |front|) && Bracketed(fragment, |fragment|, |fragment|);
  }

  /** Brackets do not depend on what comes after them. */
  lemma {:induction false} BracketedPrefix(text: string, more: string, i: nat, j: nat)
    requires i <= j <= |text| && Bracketed(text, i, j)
    ensures Bracketed(text + more, i, j)
    decreases j - i
  {
    if i < j {
      ModeOfPrefix(text, more, i);
      if !OpensAt(text, i) && !ClosesAt(text, i) && Bracketed(text, i + 1, j) {
        BracketedPrefix(text, more, i + 1, j);
      } else {
        var m :| i < m < j && Pair(text, i, m) && Bracketed(text, m + 1, j);
        ModeOfPrefix(text, more, m);
        BracketedPrefix(text, more, i + 1, m);
        BracketedPrefix(text, more, m + 1, j);
        assert Pair(text + more, i, m);
      }
    }
  }

  predicate NoDelimiters(s: string) {
    forall i | 0 <= i < |s| :: !IsOpening(s[i]) && !IsClosing(s[i])
  }

  lemma {:induction false} PlainStack(text: string, more: string, n: nat)
    requires ModeAt(text, |text|) == Code && IsPlain(more) && NoDelimiters(more) && n <= |more|
    ensures StackAt(text + more, |text| + n) == StackAt(text, |text|)
  {
    if n > 0 {
      PlainStack(text, more, n - 1);
    } else {
      StackOfPrefix(text, more, |text|);
    }
  }

  /** Text without delimiters leaves the answer as it was, and ends in code. */
  lemma PlainKeepsAnswer(text: string, call: string)
    requires ModeAt(text, |text|) == Code && IsPlain(call) && NoDelimiters(call)
    ensures InAssertion(text + call) <==> InAssertion(text)
    ensures ModeAt(text + call, |text + call|) == Code
  {
    PlainStack(text, call, |call|);
    PlainAppended(text, call, |call|);
    assert |text + call| == |text| + |call|;
    SameAnswer(text, call);
  }

  /** An opening delimiter in code goes on the stack. */
  lemma OpenGoesOn(text: string, open: char)
    requires ModeAt(text, |text|) == Code && open in {'(', '[', '{'}
    ensures StackAt(text + [open], |text + [open]|) == StackAt(text, |text|) + [|text|]
  {
    PlainAppended(text, [open], 0);
    StackOfPrefix(text, [open], |text|);
    assert OpensAt(text + [open], |text|);
    assert |text + [open]| == |text| + 1;
  }

  lemma NameIsPlain(name: string)
    requires IsIdentifier(name)
    ensures IsPlain(name + "!") && NoDelimiters(name + "!")
  {
    forall i | 0 <= i < |name + "!"| ensures var c := (name + "!")[i]; c == '!' || IsIdentifierChar(c) {
    }
  }

  predicate IsListed(name: string) {
    name in {"assert", "assert_eq", "assert_ne", "debug_assert", "debug_assert_eq", "debug_assert_ne",
             "require", "require_eq", "require_neq", "require_gt", "require_gte",
             "require_keys_eq", "require_keys_neq"}
  }

  lemma ListedIff(name: string)
    ensures IsAssertionMacro(name) <==> IsListed(name)
  {
  }

  /** The macro's name is what is written before the delimiter. */
  lemma CallAsserts(text: string, name: string, more: string)
    requires NameMayFollow(text) && IsIdentifier(name)
    ensures Asserts(text + (name + "!") + more, |text + (name + "!")|) <==> IsListed(name)
  {
    var called := text + (name + "!");
    assert (called + more)[..|called|] == text + name + "" + "!" + "";
    assert MacroCall(called + more, |called|, text, name, "", "");
    MacroNameIff(called + more, |called|, name);
    ListedIff(name);
  }

  /**
   A name, a bang and an opening delimiter, typed in code: the cursor is then inside an assertion if it
   was before, or the name is that of an assertion macro.
   */
  lemma CallIff(text: string, name: string, open: char)
    requires ModeAt(text, |text|) == Code && NameMayFollow(text) && IsIdentifier(name)
    requires open in {'(', '[', '{'}
    ensures InAssertion(text + (name + "!") + [open]) <==> InAssertion(text) || IsListed(name)
  {
    NameIsPlain(name);
    PlainKeepsAnswer(text, name + "!");
    CallAsserts(text, name, [open]);
    DelimiterIff(text + (name + "!"), open);
  }

  /** An opening delimiter typed in code. */
  lemma DelimiterIff(text: string, open: char)
    requires ModeAt(text, |text|) == Code && open in {'(', '[', '{'}
    ensures InAssertion(text + [open]) <==> InAssertion(text) || Asserts(text + [open], |text|)
  {
    OpenGoesOn(text, open);
    Opened(text, [open], |text|);
  }

  /** One more delimiter is open. */
  lemma Opened(text: string, more: string, k: nat)
    requires k <= |text| && StackAt(text + more, |text + more|) == StackAt(text, |text|) + [k]
    ensures InAssertion(text + more) <==> InAssertion(text) || Asserts(text + more, k)
  {
    var stack, now := StackAt(text, |text|), StackAt(text + more, |text + more|);
    forall a | 0 <= a < |stack| ensures Asserts(text + more, now[a]) == Asserts(text, stack[a]) {
      SameAssert(text, more, stack[a]);
    }
    assert now[|stack|] == k;
    if InAssertion(text) {
      var a :| 0 <= a < |stack| && Asserts(text, stack[a]);
      assert Asserts(text + more, now[a]);
    }
  }
}
