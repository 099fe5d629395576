/** The braces that the pattern scan counts, said of the text itself. */
module PatternText {
  import opened PatternScope

  /** The curly braces of a text, `true` for an opening one. */
  function CurlyBraces(s: string): seq<bool> {
    if s == [] then []
    else CurlyBraces(s[..|s| - 1])
         + if s[|s| - 1] == '{' then [true] else if s[|s| - 1] == '}' then [false] else []
  }

  lemma {:induction false} CurlyConcat(a: string, b: string)
    ensures CurlyBraces(a + b) == CurlyBraces(a) + CurlyBraces(b)
    decreases |b|
  {
    if b == [] {
      assert a + b == a;
    } else {
      CurlyConcat(a, b[..|b| - 1]);
      assert (a + b)[..|a + b| - 1] == a + b[..|b| - 1];
    }
  }

  /** Which of the braces open. */
  function Openings(braces: seq<Brace>): (r: seq<bool>)
    ensures |r| == |braces| && forall k | 0 <= k < |r| :: r[k] == braces[k].Open?
  {
    seq(|braces|, k requires 0 <= k < |braces| => braces[k].Open?)
  }

  lemma OpeningsConcat(a: seq<Brace>, b: seq<Brace>)
    ensures Openings(a + b) == Openings(a) + Openings(b)
  {
  }

  lemma CurlyFirst(c: char, rest: string)
    ensures CurlyBraces([c] + rest)
         == (if c == '{' then [true] else if c == '}' then [false] else []) + CurlyBraces(rest)
  {
    CurlyConcat([c], rest);
    assert [c][..0] == [];
  }

  lemma {:induction false} LineOpenings(line: string, pending: seq<Binding>)
    ensures Openings(LineBraces(line, pending)) == CurlyBraces(line)
    decreases |line|
  {
    if line != [] {
      var rest := line[1..];
      assert line == [line[0]] + rest;
      CurlyFirst(line[0], rest);
      if line[0] == '{' {
        LineOpenings(rest, []);
        OpeningsConcat([Open(pending)], LineBraces(rest, []));
      } else {
        LineOpenings(rest, pending);
        OpeningsConcat([Close], LineBraces(rest, pending));
      }
    }
  }

  lemma LinesUnfold(text: string)
    requires text != []
    ensures var n := BreakAt(text);
            if n == |text| then Lines(text) == [text]
            else
              var end := if n > 0 && text[n - 1] == '\r' then n - 1 else n;
              Lines(text) == [text[..end]] + Lines(text[n + 1..])
  {
  }

  /** A line break, and a carriage return before it, are no braces. */
  lemma FirstLineCurly(text: string, n: nat)
    requires n < |text| && text[n] == '\n'
    ensures CurlyBraces(text)
         == CurlyBraces(if n > 0 && text[n - 1] == '\r' then text[..n - 1] else text[..n]) + CurlyBraces(text[n + 1..])
  {
    assert text == text[..n] + (['\n'] + text[n + 1..]);
    CurlyConcat(text[..n], ['\n'] + text[n + 1..]);
    CurlyFirst('\n', text[n + 1..]);
    if n > 0 && text[n - 1] == '\r' {
      assert text[..n][..n - 1] == text[..n - 1];
    }
  }

  /** The braces scanned are all curly braces of the text in order, however it is cut into lines. */
  lemma {:induction false} BracesAreCurly(text: string, patterns: string -> seq<Binding>)
    ensures Openings(Braces(Lines(text), patterns)) == CurlyBraces(text)
    decreases |text|
  {
    if text != [] {
      var n, lines := BreakAt(text), Lines(text);
      LinesUnfold(text);
      LineOpenings(lines[0], patterns(lines[0]));
      OpeningsConcat(LineBraces(lines[0], patterns(lines[0])), Braces(lines[1..], patterns));
      if n < |text| {
        BracesAreCurly(text[n + 1..], patterns);
        FirstLineCurly(text, n);
        assert lines[1..] == Lines(text[n + 1..]);
      } else {
        assert lines[1..] == [];
      }
    }
  }

  predicate AllClose(braces: seq<Brace>) {
    forall b | b in braces :: b.Close?
  }

  lemma AfterClose(rest: seq<Brace>, k: nat)
    requires 0 < k <= |rest|
    ensures AllClose(([Close] + rest)[..k]) <==> AllClose(rest[..k - 1])
  {
    assert ([Close] + rest)[..k] == [Close] + rest[..k - 1];
  }

  lemma FirstOpens(pending: seq<Binding>, rest: seq<Brace>, k: nat)
    requires 0 < k <= |rest|
    ensures !AllClose(([Open(pending)] + rest)[..k])
  {
    var first := ([Open(pending)] + rest)[..k];
    assert first[0] == Open(pending) && first[0] in first;
  }

  /** The first opening brace of a line takes what its pattern binds, and no other brace takes anything. */
  lemma {:induction false} FirstOpeningTakes(line: string, pending: seq<Binding>, k: nat)
    requires k < |LineBraces(line, pending)| && LineBraces(line, pending)[k].Open?
    ensures var braces := LineBraces(line, pending);
            braces[k].bindings == if AllClose(braces[..k]) then pending else []
    decreases |line|
  {
    if line[0] == '{' {
      assert AllClose([]);
      if k > 0 {
        FirstOpeningTakes(line[1..], [], k - 1);
        FirstOpens(pending, LineBraces(line[1..], []), k);
      }
    } else if line[0] == '}' {
      FirstOpeningTakes(line[1..], pending, k - 1);
      AfterClose(LineBraces(line[1..], pending), k);
    } else {
      FirstOpeningTakes(line[1..], pending, k);
    }
  }
}
