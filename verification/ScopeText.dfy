/** What the scan for program modules finds, said of the text itself. */
module ScopeText {
  import opened Text
  import opened Scope

  /** A closing delimiter behind balanced text is the one that closes. */
  lemma BalancedCloses(source: string, open: char, close: char, start: nat, c: nat)
    requires open != close && start < c < |source| && source[start] == open && source[c] == close
    requires Balanced(source, open, close, start + 1, c)
    ensures FirstClose(source, open, close, start, c)
  {
    assert Level(source, open, close, start, start) == 0 && Level(source, open, close, start, start + 1) == 1;
    LevelSplits(source, open, close, start, start + 1, c);
    assert Level(source, open, close, start, c + 1) == Level(source, open, close, start, c) - 1;
    forall j | start <= j < c && source[j] == close ensures Level(source, open, close, start, j + 1) > 0 {
      LevelSplits(source, open, close, start, start + 1, j + 1);
    }
  }

  /** `text` begins at `i`, and nowhere from `start` to there. */
  ghost predicate BeginsFirst(s: string, text: string, start: nat, i: nat) {
    start <= i <= |s| && text <= s[i..] && forall j | start <= j < i :: !(text <= s[j..])
  }

  lemma FirstIff(s: string, text: string, start: nat, i: nat)
    ensures FirstAt(s, text, start, i) <==> BeginsFirst(s, text, start, i)
  {
    forall j | 0 <= j <= |s| ensures At(s, text, j) <==> text <= s[j..] {
      if j + |text| <= |s| {
        assert s[j..j + |text|] == s[j..][..|text|];
      }
    }
  }

  /**
   A module is the first `#[program]`, the first `mod` after it, the first opening brace after that,
   and the closing one that leaves balanced text between them.
   */
  lemma ModuleIff(source: string, start: nat, m: ProgramModule)
    ensures NextModule(source, start, m)
       <==> && BeginsFirst(source, "#[program]", start, m.attribute)
            && BeginsFirst(source, "mod", m.attribute, m.keyword)
            && BeginsFirst(source, "{", m.keyword, m.open)
            && m.open < m.close < |source| && source[m.close] == '}'
            && Balanced(source, '{', '}', m.open + 1, m.close)
  {
    FirstIff(source, "#[program]", start, m.attribute);
    FirstIff(source, "mod", m.attribute, m.keyword);
    FirstIff(source, "{", m.keyword, m.open);
    if NextModule(source, start, m) {
      ModuleShape(source, start, m);
    } else if BeginsFirst(source, "{", m.keyword, m.open) && m.open < m.close < |source| && source[m.close] == '}'
              && Balanced(source, '{', '}', m.open + 1, m.close) {
      BalancedCloses(source, '{', '}', m.open, m.close);
    }
  }
}
