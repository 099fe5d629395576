/**
 Scope by text alone, for sources that do not parse: the bodies of the program modules, and the
 pattern bindings (`if let`, `while let`, match arms) whose block is still open. Positions count
 characters; braces are counted wherever they stand, as the scans do.
 */
module Scope {
  import opened Text

  const PROGRAM_ATTRIBUTE := "#[program]"
  const MODULE_KEYWORD := "mod"

  // ---- matching a delimiter

  /** Opening minus closing delimiters in `source[i..j]`. */
  function Level(source: string, open: char, close: char, i: nat, j: nat): int
    requires i <= j <= |source|
    decreases j
  {
    if i == j then 0
    else Level(source, open, close, i, j - 1)
         + if source[j - 1] == open then 1 else if source[j - 1] == close then -1 else 0
  }

  /** The delimiter at `c` is the first closing one that brings the level since `start` back to zero. */
  ghost predicate FirstClose(source: string, open: char, close: char, start: nat, c: nat) {
    && start <= c < |source| && source[c] == close && Level(source, open, close, start, c + 1) == 0
    && forall j | start <= j < c && source[j] == close :: Level(source, open, close, start, j + 1) > 0
  }

  /** `None` also when a closing delimiter comes first, or when `start` is past the end. */
  method MatchingCloseDelimiter(source: string, start: nat, open: char, close: char) returns (r: Option<nat>)
    requires open != close
    ensures forall c: nat :: r == Some(c) <==> FirstClose(source, open, close, start, c)
  {
    if start > |source| {
      return None;
    }
    var depth: nat := 0;
    for i := start to |source|
      invariant depth == Level(source, open, close, start, i)
      invariant forall j | start <= j < i && source[j] == close :: Level(source, open, close, start, j + 1) > 0
    {
      if source[i] == open {
        depth := depth + 1;
      } else if source[i] == close {
        if depth == 0 {
          assert Level(source, open, close, start, i + 1) < 0;
          return None;
        }
        depth := depth - 1;
        if depth == 0 {
          assert Level(source, open, close, start, i + 1) == 0;
          return Some(i);
        }
      }
    }
    r := None;
  }

  lemma {:induction false} LevelSplits(source: string, open: char, close: char, i: nat, j: nat, k: nat)
    requires i <= j <= k <= |source|
    ensures Level(source, open, close, i, k) == Level(source, open, close, i, j) + Level(source, open, close, j, k)
    decreases k
  {
    if j < k {
      LevelSplits(source, open, close, i, j, k - 1);
    }
  }

  /** The level never falls below zero in `source[i..j]`, and ends at zero. */
  ghost predicate Balanced(source: string, open: char, close: char, i: nat, j: nat) {
    && i <= j <= |source| && Level(source, open, close, i, j) == 0
    && forall k | i <= k <= j :: Level(source, open, close, i, k) >= 0
  }

  lemma {:induction false} LevelStaysPositive(source: string, open: char, close: char, start: nat, c: nat, k: nat)
    requires open != close && FirstClose(source, open, close, start, c) && source[start] == open
    requires start < k <= c
    ensures Level(source, open, close, start, k) > 0
    decreases k
  {
    if k > start + 1 {
      LevelStaysPositive(source, open, close, start, c, k - 1);
    } else {
      assert Level(source, open, close, start, start) == 0;
    }
  }

  /** What stands between an opening delimiter and the one found for it is balanced. */
  lemma InsideIsBalanced(source: string, open: char, close: char, start: nat, c: nat)
    requires open != close && FirstClose(source, open, close, start, c) && source[start] == open
    ensures start < c && Balanced(source, open, close, start + 1, c)
  {
    var inside := start + 1;
    assert Level(source, open, close, start, start) == 0;
    assert Level(source, open, close, start, inside) == 1;
    forall k | inside <= k <= c
      ensures Level(source, open, close, inside, k) == Level(source, open, close, start, k) - 1
      ensures Level(source, open, close, inside, k) >= 0
    {
      LevelSplits(source, open, close, start, inside, k);
      LevelStaysPositive(source, open, close, start, c, k);
    }
    assert Level(source, open, close, start, c + 1) == Level(source, open, close, start, c) - 1;
    assert Level(source, open, close, inside, c) == 0;
    assert Balanced(source, open, close, inside, c);
  }

  // ---- program modules

  /** `needle` occurs at `i` and nowhere from `start` to there. */
  ghost predicate FirstAt(s: string, needle: string, start: nat, i: nat) {
    start <= i && At(s, needle, i) && forall j | start <= j < i :: !At(s, needle, j)
  }

  lemma Opening(s: string, needle: string, i: nat)
    requires needle != [] && At(s, needle, i)
    ensures i < |s| && s[i] == needle[0]
  {
    assert s[i..i + |needle|][0] == s[i];
  }

  /** An attribute, the keyword after it, and the braces around the module's body. */
  datatype ProgramModule = ProgramModule(attribute: nat, keyword: nat, open: nat, close: nat)

  ghost predicate NextModule(source: string, start: nat, m: ProgramModule) {
    && FirstAt(source, PROGRAM_ATTRIBUTE, start, m.attribute)
    && FirstAt(source, MODULE_KEYWORD, m.attribute, m.keyword)
    && FirstAt(source, "{", m.keyword, m.open)
    && FirstClose(source, '{', '}', m.open, m.close)
  }

  /** Where the scan looks for module `i`. */
  function StartOf(modules: seq<ProgramModule>, i: nat): nat
    requires i <= |modules|
  {
    if i == 0 then 0 else modules[i - 1].close + 1
  }

  ghost predicate Linked(source: string, modules: seq<ProgramModule>, i: nat)
    requires i < |modules|
  {
    NextModule(source, StartOf(modules, i), modules[i])
  }

  /** `modules` are found one after the other. */
  ghost predicate Links(source: string, modules: seq<ProgramModule>) {
    forall i | 0 <= i < |modules| :: Linked(source, modules, i)
  }

  ghost predicate NoNext(source: string, start: nat) {
    forall m :: !NextModule(source, start, m)
  }

  /** `modules` are all that is found. */
  ghost predicate AllModules(source: string, modules: seq<ProgramModule>) {
    Links(source, modules) && NoNext(source, StartOf(modules, |modules|))
  }

  function Body(source: string, m: ProgramModule): string
    requires m.open < m.close <= |source|
  {
    source[m.open + 1..m.close]
  }

  lemma ModuleShape(source: string, start: nat, m: ProgramModule)
    requires NextModule(source, start, m)
    ensures start <= m.attribute < m.open < m.close < |source| && source[m.close] == '}'
    ensures Balanced(source, '{', '}', m.open + 1, m.close)
  {
    Opening(source, PROGRAM_ATTRIBUTE, m.attribute);
    Opening(source, "{", m.open);
    InsideIsBalanced(source, '{', '}', m.open, m.close);
  }

  /** Modules are found in order and apart from each other. */
  lemma {:induction false} ModulesInOrder(source: string, modules: seq<ProgramModule>, i: nat, j: nat)
    requires Links(source, modules) && i < j < |modules|
    ensures modules[i].close < modules[j].attribute
    decreases j
  {
    assert Linked(source, modules, j);
    if i < j - 1 {
      ModulesInOrder(source, modules, i, j - 1);
      assert Linked(source, modules, j - 1);
      ModuleShape(source, StartOf(modules, j - 1), modules[j - 1]);
    }
  }

  ghost predicate Covers(m: ProgramModule, p: nat) {
    m.attribute <= p < m.close
  }

  lemma {:induction false} CoveredUpTo(source: string, modules: seq<ProgramModule>, p: nat, n: nat)
    requires Links(source, modules) && At(source, PROGRAM_ATTRIBUTE, p) && n <= |modules|
    ensures (exists i | 0 <= i < n :: Covers(modules[i], p)) || StartOf(modules, n) <= p
  {
    if n > 0 {
      CoveredUpTo(source, modules, p, n - 1);
      if StartOf(modules, n - 1) <= p {
        var m := modules[n - 1];
        assert Linked(source, modules, n - 1);
        ModuleShape(source, StartOf(modules, n - 1), m);
        Opening(source, PROGRAM_ATTRIBUTE, p);
        assert Covers(m, p) || m.close < p;
      }
    }
  }

  /** No attribute is passed over: each lies in a module found, except those after all of them. */
  lemma AttributesCovered(source: string, modules: seq<ProgramModule>, p: nat)
    requires AllModules(source, modules) && At(source, PROGRAM_ATTRIBUTE, p)
    ensures (exists i | 0 <= i < |modules| :: Covers(modules[i], p)) <==> p < StartOf(modules, |modules|)
  {
    CoveredUpTo(source, modules, p, |modules|);
    forall i | 0 <= i < |modules| && Covers(modules[i], p) ensures p < StartOf(modules, |modules|) {
      if i < |modules| - 1 {
        ModulesInOrder(source, modules, i, |modules| - 1);
        LastShape(source, modules);
      }
    }
  }

  lemma LastShape(source: string, modules: seq<ProgramModule>)
    requires Links(source, modules) && modules != []
    ensures modules[|modules| - 1].attribute < modules[|modules| - 1].close
  {
    assert Linked(source, modules, |modules| - 1);
    ModuleShape(source, StartOf(modules, |modules| - 1), modules[|modules| - 1]);
  }

  lemma FirstUnique(s: string, needle: string, start: nat, i: nat, j: nat)
    requires FirstAt(s, needle, start, i) && FirstAt(s, needle, start, j)
    ensures i == j
  {
  }

  lemma CloseUnique(source: string, open: char, close: char, start: nat, c: nat, d: nat)
    requires FirstClose(source, open, close, start, c) && FirstClose(source, open, close, start, d)
    ensures c == d
  {
  }

  lemma NextUnique(source: string, start: nat, m: ProgramModule, n: ProgramModule)
    requires NextModule(source, start, m) && NextModule(source, start, n)
    ensures m == n
  {
    FirstUnique(source, PROGRAM_ATTRIBUTE, start, m.attribute, n.attribute);
    FirstUnique(source, MODULE_KEYWORD, m.attribute, m.keyword, n.keyword);
    FirstUnique(source, "{", m.keyword, m.open, n.open);
    CloseUnique(source, '{', '}', m.open, m.close, n.close);
  }

  lemma {:induction false} SameUpTo(source: string, a: seq<ProgramModule>, b: seq<ProgramModule>, n: nat)
    requires Links(source, a) && Links(source, b) && n <= |a| && n <= |b|
    ensures a[..n] == b[..n]
  {
    if n > 0 {
      SameUpTo(source, a, b, n - 1);
      if n > 1 {
        assert a[n - 2] == a[..n - 1][n - 2] && b[n - 2] == b[..n - 1][n - 2];
      }
      assert Linked(source, a, n - 1) && Linked(source, b, n - 1);
      NextUnique(source, StartOf(a, n - 1), a[n - 1], b[n - 1]);
      assert a[..n] == a[..n - 1] + [a[n - 1]] && b[..n] == b[..n - 1] + [b[n - 1]];
    }
  }

  lemma MoreMeansNext(source: string, a: seq<ProgramModule>, b: seq<ProgramModule>)
    requires Links(source, a) && Links(source, b) && |a| < |b|
    ensures NextModule(source, StartOf(a, |a|), b[|a|])
  {
    SameUpTo(source, a, b, |a|);
    if |a| > 0 {
      assert a[..|a|][|a| - 1] == b[..|a|][|a| - 1];
    }
    assert Linked(source, b, |a|);
  }

  lemma NotLonger(source: string, a: seq<ProgramModule>, b: seq<ProgramModule>)
    requires AllModules(source, a) && Links(source, b)
    ensures |b| <= |a|
  {
    if |a| < |b| {
      MoreMeansNext(source, a, b);
    }
  }

  /** A source determines its modules. */
  lemma ModulesUnique(source: string, a: seq<ProgramModule>, b: seq<ProgramModule>)
    requires AllModules(source, a) && AllModules(source, b)
    ensures a == b
  {
    NotLonger(source, a, b);
    NotLonger(source, b, a);
    SameUpTo(source, a, b, |a|);
    assert a == a[..|a|] && b == b[..|a|];
  }

  function Bodies(source: string, modules: seq<ProgramModule>): (bodies: seq<string>)
    requires forall i | 0 <= i < |modules| :: modules[i].open < modules[i].close <= |source|
    ensures |bodies| == |modules|
  {
    seq(|modules|, i requires 0 <= i < |modules| => Body(source, modules[i]))
  }

  lemma LinkNext(source: string, modules: seq<ProgramModule>, m: ProgramModule)
    requires Links(source, modules) && NextModule(source, StartOf(modules, |modules|), m)
    ensures Links(source, modules + [m])
  {
    forall i | 0 <= i < |modules + [m]| ensures Linked(source, modules + [m], i) {
      assert i < |modules| ==> Linked(source, modules, i);
    }
  }

  /** What the scan has found when it goes on at `searchStart`. */
  ghost predicate Found(source: string, modules: seq<ProgramModule>, bodies: seq<string>, searchStart: nat) {
    && Links(source, modules) && searchStart == StartOf(modules, |modules|) <= |source|
    && (forall i | 0 <= i < |modules| :: modules[i].open < modules[i].close < |source|)
    && bodies == Bodies(source, modules)
  }

  lemma FoundNext(source: string, modules: seq<ProgramModule>, bodies: seq<string>, searchStart: nat, m: ProgramModule)
    requires Found(source, modules, bodies, searchStart) && NextModule(source, searchStart, m)
    ensures searchStart < m.close && m.open < m.close < |source|
    ensures Found(source, modules + [m], bodies + [Body(source, m)], m.close + 1)
  {
    ModuleShape(source, searchStart, m);
    LinkNext(source, modules, m);
    assert Bodies(source, modules + [m]) == bodies + [Body(source, m)];
  }

  lemma NoAttribute(source: string, start: nat)
    requires forall i | start <= i :: !At(source, PROGRAM_ATTRIBUTE, i)
    ensures NoNext(source, start)
  {
  }

  lemma NoKeyword(source: string, start: nat, attribute: nat)
    requires FirstAt(source, PROGRAM_ATTRIBUTE, start, attribute)
    requires forall i | attribute <= i :: !At(source, MODULE_KEYWORD, i)
    ensures NoNext(source, start)
  {
    forall m ensures !NextModule(source, start, m) {
      if NextModule(source, start, m) {
        FirstUnique(source, PROGRAM_ATTRIBUTE, start, m.attribute, attribute);
      }
    }
  }

  lemma NoBraces(source: string, start: nat, attribute: nat, keyword: nat)
    requires FirstAt(source, PROGRAM_ATTRIBUTE, start, attribute) && FirstAt(source, MODULE_KEYWORD, attribute, keyword)
    requires forall open, close | FirstAt(source, "{", keyword, open) :: !FirstClose(source, '{', '}', open, close)
    ensures NoNext(source, start)
  {
    forall m ensures !NextModule(source, start, m) {
      if NextModule(source, start, m) {
        FirstUnique(source, PROGRAM_ATTRIBUTE, start, m.attribute, attribute);
        FirstUnique(source, MODULE_KEYWORD, attribute, m.keyword, keyword);
      }
    }
  }

  lemma NoClose(source: string, start: nat, attribute: nat, keyword: nat, open: nat)
    requires FirstAt(source, PROGRAM_ATTRIBUTE, start, attribute) && FirstAt(source, MODULE_KEYWORD, attribute, keyword)
    requires FirstAt(source, "{", keyword, open)
    requires forall close: nat :: !FirstClose(source, '{', '}', open, close)
    ensures NoNext(source, start)
  {
    forall i, close | FirstAt(source, "{", keyword, i) ensures !FirstClose(source, '{', '}', i, close) {
      FirstUnique(source, "{", keyword, i, open);
    }
    NoBraces(source, start, attribute, keyword);
  }

  /** `bodies` are the bodies of the modules found, of all of them and in order. */
  ghost predicate AreBodies(source: string, bodies: seq<string>) {
    exists modules :: AllModules(source, modules) && Found(source, modules, bodies, StartOf(modules, |modules|))
  }

  lemma ScanStops(source: string, modules: seq<ProgramModule>, bodies: seq<string>, searchStart: nat)
    requires Found(source, modules, bodies, searchStart) && NoNext(source, searchStart)
    ensures AreBodies(source, bodies)
  {
    assert AllModules(source, modules);
  }

  lemma NothingFound(source: string)
    ensures Found(source, [], [], 0)
  {
  }

  method ProgramModuleBodies(source: string) returns (bodies: seq<string>)
    ensures AreBodies(source, bodies)
  {
    bodies := [];
    ghost var modules := [];
    var searchStart := 0;
    NothingFound(source);
    while true
      invariant Found(source, modules, bodies, searchStart)
      decreases |source| - searchStart
    {
      var attribute := FindFrom(source, PROGRAM_ATTRIBUTE, searchStart);
      if attribute == None {
        NoAttribute(source, searchStart);
        ScanStops(source, modules, bodies, searchStart);
        return;
      }
      var keyword := FindFrom(source, MODULE_KEYWORD, attribute.value);
      if keyword == None {
        NoKeyword(source, searchStart, attribute.value);
        ScanStops(source, modules, bodies, searchStart);
        return;
      }
      var open := FindFrom(source, "{", keyword.value);
      if open == None {
        NoBraces(source, searchStart, attribute.value, keyword.value);
        ScanStops(source, modules, bodies, searchStart);
        return;
      }
      var close := MatchingCloseDelimiter(source, open.value, '{', '}');
      if close == None {
        NoClose(source, searchStart, attribute.value, keyword.value, open.value);
        ScanStops(source, modules, bodies, searchStart);
        return;
      }
      ghost var m := ProgramModule(attribute.value, keyword.value, open.value, close.value);
      FoundNext(source, modules, bodies, searchStart, m);
      bodies := bodies + [source[open.value + 1..close.value]];
      modules := modules + [m];
      searchStart := close.value + 1;
    }
  }
}
