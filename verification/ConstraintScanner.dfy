/**
 The hand-written scanners that read attribute and macro text: one lexer of strings, escapes
 and line comments, and the delimiter matcher, the two splitters and the comment stripper that
 are built on it.
 */
module ConstraintScanner {
  import opened Text

  datatype Mode = Code | Quoted(escaped: bool) | LineComment

  predicate StartsComment(s: string) {
    |s| >= 2 && s[0] == '/' && s[1] == '/'
  }

  /** The mode after the first character of `s`. */
  function NextMode(mode: Mode, s: string): Mode
    requires s != []
  {
    match mode
    case LineComment => if s[0] == '\n' then Code else LineComment
    case Quoted(true) => Quoted(false)
    case Quoted(false) => if s[0] == '\\' then Quoted(true) else if s[0] == '"' then Code else Quoted(false)
    case Code => if StartsComment(s) then LineComment else if s[0] == '"' then Quoted(false) else Code
  }

  /** The first character of `s` is code: not in or opening a string or a comment. */
  predicate IsCode(mode: Mode, s: string)
    requires s != []
  {
    mode.Code? && !StartsComment(s) && s[0] != '"'
  }

  /** The scanners' three flags as one mode. */
  function ModeOf(inString: bool, escaped: bool, lineComment: bool): Mode {
    if lineComment then LineComment else if inString then Quoted(escaped) else Code
  }

  /** A position found in the rest of a text, counted from its start. */
  function Shift(r: Option<nat>, n: nat): Option<nat> {
    match r
    case Some(i) => Some(i + n)
    case None => None
  }

  predicate FlagsOk(inString: bool, escaped: bool, lineComment: bool) {
    !(inString && lineComment) && (escaped ==> inString)
  }

  /** The part that every scanner's loop starts with: update the flags, tell whether `s` starts with code. */
  method LexCharacter(s: string, inString: bool, escaped: bool, lineComment: bool)
    returns (code: bool, inString': bool, escaped': bool, lineComment': bool)
    requires s != [] && FlagsOk(inString, escaped, lineComment)
    ensures code == IsCode(ModeOf(inString, escaped, lineComment), s)
    ensures FlagsOk(inString', escaped', lineComment')
    ensures ModeOf(inString', escaped', lineComment') == NextMode(ModeOf(inString, escaped, lineComment), s)
  {
    code, inString', escaped', lineComment' := false, inString, escaped, lineComment;
    var ch := s[0];
    if lineComment {
      if ch == '\n' { lineComment' := false; }
    } else if inString {
      if escaped {
        escaped' := false;
      } else if ch == '\\' {
        escaped' := true;
      } else if ch == '"' {
        inString' := false;
      }
    } else if ch == '/' && |s| > 1 && s[1] == '/' {
      lineComment' := true;
    } else if ch == '"' {
      inString' := true;
    } else {
      code := true;
    }
  }

  // ---- matching delimiters

  /** The delimiter depth after the first character of `s`. */
  function NextDepth(s: string, open: char, close: char, mode: Mode, depth: nat): nat
    requires s != []
  {
    if !IsCode(mode, s) then depth
    else if s[0] == open then depth + 1
    else if s[0] == close && depth > 0 then depth - 1
    else depth
  }

  /** `matching_delimiter` from the current character on; the index is relative. */
  function MatchFrom(s: string, open: char, close: char, mode: Mode, depth: nat): Option<nat>
    decreases |s|
  {
    if s == [] then None
    else if IsCode(mode, s) && s[0] == close && s[0] != open && depth <= 1 then Some(0)
    else Shift(MatchFrom(s[1..], open, close, NextMode(mode, s), NextDepth(s, open, close, mode, depth)), 1)
  }

  function Weight(c: char, open: char, close: char): int {
    if c == open then 1 else if c == close then -1 else 0
  }

  /** Openings minus closings among the code characters of the first `n`. */
  function Balance(s: string, open: char, close: char, mode: Mode, n: nat): int
    requires n <= |s|
    decreases n
  {
    if n == 0 then 0
    else
      (if IsCode(mode, s) then Weight(s[0], open, close) else 0)
      + Balance(s[1..], open, close, NextMode(mode, s), n - 1)
  }

  /** The delimiters of `s` first balance out at its character `i`, given `depth` open ones. */
  predicate FirstBalanced(s: string, open: char, close: char, mode: Mode, depth: nat, i: nat) {
    && i < |s|
    && depth + Balance(s, open, close, mode, i + 1) == 0
    && forall j | 0 <= j <= i :: depth + Balance(s, open, close, mode, j) > 0
  }

  lemma BalanceStep(s: string, open: char, close: char, mode: Mode, n: nat)
    requires n < |s|
    ensures Balance(s, open, close, mode, n + 1)
         == (if IsCode(mode, s) then Weight(s[0], open, close) else 0)
            + Balance(s[1..], open, close, NextMode(mode, s), n)
  {
  }

  /** Balancing out later than the first character is balancing out in the rest. */
  lemma BalancedLater(s: string, open: char, close: char, mode: Mode, depth: nat, next: nat, i: nat)
    requires s != [] && i > 0
    requires next == depth + (if IsCode(mode, s) then Weight(s[0], open, close) else 0) && depth > 0
    ensures FirstBalanced(s, open, close, mode, depth, i)
       <==> next > 0 && FirstBalanced(s[1..], open, close, NextMode(mode, s), next, i - 1)
  {
    if i < |s| {
      BalanceStep(s, open, close, mode, i);
      assert Balance(s, open, close, mode, 0) == 0;
      assert Balance(s[1..], open, close, NextMode(mode, s), 0) == 0;
      forall j | 0 <= j < i
        ensures Balance(s, open, close, mode, j + 1)
             == next - depth + Balance(s[1..], open, close, NextMode(mode, s), j)
      {
        BalanceStep(s, open, close, mode, j);
      }
      if FirstBalanced(s[1..], open, close, NextMode(mode, s), next, i - 1) {
        forall j | 0 < j <= i ensures depth + Balance(s, open, close, mode, j) > 0 {
          assert Balance(s, open, close, mode, (j - 1) + 1)
              == next - depth + Balance(s[1..], open, close, NextMode(mode, s), j - 1);
        }
      }
    }
  }

  lemma BalancedHere(s: string, open: char, close: char, mode: Mode, depth: nat)
    requires open != close && depth > 0 && s != []
    ensures FirstBalanced(s, open, close, mode, depth, 0) <==> IsCode(mode, s) && s[0] == close && depth == 1
  {
    BalanceStep(s, open, close, mode, 0);
    assert Balance(s, open, close, mode, 0 + 1) == if IsCode(mode, s) then Weight(s[0], open, close) else 0;
  }

  /** With a delimiter open, the match is the place where the delimiters first balance out. */
  lemma {:induction false} MatchIsFirstBalanced(s: string, open: char, close: char, mode: Mode, depth: nat, i: nat)
    requires open != close && depth > 0
    ensures MatchFrom(s, open, close, mode, depth) == Some(i) <==> FirstBalanced(s, open, close, mode, depth, i)
    decreases |s|
  {
    if s != [] {
      BalancedHere(s, open, close, mode, depth);
      if i > 0 {
        var next := NextDepth(s, open, close, mode, depth);
        BalancedLater(s, open, close, mode, depth, next, i);
        if next > 0 {
          MatchIsFirstBalanced(s[1..], open, close, NextMode(mode, s), next, i - 1);
        }
      }
    }
  }

  /** From an opening delimiter, `matching_delimiter` finds the closing one that balances it. */
  lemma MatchingDelimiterBalances(source: string, openIndex: nat, open: char, close: char, i: nat)
    requires openIndex < |source| && source[openIndex] == open && open != close && open != '/' && open != '"'
    ensures MatchFrom(source[openIndex..], open, close, Code, 0) == Some(i + 1)
       <==> FirstBalanced(source[openIndex + 1..], open, close, Code, 1, i)
  {
    assert source[openIndex..][1..] == source[openIndex + 1..];
    MatchIsFirstBalanced(source[openIndex + 1..], open, close, Code, 1, i);
  }

  /** Where the search will end, once `index` is reached in that mode and depth. */
  ghost function MatchAhead(source: string, open: char, close: char, index: nat, mode: Mode, depth: nat): Option<nat>
    requires index <= |source|
  {
    Shift(MatchFrom(source[index..], open, close, mode, depth), index)
  }

  lemma MatchStep(source: string, open: char, close: char, index: nat, mode: Mode, depth: nat)
    requires index < |source|
    requires !(IsCode(mode, source[index..]) && source[index] == close && source[index] != open && depth <= 1)
    ensures MatchAhead(source, open, close, index, mode, depth)
         == MatchAhead(source, open, close, index + 1, NextMode(mode, source[index..]),
                       NextDepth(source[index..], open, close, mode, depth))
  {
    assert source[index..][1..] == source[index + 1..];
  }

  lemma MatchHere(source: string, open: char, close: char, index: nat, depth: nat)
    requires index < |source| && IsCode(Code, source[index..]) && source[index] == close && close != open && depth <= 1
    ensures MatchAhead(source, open, close, index, Code, depth) == Some(index)
  {
  }

  method MatchingDelimiter(source: string, openIndex: nat, open: char, close: char) returns (r: Option<nat>)
    requires openIndex <= |source|
    ensures r == MatchAhead(source, open, close, openIndex, Code, 0)
  {
    var depth: nat := 0;
    var inString, escaped, lineComment := false, false, false;
    var index := openIndex;
    while index < |source|
      invariant openIndex <= index <= |source| && FlagsOk(inString, escaped, lineComment)
      invariant MatchAhead(source, open, close, openIndex, Code, 0)
             == MatchAhead(source, open, close, index, ModeOf(inString, escaped, lineComment), depth)
    {
      var ch := source[index];
      ghost var mode, before := ModeOf(inString, escaped, lineComment), depth;
      var code;
      code, inString, escaped, lineComment := LexCharacter(source[index..], inString, escaped, lineComment);
      if code && ch == open {
        depth := depth + 1;
      } else if code && ch == close {
        depth := if depth > 0 then depth - 1 else 0;
        if depth == 0 {
          MatchHere(source, open, close, index, before);
          return Some(index);
        }
      }
      MatchStep(source, open, close, index, mode, before);
      index := index + 1;
    }
    r := None;
  }

  // ---- splitting at the top level

  /** Lexer mode and bracket depth; closing brackets never take the depth below zero. */
  datatype State = State(mode: Mode, depth: nat)

  const START := State(Code, 0)

  function NextState(st: State, s: string): State
    requires s != []
  {
    State(NextMode(st.mode, s),
          if !IsCode(st.mode, s) then st.depth
          else if IsOpening(s[0]) then st.depth + 1
          else if IsClosing(s[0]) && st.depth > 0 then st.depth - 1
          else st.depth)
  }

  /** The first character of `s` is `needle` outside strings, comments and brackets. */
  predicate AtTop(st: State, s: string, needle: char)
    requires s != []
  {
    IsCode(st.mode, s) && st.depth == 0 && s[0] == needle && !IsOpening(needle) && !IsClosing(needle)
  }

  /** `split_once_top_level`: the first top-level `needle`. */
  function FindTop(s: string, needle: char, st: State): (r: Option<nat>)
    ensures r.Some? ==> r.value < |s| && s[r.value] == needle
    decreases |s|
  {
    if s == [] then None
    else if AtTop(st, s, needle) then Some(0)
    else Shift(FindTop(s[1..], needle, NextState(st, s)), 1)
  }

  /** `split_top_level_constraints` before trimming: one scan, one piece per top-level comma and one more. */
  function Pieces(s: string, st: State): (pieces: seq<string>)
    ensures pieces != []
    decreases |s|
  {
    if s == [] then [[]]
    else if AtTop(st, s, ',') then [[]] + Pieces(s[1..], st)
    else
      var rest := Pieces(s[1..], NextState(st, s));
      [[s[0]] + rest[0]] + rest[1..]
  }

  /** Rejoined with commas, the pieces are the input. */
  lemma {:induction false} PiecesRejoin(s: string, st: State)
    ensures Join(Pieces(s, st), ",") == s
    decreases |s|
  {
    if s != [] {
      var next := if AtTop(st, s, ',') then st else NextState(st, s);
      var rest := Pieces(s[1..], next);
      PiecesRejoin(s[1..], next);
      if AtTop(st, s, ',') {
        assert ([[]] + rest)[1..] == rest;
        assert [] + "," + Join(rest, ",") == s;
      } else {
        JoinPrepend(s[0], rest);
      }
    }
  }

  lemma JoinPrepend(c: char, pieces: seq<string>)
    requires pieces != []
    ensures Join([[c] + pieces[0]] + pieces[1..], ",") == [c] + Join(pieces, ",")
  {
    var more := [[c] + pieces[0]] + pieces[1..];
    assert more[1..] == pieces[1..];
    if |pieces| > 1 {
      assert [c] + pieces[0] + "," + Join(pieces[1..], ",") == [c] + (pieces[0] + "," + Join(pieces[1..], ","));
    }
  }

  lemma CutInTail(s: string, i: nat)
    requires i + 1 < |s|
    ensures s[..i + 1] == [s[0]] + s[1..][..i] && s[1..][i + 1..] == s[i + 1 + 1..]
  {
  }

  /** The one-scan splitter is `split_once_top_level` repeated, each time starting afresh. */
  lemma {:induction false} PiecesByFindTop(s: string, st: State)
    ensures Pieces(s, st) == match FindTop(s, ',', st)
                             case None => [s]
                             case Some(i) => [s[..i]] + Pieces(s[i + 1..], START)
    decreases |s|
  {
    if s != [] && !AtTop(st, s, ',') {
      PiecesByFindTop(s[1..], NextState(st, s));
      match FindTop(s[1..], ',', NextState(st, s))
      case None => assert s == [s[0]] + s[1..];
      case Some(i) =>
        CutInTail(s, i);
    } else if s != [] {
      assert st == START;
      assert s[..0] == [];
    }
  }

  /** Cutting a text off, before a comma or at its end, does not change how it is scanned. */
  lemma {:induction false} CutBeforeComma(s: string, more: string, st: State)
    requires more == [] || more[0] != '/'
    requires FindTop(s + more, ',', st) == None || FindTop(s + more, ',', st).value >= |s|
    ensures FindTop(s, ',', st) == None
    decreases |s|
  {
    if s != [] {
      assert (s + more)[0] == s[0] && (s + more)[1..] == s[1..] + more;
      assert StartsComment(s + more) == StartsComment(s);
      CutBeforeComma(s[1..], more, NextState(st, s));
    }
  }

  /** Splitting a piece again gives that piece. */
  lemma {:induction false} PiecesAreWhole(s: string, piece: string)
    requires piece in Pieces(s, START)
    ensures Pieces(piece, START) == [piece]
    decreases |s|
  {
    PiecesByFindTop(s, START);
    match FindTop(s, ',', START)
    case None =>
    case Some(i) =>
      if piece == s[..i] {
        assert s == s[..i] + s[i..];
        CutBeforeComma(s[..i], s[i..], START);
        PiecesByFindTop(piece, START);
      } else {
        assert piece in Pieces(s[i + 1..], START);
        PiecesAreWhole(s[i + 1..], piece);
      }
  }

  /** Where the scan will stop, once `index` is reached in state `st`. */
  ghost function Ahead(input: string, needle: char, index: nat, st: State): Option<nat>
    requires index <= |input|
  {
    Shift(FindTop(input[index..], needle, st), index)
  }

  method SplitOnceTopLevel(input: string, needle: char) returns (r: Option<(string, string)>)
    ensures match FindTop(input, needle, START)
            case Some(i) => r == Some((input[..i], input[i + 1..]))
            case None => r == None
  {
    var depth: nat := 0;
    var inString, escaped, lineComment := false, false, false;
    var index := 0;
    while index < |input|
      invariant index <= |input| && FlagsOk(inString, escaped, lineComment)
      invariant Ahead(input, needle, 0, START)
             == Ahead(input, needle, index, State(ModeOf(inString, escaped, lineComment), depth))
    {
      var ch := input[index];
      ghost var st := State(ModeOf(inString, escaped, lineComment), depth);
      var code;
      code, inString, escaped, lineComment := LexCharacter(input[index..], inString, escaped, lineComment);
      if code && IsOpening(ch) {
        depth := depth + 1;
      } else if code && IsClosing(ch) {
        depth := if depth > 0 then depth - 1 else 0;
      } else if code && ch == needle && depth == 0 {
        assert input[0..] == input;
        return Some((input[..index], input[index + 1..]));
      }
      FindStep(input, needle, index, st);
      index := index + 1;
    }
    assert input[0..] == input;
    r := None;
  }

  lemma FindStep(input: string, needle: char, index: nat, st: State)
    requires index < |input| && !AtTop(st, input[index..], needle)
    ensures Ahead(input, needle, index, st) == Ahead(input, needle, index + 1, NextState(st, input[index..]))
  {
    assert input[index..][1..] == input[index + 1..];
  }

  // ---- trimmed constraints

  /** Every piece trimmed; the last one is left out when nothing remains of it. */
  function Trimmed(pieces: seq<string>): seq<string>
    requires pieces != []
  {
    if |pieces| > 1 then [Trim(pieces[0])] + Trimmed(pieces[1..])
    else if Trim(pieces[0]) == [] then []
    else [Trim(pieces[0])]
  }

  function Constraints(input: string): seq<string> {
    Trimmed(Pieces(input, START))
  }

  /** The pieces of a text whose scan began with `head` already read. */
  function Prepend(head: string, pieces: seq<string>): seq<string>
    requires pieces != []
  {
    [head + pieces[0]] + pieces[1..]
  }

  /** The constraints still to come when `index` is reached in a piece that began at `start`. */
  ghost function ToCome(input: string, start: nat, index: nat, st: State): seq<string>
    requires start <= index <= |input|
  {
    Trimmed(Prepend(input[start..index], Pieces(input[index..], st)))
  }

  /** `done` are the constraints before `start`, and the scan has reached `index` in the piece there. */
  ghost predicate SplitSoFar(input: string, done: seq<string>, start: nat, index: nat, st: State) {
    start <= index <= |input| && Constraints(input) == done + ToCome(input, start, index, st)
  }

  method SplitTopLevelConstraints(input: string) returns (constraints: seq<string>)
    ensures constraints == Constraints(input)
  {
    constraints := [];
    var start, index := 0, 0;
    var depth: nat := 0;
    var inString, escaped, lineComment := false, false, false;
    FromTheStart(input);
    while index < |input|
      invariant start <= index <= |input| && FlagsOk(inString, escaped, lineComment)
      invariant SplitSoFar(input, constraints, start, index, State(ModeOf(inString, escaped, lineComment), depth))
    {
      var ch := input[index];
      ghost var st := State(ModeOf(inString, escaped, lineComment), depth);
      var code;
      code, inString, escaped, lineComment := LexCharacter(input[index..], inString, escaped, lineComment);
      if code && ch == ',' && depth == 0 {
        CutHere(input, constraints, start, index);
        constraints := constraints + [Trim(input[start..index])];
        start := index + 1;
      } else {
        if code && IsOpening(ch) {
          depth := depth + 1;
        } else if code && IsClosing(ch) {
          depth := if depth > 0 then depth - 1 else 0;
        }
        ReadOn(input, constraints, start, index, st);
      }
      index := index + 1;
    }
    LastPiece(input, constraints, start, State(ModeOf(inString, escaped, lineComment), depth));
    var tail := Trim(input[start..]);
    if tail != [] {
      constraints := constraints + [tail];
    }
  }

  lemma FromTheStart(input: string)
    ensures SplitSoFar(input, [], 0, 0, START)
  {
    assert input[0..] == input && input[0..0] == [];
    PrependNothing(Pieces(input, START));
  }

  lemma ReadOn(input: string, done: seq<string>, start: nat, index: nat, st: State)
    requires SplitSoFar(input, done, start, index, st) && index < |input| && !AtTop(st, input[index..], ',')
    ensures SplitSoFar(input, done, start, index + 1, NextState(st, input[index..]))
  {
    var s := input[index..];
    assert s[1..] == input[index + 1..];
    var rest := Pieces(s[1..], NextState(st, s));
    assert input[start..index] + ([s[0]] + rest[0]) == input[start..index + 1] + rest[0];
  }

  lemma CutHere(input: string, done: seq<string>, start: nat, index: nat)
    requires SplitSoFar(input, done, start, index, START) && index < |input| && input[index] == ','
    ensures SplitSoFar(input, done + [Trim(input[start..index])], index + 1, index + 1, START)
    ensures NextState(START, input[index..]) == START
  {
    var s := input[index..];
    assert s[1..] == input[index + 1..];
    var rest := Pieces(s[1..], START);
    var cut := [input[start..index]] + rest;
    assert input[start..index] + [] == input[start..index];
    assert ([[]] + rest)[1..] == rest && cut[1..] == rest;
    assert Prepend(input[start..index], Pieces(s, START)) == cut;
    assert input[index + 1..index + 1] == [];
    PrependNothing(rest);
    assert done + ([Trim(input[start..index])] + Trimmed(rest)) == (done + [Trim(input[start..index])]) + Trimmed(rest);
  }

  lemma LastPiece(input: string, done: seq<string>, start: nat, st: State)
    requires SplitSoFar(input, done, start, |input|, st)
    ensures Constraints(input) == done + if Trim(input[start..]) == [] then [] else [Trim(input[start..])]
  {
    var piece := input[start..];
    assert input[|input|..] == [] && input[start..|input|] == piece;
    var none: seq<string> := [[]];
    assert piece + none[0] == piece && none[1..] == [];
    assert Prepend(piece, none) == [piece];
  }

  lemma PrependNothing(pieces: seq<string>)
    requires pieces != []
    ensures Prepend([], pieces) == pieces
  {
    assert [] + pieces[0] == pieces[0];
    assert [pieces[0]] + pieces[1..] == pieces;
  }

  // ---- a trimmed constraint is one constraint

  lemma {:induction false} TrimStartKeepsWhole(s: string)
    requires FindTop(s, ',', START) == None
    ensures FindTop(TrimStart(s), ',', START) == None
  {
    if s != [] && IsSpace(s[0]) {
      assert NextState(START, s) == START;
      TrimStartKeepsWhole(s[1..]);
    }
  }

  lemma {:induction false} TrimEndKeepsWhole(s: string)
    requires FindTop(s, ',', START) == None
    ensures FindTop(TrimEnd(s), ',', START) == None
  {
    if s != [] && IsSpace(s[|s| - 1]) {
      assert s == s[..|s| - 1] + [s[|s| - 1]];
      CutBeforeComma(s[..|s| - 1], [s[|s| - 1]], START);
      TrimEndKeepsWhole(s[..|s| - 1]);
    }
  }

  lemma {:induction false} TrimEndPrefix(s: string)
    ensures TrimEnd(s) <= s && TrimEnd(TrimEnd(s)) == TrimEnd(s)
  {
    if s != [] && IsSpace(s[|s| - 1]) {
      TrimEndPrefix(s[..|s| - 1]);
    }
  }

  lemma {:induction false} TrimStartEnds(s: string)
    ensures TrimStart(s) != [] ==> !IsSpace(TrimStart(s)[0])
  {
    if s != [] && IsSpace(s[0]) {
      TrimStartEnds(s[1..]);
    }
  }

  lemma TrimIdempotent(s: string)
    ensures Trim(Trim(s)) == Trim(s)
  {
    TrimStartEnds(s);
    TrimEndPrefix(TrimStart(s));
    assert TrimStart(Trim(s)) == Trim(s);
  }

  /** Splitting a constraint again gives just that constraint. */
  lemma ConstraintsAreWhole(input: string, constraint: string)
    requires constraint in Constraints(input) && constraint != []
    ensures Constraints(constraint) == [constraint]
  {
    var piece := TrimmedFrom(Pieces(input, START), constraint);
    PiecesAreWhole(input, piece);
    PiecesByFindTop(piece, START);
    TrimStartKeepsWhole(piece);
    TrimEndKeepsWhole(TrimStart(piece));
    PiecesByFindTop(constraint, START);
    TrimIdempotent(piece);
  }

  lemma {:induction false} TrimmedFrom(pieces: seq<string>, constraint: string) returns (piece: string)
    requires pieces != [] && constraint in Trimmed(pieces)
    ensures piece in pieces && constraint == Trim(piece)
  {
    piece := pieces[0];
    if |pieces| > 1 && constraint != Trim(pieces[0]) {
      piece := TrimmedFrom(pieces[1..], constraint);
    }
  }

  // ---- stripping line comments

  /** The first character of `s` opens a line comment or is in one; the line break that ends it is not. */
  predicate InComment(s: string, mode: Mode)
    requires s != []
  {
    (mode.LineComment? && s[0] != '\n') || (mode.Code? && StartsComment(s))
  }

  /** `strip_line_comments` from the current character on; a comment is dropped up to its line break. */
  function StripFrom(s: string, mode: Mode): string
    decreases |s|
  {
    if s == [] then []
    else if InComment(s, mode) then StripFrom(s[1..], LineComment)
    else [s[0]] + StripFrom(s[1..], NextMode(mode, s))
  }

  function Strip(source: string): string {
    StripFrom(source, Code)
  }

  /** No character of `s` is in a line comment. */
  predicate Uncommented(s: string, mode: Mode)
    decreases |s|
  {
    s != [] ==>
      !mode.LineComment? && !InComment(s, mode) && Uncommented(s[1..], NextMode(mode, s))
  }

  /** The mode in which the scan of a stripped text goes on. */
  function Kept(mode: Mode): Mode {
    if mode.LineComment? then Code else mode
  }

  /** What is left never starts a comment, even right after a slash that was kept. */
  lemma {:induction false} StrippedIsUncommented(s: string, mode: Mode)
    ensures Uncommented(StripFrom(s, mode), Kept(mode))
    ensures mode.Code? && s != [] && s[0] != '/' && StripFrom(s, mode) != [] ==> StripFrom(s, mode)[0] != '/'
    ensures mode.LineComment? && StripFrom(s, mode) != [] ==> StripFrom(s, mode)[0] == '\n'
    decreases |s|
  {
    if s != [] {
      if InComment(s, mode) {
        StrippedIsUncommented(s[1..], LineComment);
      } else {
        StrippedIsUncommented(s[1..], NextMode(mode, s));
        var rest := StripFrom(s[1..], NextMode(mode, s));
        assert ([s[0]] + rest)[1..] == rest;
        if mode.Code? && s[0] == '/' && rest != [] {
          assert !StartsComment([s[0]] + rest);
        }
      }
    }
  }

  lemma {:induction false} UncommentedIsUnchanged(s: string, mode: Mode)
    requires Uncommented(s, mode)
    ensures StripFrom(s, mode) == s
    decreases |s|
  {
    if s != [] {
      UncommentedIsUnchanged(s[1..], NextMode(mode, s));
    }
  }

  /** Stripping leaves a text alone exactly when it has no comments; so stripping twice is stripping once. */
  lemma StripIdempotent(source: string)
    ensures Strip(source) == source <==> Uncommented(source, Code)
    ensures Strip(Strip(source)) == Strip(source)
  {
    StrippedIsUncommented(source, Code);
    UncommentedIsUnchanged(Strip(source), Code);
    if Uncommented(source, Code) {
      UncommentedIsUnchanged(source, Code);
    }
  }

  /** The code characters of `s`, line breaks aside: no strings and no comments. */
  function CodeText(s: string, mode: Mode): string
    decreases |s|
  {
    if s == [] then []
    else (if IsCode(mode, s) && s[0] != '\n' then [s[0]] else []) + CodeText(s[1..], NextMode(mode, s))
  }

  /** Stripping loses no code and turns nothing else into code. */
  lemma {:induction false} StrippingKeepsCode(s: string, mode: Mode)
    ensures CodeText(StripFrom(s, mode), Kept(mode)) == CodeText(s, mode)
    decreases |s|
  {
    if s != [] {
      if InComment(s, mode) {
        StrippingKeepsCode(s[1..], LineComment);
      } else {
        StrippingKeepsCode(s[1..], NextMode(mode, s));
        StrippedIsUncommented(s, mode);
        var rest := StripFrom(s[1..], NextMode(mode, s));
        assert ([s[0]] + rest)[1..] == rest;
        assert NextMode(Kept(mode), [s[0]] + rest) == NextMode(mode, s) == Kept(NextMode(mode, s));
      }
    }
  }

  /** What the scan will still add to its output, from `index` on. */
  ghost function ToKeep(source: string, index: nat, mode: Mode): string
    requires index <= |source|
  {
    StripFrom(source[index..], mode)
  }

  lemma StripStep(source: string, index: nat, mode: Mode)
    requires index < |source|
    ensures ToKeep(source, index, mode)
         == (if InComment(source[index..], mode) then [] else [source[index]])
            + ToKeep(source, index + 1, NextMode(mode, source[index..]))
  {
    assert source[index..][1..] == source[index + 1..];
  }

  /** `out` is what the scan has kept when it reaches `index`. */
  ghost predicate KeptSoFar(source: string, out: string, index: nat, mode: Mode) {
    index <= |source| && Strip(source) == out + ToKeep(source, index, mode)
  }

  lemma KeepCharacter(source: string, out: string, index: nat, mode: Mode)
    requires index < |source| && KeptSoFar(source, out, index, mode) && !InComment(source[index..], mode)
    ensures KeptSoFar(source, out + [source[index]], index + 1, NextMode(mode, source[index..]))
  {
    StripStep(source, index, mode);
    var rest := ToKeep(source, index + 1, NextMode(mode, source[index..]));
    assert out + ([source[index]] + rest) == (out + [source[index]]) + rest;
  }

  /** Reads on to the end of a line comment and keeps the line break that ends it. */
  method SkipComment(source: string, start: nat) returns (index: nat, kept: string)
    requires start <= |source|
    ensures start <= index <= |source|
    ensures ToKeep(source, start, LineComment) == kept + ToKeep(source, index, Code)
  {
    index, kept := start, [];
    while index < |source|
      invariant start <= index <= |source| && kept == []
      invariant ToKeep(source, start, LineComment) == ToKeep(source, index, LineComment)
    {
      StripStep(source, index, LineComment);
      index := index + 1;
      if source[index - 1] == '\n' {
        kept := ['\n'];
        return;
      }
    }
  }

  method StripLineComments(source: string) returns (out: string)
    ensures out == Strip(source)
  {
    out := [];
    var inString, escaped := false, false;
    var index := 0;
    assert source[0..] == source;
    while index < |source|
      invariant index <= |source| && (escaped ==> inString)
      invariant KeptSoFar(source, out, index, ModeOf(inString, escaped, false))
    {
      var ch := source[index];
      ghost var mode := ModeOf(inString, escaped, false);
      if !inString && ch == '/' && index + 1 < |source| && source[index + 1] == '/' {
        StripStep(source, index, Code);
        var kept;
        index, kept := SkipComment(source, index + 1);
        out := out + kept;
      } else {
        KeepCharacter(source, out, index, mode);
        out := out + [ch];
        if !inString {
          inString := ch == '"';
        } else if escaped {
          escaped := false;
        } else if ch == '\\' {
          escaped := true;
        } else if ch == '"' {
          inString := false;
        }
        index := index + 1;
      }
    }
  }
}
