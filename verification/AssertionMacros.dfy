/**
 The test for a cursor inside the arguments of an assertion macro: a scanner that tells code
 from comments and strings, a stack of open delimiters, and the name of the macro, if any,
 that opened each. Positions count characters.
 */
module AssertionMacros {
  import opened Text

  // ---- telling code from comments and strings

  datatype Mode = Code | Slash | LineComment | BlockComment(previous: char) | Quoted(escaped: bool)

  function Next(mode: Mode, c: char): Mode {
    match mode
    case Code => if c == '/' then Slash else if c == '"' then Quoted(false) else Code
    case Slash => if c == '/' then LineComment else if c == '*' then BlockComment('\0') else Code
    case LineComment => if c == '\n' then Code else LineComment
    case BlockComment(previous) => if previous == '*' && c == '/' then Code else BlockComment(c)
    case Quoted(escaped) =>
      if escaped then Quoted(false)
      else if c == '\\' then Quoted(true)
      else if c == '"' then Code
      else Quoted(false)
  }

  /** The scanner hands `c` on as code: not after `/` and not in or around a comment or string. */
  predicate Accepted(mode: Mode, c: char) {
    match mode
    case Code => c != '/' && c != '"'
    case Slash => c != '/' && c != '*'
    case _ => false
  }

  /** The scanner's mode after the first `n` characters. */
  function ModeAt(text: string, n: nat): Mode
    requires n <= |text|
  {
    if n == 0 then Code else Next(ModeAt(text, n - 1), text[n - 1])
  }

  predicate CodeAt(text: string, i: nat)
    requires i < |text|
  {
    Accepted(ModeAt(text, i), text[i])
  }

  class CodeScanner {
    var mode: Mode

    constructor ()
      ensures mode == Code
    {
      mode := Code;
    }

    method Accept(ch: char) returns (code: bool)
      modifies this
      ensures mode == Next(old(mode), ch)
      ensures code == Accepted(old(mode), ch)
    {
      match mode
      case Code =>
        if ch == '/' {
          mode := Slash;
          return false;
        }
        if ch == '"' {
          mode := Quoted(false);
          return false;
        }
        return true;
      case Slash =>
        if ch == '/' {
          mode := LineComment;
          return false;
        }
        if ch == '*' {
          mode := BlockComment('\0');
          return false;
        }
        mode := Code;
        return true;
      case LineComment =>
        if ch == '\n' {
          mode := Code;
        }
        return false;
      case BlockComment(previous) =>
        mode := if previous == '*' && ch == '/' then Code else BlockComment(ch);
        return false;
      case Quoted(escaped) =>
        if escaped {
          mode := Quoted(false);
        } else if ch == '\\' {
          mode := Quoted(true);
        } else if ch == '"' {
          mode := Code;
        }
        return false;
    }
  }

  // ---- delimiters

  function MatchingClose(open: char): char {
    match open
    case '(' => ')'
    case '[' => ']'
    case '{' => '}'
    case _ => open
  }

  predicate OpensAt(text: string, i: nat)
    requires i < |text|
  {
    CodeAt(text, i) && IsOpening(text[i])
  }

  predicate ClosesAt(text: string, i: nat)
    requires i < |text|
  {
    CodeAt(text, i) && IsClosing(text[i])
  }

  /** The stack after the character at `i`: opening delimiters go on, the one that a closing one matches comes off. */
  function Turn(text: string, stack: seq<nat>, i: nat): seq<nat>
    requires i < |text| && forall a | 0 <= a < |stack| :: stack[a] < |text|
  {
    if OpensAt(text, i) then stack + [i]
    else if ClosesAt(text, i) && stack != [] && MatchingClose(text[stack[|stack| - 1]]) == text[i]
    then stack[..|stack| - 1]
    else stack
  }

  /** The positions of the delimiters that are on the stack after `n` characters. */
  function StackAt(text: string, n: nat): (stack: seq<nat>)
    requires n <= |text|
    ensures forall a | 0 <= a < |stack| :: stack[a] < n
  {
    if n == 0 then [] else Turn(text, StackAt(text, n - 1), n - 1)
  }

  // ---- what brackets match, said without a stack

  /** The delimiters in the code of `text[i..j]` are well bracketed. */
  ghost predicate Bracketed(text: string, i: nat, j: nat)
    requires i <= j <= |text|
    decreases j - i
  {
    || i == j
    || (!OpensAt(text, i) && !ClosesAt(text, i) && Bracketed(text, i + 1, j))
    || exists m :: i < m < j && Pair(text, i, m) && Bracketed(text, m + 1, j)
  }

  /** `open` and `close` are delimiters that belong together, with well bracketed text between them. */
  ghost predicate Pair(text: string, open: nat, close: nat)
    requires open < close < |text|
    decreases close - open, 0
  {
    && OpensAt(text, open) && ClosesAt(text, close) && MatchingClose(text[open]) == text[close]
    && Bracketed(text, open + 1, close)
  }

  /** Well bracketed text leaves the stack as it was. */
  lemma {:induction false} BracketedKeepsStack(text: string, i: nat, j: nat)
    requires i <= j <= |text| && Bracketed(text, i, j)
    ensures StackAt(text, j) == StackAt(text, i)
    decreases j - i
  {
    if i < j {
      if !OpensAt(text, i) && !ClosesAt(text, i) && Bracketed(text, i + 1, j) {
        BracketedKeepsStack(text, i + 1, j);
      } else {
        var m :| i < m < j && Pair(text, i, m) && Bracketed(text, m + 1, j);
        PairKeepsStack(text, i, m);
        BracketedKeepsStack(text, m + 1, j);
      }
    }
  }

  lemma {:induction false} PairKeepsStack(text: string, open: nat, close: nat)
    requires open < close < |text| && Pair(text, open, close)
    ensures StackAt(text, close) == StackAt(text, open) + [open]
    ensures StackAt(text, close + 1) == StackAt(text, open)
    decreases close - open, 0
  {
    BracketedKeepsStack(text, open + 1, close);
    assert StackAt(text, open + 1) == StackAt(text, open) + [open];
  }

  // ---- appending a fragment

  lemma {:induction false} ModeOfAppended(text: string, fragment: string, n: nat)
    requires ModeAt(text, |text|) == Code && n <= |fragment|
    ensures ModeAt(text + fragment, |text| + n) == ModeAt(fragment, n)
  {
    if n == 0 {
      ModeOfPrefix(text, fragment, |text|);
    } else {
      ModeOfAppended(text, fragment, n - 1);
    }
  }

  lemma {:induction false} ModeOfPrefix(text: string, more: string, n: nat)
    requires n <= |text|
    ensures ModeAt(text + more, n) == ModeAt(text, n)
  {
    if n > 0 {
      ModeOfPrefix(text, more, n - 1);
    }
  }

  lemma TurnOfPrefix(text: string, more: string, stack: seq<nat>, i: nat)
    requires i < |text| && forall a | 0 <= a < |stack| :: stack[a] < |text|
    ensures Turn(text + more, stack, i) == Turn(text, stack, i)
  {
    ModeOfPrefix(text, more, i);
    if stack != [] {
      var top := stack[|stack| - 1];
      assert (text + more)[top] == text[top];
    }
  }

  lemma {:induction false} StackOfPrefix(text: string, more: string, n: nat)
    requires n <= |text|
    ensures StackAt(text + more, n) == StackAt(text, n)
  {
    if n > 0 {
      StackOfPrefix(text, more, n - 1);
      TurnOfPrefix(text, more, StackAt(text, n - 1), n - 1);
    }
  }

  /** A fragment is bracketed the same way wherever its scan starts in code. */
  lemma {:induction false} BracketedAppended(text: string, fragment: string, i: nat, j: nat)
    requires ModeAt(text, |text|) == Code
    requires i <= j <= |fragment| && Bracketed(fragment, i, j)
    ensures Bracketed(text + fragment, |text| + i, |text| + j)
    decreases j - i
  {
    var whole, t := text + fragment, |text|;
    if i < j {
      ModeOfAppended(text, fragment, i);
      if !OpensAt(fragment, i) && !ClosesAt(fragment, i) && Bracketed(fragment, i + 1, j) {
        BracketedAppended(text, fragment, i + 1, j);
      } else {
        var m :| i < m < j && Pair(fragment, i, m) && Bracketed(fragment, m + 1, j);
        ModeOfAppended(text, fragment, m);
        BracketedAppended(text, fragment, i + 1, m);
        BracketedAppended(text, fragment, m + 1, j);
        assert Pair(whole, t + i, t + m);
      }
    }
  }

  /** Appending a well bracketed fragment in code leaves the stack as it was. */
  lemma FragmentKeepsStack(text: string, fragment: string)
    requires ModeAt(text, |text|) == Code && Bracketed(fragment, 0, |fragment|)
    ensures StackAt(text + fragment, |text| + |fragment|) == StackAt(text, |text|)
  {
    BracketedAppended(text, fragment, 0, |fragment|);
    BracketedKeepsStack(text + fragment, |text|, |text| + |fragment|);
    StackOfPrefix(text, fragment, |text|);
  }

  lemma FragmentReturnsToCode(text: string, fragment: string)
    requires ModeAt(text, |text|) == Code && ModeAt(fragment, |fragment|) == Code
    ensures ModeAt(text + fragment, |text + fragment|) == Code
  {
    ModeOfAppended(text, fragment, |fragment|);
  }

  // ---- the stack holds the unmatched delimiters

  ghost predicate Matched(text: string, open: nat)
    requires open < |text|
  {
    exists close :: open < close < |text| && Pair(text, open, close)
  }

  /** Every closing delimiter in code closes some opening one. */
  ghost predicate NoStrayClosers(text: string) {
    forall close | 0 <= close < |text| && ClosesAt(text, close) :: Closer(text, close)
  }

  ghost predicate Closer(text: string, close: nat)
    requires close < |text|
  {
    exists open :: 0 <= open < close && Pair(text, open, close)
  }

  /** A position stays off the stack once it has been passed and is off. */
  lemma {:induction false} StaysOff(text: string, k: nat, i: nat, j: nat)
    requires k < i <= j <= |text| && k !in StackAt(text, i)
    ensures k !in StackAt(text, j)
    decreases j - i
  {
    if i < j {
      StaysOff(text, k, i, j - 1);
    }
  }

  lemma MatchedIsOff(text: string, open: nat, close: nat)
    requires open < close < |text| && Pair(text, open, close)
    ensures open !in StackAt(text, |text|)
  {
    PairKeepsStack(text, open, close);
    StaysOff(text, open, close + 1, |text|);
  }

  /** After `n` characters the stack extends `base`. */
  ghost predicate Above(text: string, base: seq<nat>, n: nat)
    requires n <= |text|
  {
    base <= StackAt(text, n)
  }

  ghost predicate AboveFrom(text: string, base: seq<nat>, i: nat, j: nat)
    requires i <= j <= |text|
  {
    forall n | i <= n <= j :: Above(text, base, n)
  }

  /** The delimiter that takes the stack below `base` closes the last one of `base`. */
  lemma PopStep(text: string, base: seq<nat>, m: nat)
    requires m < |text| && base != [] && Above(text, base, m) && !Above(text, base, m + 1)
    ensures ClosesAt(text, m) && StackAt(text, m) == base && StackAt(text, m + 1) == base[..|base| - 1]
    ensures var top := base[|base| - 1]; top < m && MatchingClose(text[top]) == text[m]
  {
  }

  lemma {:induction false} FirstPop(text: string, base: seq<nat>, i: nat, j: nat) returns (m: nat)
    requires i <= j <= |text| && Above(text, base, i) && !Above(text, base, j)
    ensures i <= m < j && AboveFrom(text, base, i, m) && !Above(text, base, m + 1)
    decreases j - i
  {
    m := i;
    if Above(text, base, i + 1) {
      m := FirstPop(text, base, i + 1, j);
    }
  }

  /** A closing delimiter that closes something takes its partner off the stack. */
  lemma CloserPops(text: string, i: nat)
    requires i < |text| && Closer(text, i)
    ensures |StackAt(text, i + 1)| < |StackAt(text, i)|
  {
    var open :| 0 <= open < i && Pair(text, open, i);
    PairKeepsStack(text, open, i);
  }

  /** Where nothing is stray, text that keeps to its stack and comes back to it is well bracketed. */
  lemma {:induction false} ReturnsBracketed(text: string, base: seq<nat>, i: nat, j: nat)
    requires NoStrayClosers(text)
    requires i <= j <= |text| && StackAt(text, i) == base == StackAt(text, j) && AboveFrom(text, base, i, j)
    ensures Bracketed(text, i, j)
    decreases j - i, 1
  {
    if i < j {
      assert Above(text, base, i + 1);
      if ClosesAt(text, i) {
        CloserPops(text, i);
        assert false;
      } else if OpensAt(text, i) {
        PairReturns(text, base, i, j);
      } else {
        assert StackAt(text, i + 1) == base;
        ReturnsBracketed(text, base, i + 1, j);
      }
    }
  }

  lemma AboveSplit(text: string, base: seq<nat>, i: nat, m: nat, j: nat)
    requires i <= m <= j <= |text| && AboveFrom(text, base, i, j)
    ensures AboveFrom(text, base, m, j)
  {
  }

  /** A delimiter that is pushed and gone by `j` was taken off by its closing partner. */
  lemma Partner(text: string, i: nat, j: nat) returns (m: nat)
    requires i < j <= |text| && OpensAt(text, i) && !Above(text, StackAt(text, i) + [i], j)
    ensures i < m < j && ClosesAt(text, m) && MatchingClose(text[i]) == text[m]
    ensures var inner := StackAt(text, i) + [i];
            StackAt(text, i + 1) == inner == StackAt(text, m) && AboveFrom(text, inner, i + 1, m)
    ensures StackAt(text, m + 1) == StackAt(text, i)
  {
    var base := StackAt(text, i);
    var inner := base + [i];
    assert inner[|inner| - 1] == i && inner[..|inner| - 1] == base;
    m := FirstPop(text, inner, i + 1, j);
    PopStep(text, inner, m);
  }

  lemma {:induction false} PairReturns(text: string, base: seq<nat>, i: nat, j: nat)
    requires NoStrayClosers(text) && i < j <= |text| && OpensAt(text, i)
    requires StackAt(text, i) == base == StackAt(text, j) && AboveFrom(text, base, i, j)
    ensures Bracketed(text, i, j)
    decreases j - i, 0
  {
    NotAboveMore(text, base, i, j);
    var m := Partner(text, i, j);
    ReturnsBracketed(text, base + [i], i + 1, m);
    AboveSplit(text, base, i, m + 1, j);
    ReturnsBracketed(text, base, m + 1, j);
    BracketedPair(text, i, m, j);
  }

  lemma BracketedPair(text: string, i: nat, m: nat, j: nat)
    requires i < m < j <= |text| && OpensAt(text, i) && ClosesAt(text, m) && MatchingClose(text[i]) == text[m]
    requires Bracketed(text, i + 1, m) && Bracketed(text, m + 1, j)
    ensures Bracketed(text, i, j)
  {
    assert Pair(text, i, m);
  }

  /** A stack that came back to `base` is not above `base` and one more. */
  lemma NotAboveMore(text: string, base: seq<nat>, i: nat, j: nat)
    requires j <= |text| && StackAt(text, j) == base
    ensures !Above(text, base + [i], j)
  {
    assert |base + [i]| > |base|;
  }

  lemma TopIsOn(text: string, base: seq<nat>, k: nat, n: nat)
    requires n <= |text| && Above(text, base + [k], n)
    ensures k in StackAt(text, n)
  {
    assert (base + [k])[|base|] == k;
    assert StackAt(text, n)[|base|] == k;
  }

  lemma OffIsMatched(text: string, open: nat)
    requires NoStrayClosers(text) && open < |text| && OpensAt(text, open)
    requires open !in StackAt(text, |text|)
    ensures Matched(text, open)
  {
    if Above(text, StackAt(text, open) + [open], |text|) {
      TopIsOn(text, StackAt(text, open), open, |text|);
    }
    var m := Partner(text, open, |text|);
    ReturnsBracketed(text, StackAt(text, open) + [open], open + 1, m);
    assert Pair(text, open, m);
  }

  lemma {:induction false} StackHoldsOpeners(text: string, n: nat, k: nat)
    requires n <= |text| && k in StackAt(text, n)
    ensures k < |text| && OpensAt(text, k)
  {
    if !(OpensAt(text, n - 1) && k == n - 1) {
      StackHoldsOpeners(text, n - 1, k);
    }
  }

  /** Where every closing delimiter closes something, the stack holds exactly the unmatched opening ones. */
  lemma StackIsUnmatched(text: string, k: nat)
    requires NoStrayClosers(text) && k < |text|
    ensures k in StackAt(text, |text|) <==> OpensAt(text, k) && !Matched(text, k)
  {
    if k in StackAt(text, |text|) {
      StackHoldsOpeners(text, |text|, k);
    }
    if OpensAt(text, k) {
      if Matched(text, k) {
        var close :| k < close < |text| && Pair(text, k, close);
        MatchedIsOff(text, k, close);
      } else if k !in StackAt(text, |text|) {
        OffIsMatched(text, k);
      }
    }
  }

  // ---- macro names

  predicate IsIdentifierStart(c: char) {
    c == '_' || 'a' <= c <= 'z' || 'A' <= c <= 'Z'
  }

  predicate IsIdentifierChar(c: char) {
    IsIdentifierStart(c) || IsDigit(c)
  }

  predicate IsIdentifier(s: string) {
    s != [] && IsIdentifierStart(s[0]) && forall i | 0 <= i < |s| :: IsIdentifierChar(s[i])
  }

  predicate IsPathChar(c: char) {
    IsIdentifierChar(c) || c == ':'
  }

  /** Where the path characters that end `s` begin. */
  function RunStart(s: string): (start: nat)
    ensures start <= |s|
  {
    if s != [] && IsPathChar(s[|s| - 1]) then RunStart(s[..|s| - 1]) else |s|
  }

  predicate ColonsBefore(s: string, k: nat)
    requires k <= |s|
  {
    k >= 2 && s[k - 2] == ':' && s[k - 1] == ':'
  }

  /** Just after the last `::` that ends at or before `k`, or 0. */
  function SegmentStart(s: string, k: nat): (start: nat)
    requires k <= |s|
    ensures start <= k
  {
    if k == 0 || ColonsBefore(s, k) then k else SegmentStart(s, k - 1)
  }

  function MacroNameBefore(text: string, open: nat): Option<string>
    requires open <= |text|
  {
    var beforeOpen := TrimEnd(text[..open]);
    if beforeOpen == [] || beforeOpen[|beforeOpen| - 1] != '!' then None
    else
      var beforeBang := TrimEnd(beforeOpen[..|beforeOpen| - 1]);
      var path := beforeBang[RunStart(beforeBang)..];
      var name := path[SegmentStart(path, |path|)..];
      if IsIdentifier(name) then Some(name) else None
  }

  ghost predicate AllSpace(s: string) {
    forall i | 0 <= i < |s| :: IsSpace(s[i])
  }

  /** A name after `head` is a name of its own. */
  predicate NameMayFollow(head: string) {
    head == [] || !IsPathChar(head[|head| - 1]) || ColonsBefore(head, |head|)
  }

  /** `text[..open]` is `head`, `name`, a bang, and spaces around the bang. */
  ghost predicate MacroCall(text: string, open: nat, head: string, name: string, gap: string, gap': string)
    requires open <= |text|
  {
    && text[..open] == head + name + gap + "!" + gap' && AllSpace(gap) && AllSpace(gap')
    && IsIdentifier(name) && NameMayFollow(head)
  }

  lemma {:induction false} TrimmedGap(s: string, gap: string)
    requires AllSpace(gap)
    ensures TrimEnd(s + gap) == TrimEnd(s)
  {
    if gap == [] {
      assert s + gap == s;
    } else {
      assert (s + gap)[..|s + gap| - 1] == s + gap[..|gap| - 1];
      TrimmedGap(s, gap[..|gap| - 1]);
    }
  }

  /** Trimming takes off spaces only, and all of them. */
  lemma {:induction false} TrimEndGap(s: string) returns (gap: string)
    ensures s == TrimEnd(s) + gap && AllSpace(gap)
    ensures TrimEnd(s) != [] ==> !IsSpace(TrimEnd(s)[|TrimEnd(s)| - 1])
  {
    gap := [];
    if s != [] && IsSpace(s[|s| - 1]) {
      gap := TrimEndGap(s[..|s| - 1]);
      gap := gap + [s[|s| - 1]];
    }
  }

  lemma {:induction false} RunAfter(head: string, name: string)
    requires forall i | 0 <= i < |name| :: IsPathChar(name[i])
    ensures RunStart(head + name) == RunStart(head)
  {
    if name == [] {
      assert head + name == head;
    } else {
      assert (head + name)[..|head + name| - 1] == head + name[..|name| - 1];
      RunAfter(head, name[..|name| - 1]);
    }
  }

  lemma {:induction false} RunStops(s: string)
    ensures RunStart(s) > 0 ==> !IsPathChar(s[RunStart(s) - 1])
    ensures forall i | RunStart(s) <= i < |s| :: IsPathChar(s[i])
  {
    if s != [] && IsPathChar(s[|s| - 1]) {
      RunStops(s[..|s| - 1]);
    }
  }

  lemma {:induction false} SegmentIsLast(s: string, start: nat, k: nat)
    requires start <= k <= |s| && (start == 0 || ColonsBefore(s, start))
    requires forall i | start <= i < k :: s[i] != ':'
    ensures SegmentStart(s, k) == start
  {
    if k > start {
      SegmentIsLast(s, start, k - 1);
    }
  }

  lemma {:induction false} SegmentStops(s: string, k: nat)
    requires k <= |s|
    ensures var start := SegmentStart(s, k); start == 0 || ColonsBefore(s, start)
  {
    if k > 0 && !ColonsBefore(s, k) {
      SegmentStops(s, k - 1);
    }
  }

  lemma LastSegment(before: string, name: string)
    requires IsIdentifier(name) && (before == [] || ColonsBefore(before, |before|))
    ensures var path := before + name; path[SegmentStart(path, |path|)..] == name
  {
    var path := before + name;
    SegmentIsLast(path, |before|, |path|);
    assert path[|before|..] == name;
  }

  lemma PathAfter(head: string, name: string)
    requires IsIdentifier(name)
    ensures (head + name)[RunStart(head + name)..] == head[RunStart(head)..] + name
  {
    RunAfter(head, name);
  }

  /** The name found is the identifier before the bang, after the last `::` of the path it ends. */
  lemma NameOfPath(head: string, name: string)
    requires IsIdentifier(name) && NameMayFollow(head)
    ensures var path := (head + name)[RunStart(head + name)..]; path[SegmentStart(path, |path|)..] == name
  {
    PathAfter(head, name);
    var before := head[RunStart(head)..];
    if before != [] {
      RunStops(head);
      RunTakesColons(head);
    }
    LastSegment(before, name);
  }

  lemma RunTakesColons(head: string)
    requires ColonsBefore(head, |head|)
    ensures RunStart(head) <= |head| - 2
  {
    assert head[..|head| - 1][|head| - 2] == ':';
    assert head[..|head| - 1][..|head| - 2] == head[..|head| - 2];
  }

  lemma MacroCallIsFound(text: string, open: nat, head: string, name: string, gap: string, gap': string)
    requires open <= |text| && MacroCall(text, open, head, name, gap, gap')
    ensures MacroNameBefore(text, open) == Some(name)
  {
    var banged := head + name + gap + "!";
    TrimmedGap(banged, gap');
    assert TrimEnd(banged) == banged;
    assert banged[..|banged| - 1] == head + name + gap;
    TrimmedGap(head + name, gap);
    assert (head + name)[|head + name| - 1] == name[|name| - 1];
    assert TrimEnd(head + name) == head + name;
    NameOfPath(head, name);
  }

  lemma MacroCallFound(text: string, open: nat) returns (head: string, name: string, gap: string, gap': string)
    requires open <= |text| && MacroNameBefore(text, open).Some?
    ensures MacroCall(text, open, head, name, gap, gap') && MacroNameBefore(text, open) == Some(name)
  {
    gap' := TrimEndGap(text[..open]);
    var beforeOpen := TrimEnd(text[..open]);
    var before := beforeOpen[..|beforeOpen| - 1];
    assert beforeOpen == before + "!";
    gap := TrimEndGap(before);
    var s := TrimEnd(before);
    var from := RunStart(s);
    var path := s[from..];
    var start := SegmentStart(path, |path|);
    name := path[start..];
    head := s[..from + start];
    assert s == head + name;
    RunStops(s);
    SegmentStops(path, |path|);
    if start > 0 {
      assert head[|head| - 1] == path[start - 1] && head[|head| - 2] == path[start - 2];
    }
  }

  /** A delimiter opens the arguments of macro `name` exactly when the text before it reads so. */
  lemma MacroNameIff(text: string, open: nat, name: string)
    requires open <= |text|
    ensures MacroNameBefore(text, open) == Some(name)
       <==> exists head, gap, gap' :: MacroCall(text, open, head, name, gap, gap')
  {
    if MacroNameBefore(text, open) == Some(name) {
      var head, found, gap, gap' := MacroCallFound(text, open);
      assert MacroCall(text, open, head, name, gap, gap');
    }
    if head, gap, gap' :| MacroCall(text, open, head, name, gap, gap') {
      MacroCallIsFound(text, open, head, name, gap, gap');
    }
  }

  // ---- open assertion macros

  const RUNTIME_ASSERTION_MACROS: seq<string> :=
    ["assert", "assert_eq", "assert_ne", "require", "require_eq", "require_gt", "require_gte",
     "require_keys_eq", "require_keys_neq", "require_neq"]

  const DEBUG_ASSERTION_MACROS: seq<string> := ["debug_assert", "debug_assert_eq", "debug_assert_ne"]

  predicate IsAssertionMacro(name: string) {
    name in RUNTIME_ASSERTION_MACROS || name in DEBUG_ASSERTION_MACROS
  }

  /** The delimiter at `k` opens the arguments of an assertion macro. */
  predicate Asserts(text: string, k: nat)
    requires k <= |text|
  {
    var name := MacroNameBefore(text, k);
    name.Some? && IsAssertionMacro(name.value)
  }

  /** The end of `text` is inside the arguments of an assertion macro, as far as the stack tells. */
  predicate InAssertion(text: string) {
    SomeAsserts(text, StackAt(text, |text|))
  }

  predicate SomeAsserts(text: string, positions: seq<nat>)
    requires forall a | 0 <= a < |positions| :: positions[a] <= |text|
  {
    exists a | 0 <= a < |positions| :: Asserts(text, positions[a])
  }

  datatype DelimiterFrame = DelimiterFrame(close: char, macroName: Option<string>)

  function FrameOf(text: string, k: nat): DelimiterFrame
    requires k < |text|
  {
    DelimiterFrame(MatchingClose(text[k]), MacroNameBefore(text, k))
  }

  /** `frames` describe the delimiters at `positions`. */
  ghost predicate Describe(text: string, frames: seq<DelimiterFrame>, positions: seq<nat>) {
    && |frames| == |positions|
    && forall a | 0 <= a < |frames| :: positions[a] < |text| && frames[a] == FrameOf(text, positions[a])
  }

  method HasOpenExpressionAssertionMacro(source: string, offset: nat) returns (found: bool)
    ensures found == InAssertion(source[..if offset < |source| then offset else |source|])
  {
    var prefix := source[..if offset < |source| then offset else |source|];
    var stack: seq<DelimiterFrame> := [];
    var scanner := new CodeScanner();
    for index := 0 to |prefix|
      invariant scanner.mode == ModeAt(prefix, index)
      invariant Describe(prefix, stack, StackAt(prefix, index))
    {
      var ch := prefix[index];
      var code := scanner.Accept(ch);
      DescribeTurn(prefix, stack, StackAt(prefix, index), index);
      if code && IsOpening(ch) {
        stack := stack + [DelimiterFrame(MatchingClose(ch), MacroNameBefore(prefix, index))];
      } else if code && IsClosing(ch) && stack != [] && stack[|stack| - 1].close == ch {
        stack := stack[..|stack| - 1];
      }
    }
    DescribedAsserts(prefix, stack, StackAt(prefix, |prefix|));
    found := exists a | 0 <= a < |stack| :: stack[a].macroName.Some? && IsAssertionMacro(stack[a].macroName.value);
  }

  lemma DescribeTurn(text: string, frames: seq<DelimiterFrame>, positions: seq<nat>, i: nat)
    requires i < |text| && Describe(text, frames, positions)
    ensures OpensAt(text, i) ==> Describe(text, frames + [FrameOf(text, i)], Turn(text, positions, i))
    ensures ClosesAt(text, i) && frames != [] && frames[|frames| - 1].close == text[i] ==>
              Describe(text, frames[..|frames| - 1], Turn(text, positions, i))
    ensures !OpensAt(text, i) && !(ClosesAt(text, i) && frames != [] && frames[|frames| - 1].close == text[i]) ==>
              Describe(text, frames, Turn(text, positions, i))
  {
  }

  lemma DescribedAsserts(text: string, frames: seq<DelimiterFrame>, positions: seq<nat>)
    requires Describe(text, frames, positions)
    ensures SomeAsserts(text, positions)
       <==> exists a | 0 <= a < |frames| :: frames[a].macroName.Some? && IsAssertionMacro(frames[a].macroName.value)
  {
  }

  lemma SameAssert(text: string, more: string, k: nat)
    requires k <= |text|
    ensures Asserts(text + more, k) == Asserts(text, k)
  {
    assert (text + more)[..k] == text[..k];
  }

  /** The answer depends on the stack and on the text before its delimiters only. */
  lemma SameAnswer(text: string, more: string)
    requires StackAt(text + more, |text + more|) == StackAt(text, |text|)
    ensures InAssertion(text + more) <==> InAssertion(text)
  {
    var stack := StackAt(text, |text|);
    forall a | 0 <= a < |stack| ensures Asserts(text + more, stack[a]) == Asserts(text, stack[a]) {
      SameAssert(text, more, stack[a]);
    }
  }

  /** Appending a fragment that is well bracketed and ends in code changes neither the answer nor where code resumes. */
  lemma FragmentKeepsAnswer(text: string, fragment: string)
    requires ModeAt(text, |text|) == Code
    requires Bracketed(fragment, 0, |fragment|) && ModeAt(fragment, |fragment|) == Code
    ensures InAssertion(text + fragment) <==> InAssertion(text)
    ensures ModeAt(text + fragment, |text + fragment|) == Code
  {
    assert |text + fragment| == |text| + |fragment|;
    FragmentKeepsStack(text, fragment);
    SameAnswer(text, fragment);
    FragmentReturnsToCode(text, fragment);
  }

  /** Where every closer closes something: inside an assertion exactly when some unmatched delimiter opens one. */
  lemma InAssertionIff(text: string)
    requires NoStrayClosers(text)
    ensures InAssertion(text)
       <==> exists k | 0 <= k < |text| :: OpensAt(text, k) && !Matched(text, k) && Asserts(text, k)
  {
    var stack := StackAt(text, |text|);
    if InAssertion(text) {
      var a :| 0 <= a < |stack| && Asserts(text, stack[a]);
      assert stack[a] in stack;
      StackIsUnmatched(text, stack[a]);
    }
    if k :| 0 <= k < |text| && OpensAt(text, k) && !Matched(text, k) && Asserts(text, k) {
      StackIsUnmatched(text, k);
      var a :| 0 <= a < |stack| && stack[a] == k;
      assert Asserts(text, stack[a]);
    }
  }
}
