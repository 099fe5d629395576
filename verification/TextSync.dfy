/**
 Document text: UTF-8 byte offsets, LSP positions, incremental content changes and the range
 that changed between two texts. A text is a sequence of Unicode characters; a byte offset
 counts the UTF-8 bytes before it.
 */
module TextSync {
  import opened Text

  datatype Position = Position(line: nat, character: nat)

  datatype Range = Range(start: Position, end: Position)

  /** `position_le`, and its strict form. */
  predicate PositionLe(a: Position, b: Position) {
    a.line < b.line || (a.line == b.line && a.character <= b.character)
  }

  predicate PositionLt(a: Position, b: Position) {
    PositionLe(a, b) && a != b
  }

  // ---- UTF-8 offsets

  function Width(c: char): (n: nat)
    ensures 1 <= n <= 4
  {
    if c as int < 0x80 then 1 else if c as int < 0x800 then 2 else if c as int < 0x1_0000 then 3 else 4
  }

  function ByteLen(s: string): nat {
    if s == [] then 0 else ByteLen(s[..|s| - 1]) + Width(s[|s| - 1])
  }

  lemma {:induction false} ByteLenConcat(a: string, b: string)
    ensures ByteLen(a + b) == ByteLen(a) + ByteLen(b)
  {
    if b == [] {
      assert a + b == a;
    } else {
      ByteLenConcat(a, b[..|b| - 1]);
      assert (a + b)[..|a + b| - 1] == a + b[..|b| - 1];
    }
  }

  lemma ByteLenCut(s: string, n: nat)
    requires n <= |s|
    ensures ByteLen(s) == ByteLen(s[..n]) + ByteLen(s[n..])
  {
    ByteLenOfParts(s, s[..n], s[n..]);
  }

  lemma ByteLenOfParts(s: string, a: string, b: string)
    requires s == a + b
    ensures ByteLen(s) == ByteLen(a) + ByteLen(b)
  {
    ByteLenConcat(a, b);
  }

  lemma {:induction false} ByteLenIncreases(s: string, j: nat, k: nat)
    requires j < k <= |s|
    ensures ByteLen(s[..j]) < ByteLen(s[..k])
  {
    assert s[..k][..k - 1] == s[..k - 1];
    if j < k - 1 {
      ByteLenIncreases(s, j, k - 1);
    }
  }

  /** `offset` is the byte offset of character `k`. */
  predicate IsOffsetOf(s: string, offset: nat, k: nat) {
    k <= |s| && ByteLen(s[..k]) == offset
  }

  ghost predicate IsBoundary(s: string, offset: nat) {
    exists k: nat :: IsOffsetOf(s, offset, k)
  }

  lemma OffsetIsUnique(s: string, offset: nat, j: nat, k: nat)
    requires IsOffsetOf(s, offset, j) && IsOffsetOf(s, offset, k)
    ensures j == k
  {
    if j < k { ByteLenIncreases(s, j, k); }
    if k < j { ByteLenIncreases(s, k, j); }
  }

  // ---- positions

  function Advance(p: Position, c: char): Position {
    if c == '\n' then Position(p.line + 1, 0) else Position(p.line, p.character + 1)
  }

  /** The position reached after reading `prefix`. */
  function PositionAfter(prefix: string): Position {
    if prefix == [] then Position(0, 0) else Advance(PositionAfter(prefix[..|prefix| - 1]), prefix[|prefix| - 1])
  }

  lemma PositionStep(s: string, k: nat)
    requires k < |s|
    ensures PositionAfter(s[..k + 1]) == Advance(PositionAfter(s[..k]), s[k])
  {
    assert s[..k + 1][..k] == s[..k];
  }

  /** Positions of character boundaries are strictly increasing. */
  lemma {:induction false} PositionsIncrease(s: string, j: nat, k: nat)
    requires j < k <= |s|
    ensures PositionLt(PositionAfter(s[..j]), PositionAfter(s[..k]))
  {
    PositionStep(s, k - 1);
    if j < k - 1 {
      PositionsIncrease(s, j, k - 1);
    }
  }

  /** Number of characters in the unfinished last line of `prefix`. */
  function LineLength(prefix: string): nat {
    if prefix == [] || prefix[|prefix| - 1] == '\n' then 0 else 1 + LineLength(prefix[..|prefix| - 1])
  }

  lemma {:induction false} CharacterIsLineLength(prefix: string)
    ensures PositionAfter(prefix).character == LineLength(prefix) <= |prefix|
  {
    if prefix != [] {
      CharacterIsLineLength(prefix[..|prefix| - 1]);
    }
  }

  /** `offset.min(source.len())` */
  function Clamp(source: string, offset: nat): nat {
    if offset < ByteLen(source) then offset else ByteLen(source)
  }

  /** `position_at_byte_offset`, for offsets on a character boundary or past the end. */
  method PositionAtByteOffset(source: string, offset: nat) returns (p: Position)
    requires offset < ByteLen(source) ==> IsBoundary(source, offset)
    ensures forall k: nat | IsOffsetOf(source, Clamp(source, offset), k) :: p == PositionAfter(source[..k])
  {
    assert source[..|source|] == source;
    assert IsOffsetOf(source, ByteLen(source), |source|);
    var target := Clamp(source, offset);
    ghost var k: nat :| IsOffsetOf(source, target, k);
    assert IsOffsetOf(source, target, k);
    var line, lineStart, index, i := 0, 0, 0, 0;
    while i < |source| && index < target
      invariant i <= k <= |source| && index == ByteLen(source[..i])
      invariant line == PositionAfter(source[..i]).line
      invariant lineStart == i - LineLength(source[..i])
      invariant 0 <= lineStart <= i
    {
      PositionStep(source, i);
      assert source[..i + 1][..i] == source[..i];
      if source[i] == '\n' {
        line := line + 1;
        lineStart := i + 1;
      }
      index := index + Width(source[i]);
      i := i + 1;
    }
    if i < k { ByteLenIncreases(source, i, k); }
    CharacterIsLineLength(source[..i]);
    p := Position(line, |source[lineStart..i]|);
    forall j: nat | IsOffsetOf(source, target, j) ensures j == k {
      OffsetIsUnique(source, target, j, k);
    }
  }

  // ---- from positions back to byte offsets

  /** The first line feed at or after `i`, or the end of the text. */
  function LineEnd(s: string, i: nat): (n: nat)
    requires i <= |s|
    ensures i <= n <= |s|
    ensures forall j | i <= j < n :: s[j] != '\n'
    ensures n < |s| ==> s[n] == '\n'
    decreases |s| - i
  {
    if i == |s| || s[i] == '\n' then i else LineEnd(s, i + 1)
  }

  /** Length of the first line without its line feed. */
  function LineText(s: string): nat {
    LineEnd(s, 0)
  }

  /** Length of the first line with its line feed, if it has one. */
  function FirstLine(s: string): (n: nat)
    ensures n <= |s| && (s != [] ==> n > 0)
  {
    if LineText(s) < |s| then LineText(s) + 1 else LineText(s)
  }

  /** `byte_offset_for_character` */
  function OffsetInLine(line: string, character: nat): Option<nat> {
    if character <= |line| then Some(ByteLen(line[..character])) else None
  }

  /** `byte_offset_at`: the offset of a position, or none if it is outside the text. */
  function ByteOffsetAt(s: string, p: Position): Option<nat>
    decreases |s|
  {
    if s == [] then if p == Position(0, 0) then Some(0) else None
    else if p.line == 0 then OffsetInLine(s[..LineText(s)], p.character)
    else
      match ByteOffsetAt(s[FirstLine(s)..], Position(p.line - 1, p.character))
      case Some(offset) => Some(ByteLen(s[..FirstLine(s)]) + offset)
      case None => None
  }

  /** `str::lines().count()` */
  function LineCount(s: string): nat
    decreases |s|
  {
    if s == [] then 0 else 1 + LineCount(s[FirstLine(s)..])
  }

  function Plus(offset: Option<nat>, n: nat): Option<nat> {
    if offset.Some? then Some(offset.value + n) else None
  }

  /** The search has passed `line` lines of `text`, `offset` bytes, and goes on in `rest`. */
  ghost predicate Passed(text: string, p: Position, rest: string, line: nat, offset: nat) {
    && line <= p.line
    && offset + ByteLen(rest) == ByteLen(text) && line + LineCount(rest) == LineCount(text)
    && ByteOffsetAt(text, p) == Plus(ByteOffsetAt(rest, Position(p.line - line, p.character)), offset)
  }

  lemma OffsetBelow(s: string, p: Position)
    requires s != [] && p.line > 0
    ensures ByteOffsetAt(s, p)
         == Plus(ByteOffsetAt(s[FirstLine(s)..], Position(p.line - 1, p.character)), ByteLen(s[..FirstLine(s)]))
  {
  }

  lemma PassLine(text: string, p: Position, rest: string, line: nat, offset: nat)
    requires Passed(text, p, rest, line, offset) && rest != [] && line < p.line
    ensures Passed(text, p, rest[FirstLine(rest)..], line + 1, offset + ByteLen(rest[..FirstLine(rest)]))
  {
    ByteLenCut(rest, FirstLine(rest));
    OffsetBelow(rest, Position(p.line - line, p.character));
  }

  /** `offset_at`, line by line: lines before the wanted one add their bytes. */
  method OffsetAt(text: string, position: Position) returns (r: Option<nat>)
    ensures r == ByteOffsetAt(text, position)
  {
    var rest := text;
    var offset: nat, line: nat := 0, 0;
    while rest != []
      invariant Passed(text, position, rest, line, offset)
      decreases |rest|
    {
      if line == position.line {
        return Plus(OffsetInLine(rest[..LineText(rest)], position.character), offset);
      }
      PassLine(text, position, rest, line, offset);
      offset := offset + ByteLen(rest[..FirstLine(rest)]);
      rest := rest[FirstLine(rest)..];
      line := line + 1;
    }
    r := if position.line == LineCount(text) && position.character == 0 then Some(ByteLen(text)) else None;
  }

  /** Reading `a` and then `b`: positions in `b` are shifted by the line feeds of `a`. */
  lemma {:induction false} PositionAfterLine(a: string, b: string)
    requires IsFullLine(a)
    ensures PositionAfter(a + b) == Position(PositionAfter(b).line + 1, PositionAfter(b).character)
  {
    if b == [] {
      assert a + b == a;
      NoLineFeed(a[..|a| - 1]);
    } else {
      PositionAfterLine(a, b[..|b| - 1]);
      assert (a + b)[..|a + b| - 1] == a + b[..|b| - 1];
    }
  }

  lemma {:induction false} NoLineFeed(s: string)
    requires forall i | 0 <= i < |s| :: s[i] != '\n'
    ensures PositionAfter(s) == Position(0, |s|)
  {
    if s != [] {
      NoLineFeed(s[..|s| - 1]);
    }
  }

  lemma ByteLenSplit(s: string, n: nat, m: nat)
    requires n + m <= |s|
    ensures ByteLen(s[..n + m]) == ByteLen(s[..n]) + ByteLen(s[n..][..m])
  {
    assert s[..n + m] == s[..n] + s[n..][..m];
    ByteLenConcat(s[..n], s[n..][..m]);
  }

  /** An offset found in the lines after the first one, counted from the start of the text. */
  lemma LaterOffset(s: string, p: Position, m: nat)
    requires s != [] && p.line > 0 && FirstLine(s) + m <= |s|
    requires ByteOffsetAt(s[FirstLine(s)..], Position(p.line - 1, p.character)) == Some(ByteLen(s[FirstLine(s)..][..m]))
    ensures ByteOffsetAt(s, p) == Some(ByteLen(s[..FirstLine(s) + m]))
  {
    ByteLenSplit(s, FirstLine(s), m);
  }

  /** Every character boundary is found again from its position. */
  lemma {:induction false} OffsetRoundTrip(s: string, k: nat)
    requires k <= |s|
    ensures ByteOffsetAt(s, PositionAfter(s[..k])) == Some(ByteLen(s[..k]))
    decreases |s|
  {
    if s != [] && k <= LineText(s) {
      InFirstLine(s, k);
    } else if s != [] {
      OffsetRoundTrip(s[FirstLine(s)..], k - FirstLine(s));
      PastFirstLine(s, k);
      RoundTripBelow(s, k, PositionAfter(s[..k]), PositionAfter(s[FirstLine(s)..][..k - FirstLine(s)]));
    }
  }

  lemma RoundTripBelow(s: string, k: nat, p: Position, q: Position)
    requires LineText(s) < k <= |s| && p == Position(q.line + 1, q.character)
    requires ByteOffsetAt(s[FirstLine(s)..], q) == Some(ByteLen(s[FirstLine(s)..][..k - FirstLine(s)]))
    ensures ByteOffsetAt(s, p) == Some(ByteLen(s[..k]))
  {
    var m := k - FirstLine(s);
    assert q == Position(p.line - 1, p.character) && FirstLine(s) + m == k;
    LaterOffset(s, p, m);
  }

  predicate IsFullLine(line: string) {
    line != [] && line[|line| - 1] == '\n' && forall i | 0 <= i < |line| - 1 :: line[i] != '\n'
  }

  lemma FirstLineIsFull(s: string)
    requires LineText(s) < |s|
    ensures IsFullLine(s[..FirstLine(s)])
  {
    var line := s[..FirstLine(s)];
    assert forall i | 0 <= i < |line| :: line[i] == s[i];
  }

  lemma PastFirstLine(s: string, k: nat)
    requires LineText(s) < k <= |s|
    ensures var q := PositionAfter(s[FirstLine(s)..][..k - FirstLine(s)]);
            PositionAfter(s[..k]) == Position(q.line + 1, q.character)
  {
    FirstLineIsFull(s);
    PastLine(s, FirstLine(s), k);
  }

  lemma PastLine(s: string, n: nat, k: nat)
    requires n <= k <= |s| && IsFullLine(s[..n])
    ensures var q := PositionAfter(s[n..][..k - n]); PositionAfter(s[..k]) == Position(q.line + 1, q.character)
  {
    assert s[..k] == s[..n] + s[n..][..k - n];
    PositionAfterLine(s[..n], s[n..][..k - n]);
  }

  /** The position one line below a last line without line feed is read as the end of the text. */
  predicate IsLineBelow(s: string, p: Position) {
    s != [] && s[|s| - 1] != '\n' && p == Position(PositionAfter(s).line + 1, 0)
  }

  /** Position `p` is found at character boundary `k`. */
  predicate Locates(s: string, p: Position, k: nat) {
    && k <= |s|
    && ByteOffsetAt(s, p) == Some(ByteLen(s[..k]))
    && (p == PositionAfter(s[..k]) || (IsLineBelow(s, p) && k == |s|))
  }

  /**
   Nothing else is accepted: an offset that is found is a character boundary, and the position
   is the position of that boundary or the line below the last one.
   */
  lemma {:induction false} OffsetsAreBoundaries(s: string, p: Position) returns (k: nat)
    requires ByteOffsetAt(s, p).Some?
    ensures Locates(s, p, k)
    decreases |s|
  {
    if s == [] {
      k := 0;
    } else if p.line == 0 {
      k := p.character;
      InFirstLine(s, k);
    } else {
      var m := OffsetsAreBoundaries(s[FirstLine(s)..], Position(p.line - 1, p.character));
      k := FirstLine(s) + m;
      LaterLine(s, p, m);
    }
  }

  lemma InFirstLine(s: string, k: nat)
    requires k <= LineText(s)
    ensures PositionAfter(s[..k]) == Position(0, k)
    ensures OffsetInLine(s[..LineText(s)], k) == Some(ByteLen(s[..k]))
  {
    assert s[..LineText(s)][..k] == s[..k];
    NoLineFeed(s[..k]);
  }

  lemma LaterLine(s: string, p: Position, m: nat)
    requires s != [] && p.line > 0 && Locates(s[FirstLine(s)..], Position(p.line - 1, p.character), m)
    ensures Locates(s, p, FirstLine(s) + m)
  {
    LaterOffset(s, p, m);
    LaterPosition(s, p, m);
  }

  lemma LaterPosition(s: string, p: Position, m: nat)
    requires s != [] && p.line > 0 && FirstLine(s) + m <= |s|
    requires var b, q := s[FirstLine(s)..], Position(p.line - 1, p.character);
             q == PositionAfter(b[..m]) || (IsLineBelow(b, q) && m == |b|)
    ensures var k := FirstLine(s) + m;
            p == PositionAfter(s[..k]) || (IsLineBelow(s, p) && k == |s|)
  {
    var n := FirstLine(s);
    if LineText(s) < |s| {
      PastFirstLine(s, n + m);
      PastFirstLine(s, |s|);
      assert s[n..][..|s| - n] == s[n..] && s[..|s|] == s;
    } else {
      assert s[n..][..m] == [];
      assert s[..n + m] == s;
      NoLineFeed(s);
    }
  }

  // ---- content changes

  datatype Change = Change(range: Option<Range>, text: string)

  datatype ChangeReason = OutsideDocument | StartAfterEnd | NonBoundary

  datatype Applied = Edited(text: string) | Invalid(range: Range, reason: ChangeReason)

  /** The character index of a boundary offset. */
  ghost function CharIndex(s: string, offset: nat): (k: nat)
    requires IsBoundary(s, offset)
    ensures IsOffsetOf(s, offset, k)
  {
    var k: nat :| IsOffsetOf(s, offset, k); k
  }

  /** `replace_range` on byte offsets. */
  ghost function ReplaceBytes(s: string, start: nat, end: nat, text: string): string
    requires IsBoundary(s, start) && IsBoundary(s, end)
  {
    s[..CharIndex(s, start)] + text + s[CharIndex(s, end)..]
  }

  ghost function Apply(s: string, change: Change): Applied {
    match change.range
    case None => Edited(change.text)
    case Some(range) =>
      match (ByteOffsetAt(s, range.start), ByteOffsetAt(s, range.end))
      case (Some(start), Some(end)) =>
        if start > end then Invalid(range, StartAfterEnd)
        else if !IsBoundary(s, start) || !IsBoundary(s, end) then Invalid(range, NonBoundary)
        else Edited(ReplaceBytes(s, start, end, change.text))
      case _ => Invalid(range, OutsideDocument)
  }

  /** All changes of one notification, in order; the first invalid one rejects them all. */
  ghost function ApplyAll(s: string, changes: seq<Change>): Applied
    decreases |changes|
  {
    if changes == [] then Edited(s)
    else
      match Apply(s, changes[0])
      case Edited(next) => ApplyAll(next, changes[1..])
      case invalid => invalid
  }

  /** The non-boundary error cannot happen: an offset found for a position is a boundary. */
  lemma NeverNonBoundary(s: string, change: Change)
    ensures var r := Apply(s, change); r.Invalid? ==> r.reason != NonBoundary
  {
    if change.range.Some? {
      if ByteOffsetAt(s, change.range.value.start).Some? {
        var k := OffsetsAreBoundaries(s, change.range.value.start);
        assert IsOffsetOf(s, ByteOffsetAt(s, change.range.value.start).value, k);
      }
      if ByteOffsetAt(s, change.range.value.end).Some? {
        var k := OffsetsAreBoundaries(s, change.range.value.end);
        assert IsOffsetOf(s, ByteOffsetAt(s, change.range.value.end).value, k);
      }
    }
  }

  /** A change over two character boundaries replaces exactly the characters between them. */
  lemma ApplyBetween(s: string, i: nat, j: nat, text: string)
    requires i <= j <= |s|
    ensures Apply(s, Change(Some(Range(PositionAfter(s[..i]), PositionAfter(s[..j]))), text))
         == Edited(s[..i] + text + s[j..])
  {
    OffsetRoundTrip(s, i);
    OffsetRoundTrip(s, j);
    if i < j { ByteLenIncreases(s, i, j); }
    var start, end := ByteLen(s[..i]), ByteLen(s[..j]);
    assert IsOffsetOf(s, start, i) && IsOffsetOf(s, end, j);
    OffsetIsUnique(s, start, i, CharIndex(s, start));
    OffsetIsUnique(s, end, j, CharIndex(s, end));
  }

  /** `apply_content_change`, on a text updated in place; an invalid change leaves it as it was. */
  class TextBuffer {
    var text: string

    constructor (text: string)
      ensures this.text == text
    {
      this.text := text;
    }

    method ApplyContentChange(change: Change) returns (result: Applied)
      modifies this
      ensures result == Apply(old(text), change)
      ensures text == if result.Edited? then result.text else old(text)
    {
      if change.range.None? {
        text := change.text;
        return Edited(text);
      }
      var range := change.range.value;
      var start := OffsetAt(text, range.start);
      if start.None? {
        return Invalid(range, OutsideDocument);
      }
      var end := OffsetAt(text, range.end);
      if end.None? {
        return Invalid(range, OutsideDocument);
      }
      if start.value > end.value {
        return Invalid(range, StartAfterEnd);
      }
      var first := FindBoundary(text, start.value);
      var last := FindBoundary(text, end.value);
      if first.None? || last.None? {
        return Invalid(range, NonBoundary);
      }
      OffsetIsUnique(text, start.value, first.value, CharIndex(text, start.value));
      OffsetIsUnique(text, end.value, last.value, CharIndex(text, end.value));
      text := text[..first.value] + change.text + text[last.value..];
      result := Edited(text);
    }

    /** `text_after_content_changes`: the final text and the range of the last change. */
    method ApplyContentChanges(changes: seq<Change>) returns (result: Applied, latest: Option<Range>)
      modifies this
      ensures result == ApplyAll(old(text), changes)
      ensures result.Edited? ==> text == result.text
      ensures result.Edited? ==> latest == if changes == [] then None else changes[|changes| - 1].range
    {
      latest := None;
      result := Edited(text);
      for i := 0 to |changes|
        invariant result == Edited(text)
        invariant ApplyAll(old(text), changes) == ApplyAll(text, changes[i..])
        invariant latest == if i == 0 then None else changes[i - 1].range
      {
        assert changes[i..][0] == changes[i] && changes[i..][1..] == changes[i + 1..];
        latest := changes[i].range;
        result := ApplyContentChange(changes[i]);
        if result.Invalid? {
          return;
        }
      }
    }
  }

  /** `is_char_boundary`, with the index that makes it one. */
  method FindBoundary(s: string, offset: nat) returns (k: Option<nat>)
    ensures k.Some? <==> IsBoundary(s, offset)
    ensures k.Some? ==> IsOffsetOf(s, offset, k.value)
  {
    var i, index := 0, 0;
    while i < |s| && index < offset
      invariant i <= |s| && index == ByteLen(s[..i])
      invariant forall j: nat | j < i :: !IsOffsetOf(s, offset, j)
    {
      assert s[..i + 1][..i] == s[..i];
      index := index + Width(s[i]);
      i := i + 1;
    }
    if index == offset {
      assert IsOffsetOf(s, offset, i);
      return Some(i);
    }
    forall j: nat ensures !IsOffsetOf(s, offset, j) {
      if i < j <= |s| { ByteLenIncreases(s, i, j); }
    }
    k := None;
  }

  // ---- the range that changed between two texts

  predicate CommonPrefix(a: string, b: string, n: nat) {
    n <= |a| && n <= |b| && forall i | 0 <= i < n :: a[i] == b[i]
  }

  /** The character with `i` characters after it. */
  function FromEnd(s: string, i: nat): char
    requires i < |s|
  {
    s[|s| - 1 - i]
  }

  predicate CommonSuffix(a: string, b: string, n: nat) {
    n <= |a| && n <= |b| && forall i | 0 <= i < n :: FromEnd(a, i) == FromEnd(b, i)
  }

  /** Length in characters of the longest common prefix, given that `n` characters agree. */
  function PrefixLen(a: string, b: string, n: nat := 0): (len: nat)
    requires CommonPrefix(a, b, n)
    ensures n <= len && CommonPrefix(a, b, len)
    ensures len < |a| && len < |b| ==> a[len] != b[len]
    decreases |a| - n
  {
    if n < |a| && n < |b| && a[n] == b[n] then PrefixLen(a, b, n + 1) else n
  }

  /** Length in characters of the longest common suffix, given that `n` characters agree. */
  function SuffixLen(a: string, b: string, n: nat := 0): (len: nat)
    requires CommonSuffix(a, b, n)
    ensures n <= len && CommonSuffix(a, b, len)
    ensures len < |a| && len < |b| ==> FromEnd(a, len) != FromEnd(b, len)
    decreases |a| - n
  {
    if n < |a| && n < |b| && FromEnd(a, n) == FromEnd(b, n) then SuffixLen(a, b, n + 1) else n
  }

  /** The longest common prefix, and the longest common suffix of what it leaves. */
  function KeptPrefix(previous: string, current: string): nat {
    PrefixLen(previous, current)
  }

  function KeptSuffix(previous: string, current: string): nat {
    SuffixLen(previous[KeptPrefix(previous, current)..], current[KeptPrefix(previous, current)..])
  }

  /** A single edit: a prefix and a suffix, not overlapping, that both texts share. */
  predicate IsCommon(a: string, b: string, p: nat, q: nat) {
    p + q <= |a| && p + q <= |b| && CommonPrefix(a, b, p) && CommonSuffix(a, b, q)
  }

  lemma KeptIsCommon(previous: string, current: string)
    ensures IsCommon(previous, current, KeptPrefix(previous, current), KeptSuffix(previous, current))
  {
    var p, q := KeptPrefix(previous, current), KeptSuffix(previous, current);
    forall i | 0 <= i < q ensures FromEnd(previous, i) == FromEnd(current, i) {
      assert FromEnd(previous[p..], i) == FromEnd(current[p..], i);
    }
  }

  /** No other single edit keeps more characters. */
  lemma KeptIsMaximal(previous: string, current: string, p: nat, q: nat)
    requires IsCommon(previous, current, p, q)
    ensures p + q <= KeptPrefix(previous, current) + KeptSuffix(previous, current)
  {
    var kp, ks := KeptPrefix(previous, current), KeptSuffix(previous, current);
    KeptIsCommon(previous, current);
    if kp + ks < |previous| && kp + ks < |current| {
      assert FromEnd(previous[kp..], ks) == FromEnd(previous, ks) && FromEnd(current[kp..], ks) == FromEnd(current, ks);
      assert FromEnd(previous, ks) != FromEnd(current, ks);
    }
  }

  /** The parts of a single edit that both texts share, as pieces of text. */
  lemma SharedPieces(a: string, b: string, p: nat, q: nat)
    requires IsCommon(a, b, p, q)
    ensures a[..p] == b[..p] && a[|a| - q..] == b[|b| - q..]
  {
    var x, y := a[|a| - q..], b[|b| - q..];
    forall i | 0 <= i < q ensures x[i] == y[i] {
      assert FromEnd(a, q - 1 - i) == FromEnd(b, q - 1 - i);
    }
  }

  lemma KeepMiddle(previous: string, current: string, p: nat, q: nat)
    requires IsCommon(previous, current, p, q)
    ensures previous[..p] + current[p..|current| - q] + previous[|previous| - q..] == current
  {
    SharedPieces(previous, current, p, q);
  }

  /** A single edit as a content change: the old middle, by its positions, becomes the new middle. */
  function EditOf(previous: string, current: string, p: nat, q: nat): Change
    requires IsCommon(previous, current, p, q)
  {
    var replaced := Range(PositionAfter(previous[..p]), PositionAfter(previous[..|previous| - q]));
    Change(Some(replaced), current[p..|current| - q])
  }

  lemma EditApplied(previous: string, current: string, p: nat, q: nat)
    requires IsCommon(previous, current, p, q)
    ensures Apply(previous, EditOf(previous, current, p, q))
         == Edited(previous[..p] + current[p..|current| - q] + previous[|previous| - q..])
  {
    ApplyBetween(previous, p, |previous| - q, current[p..|current| - q]);
  }

  /** Applying any single edit between two texts to the old one gives the new one. */
  lemma DiffThenApply(previous: string, current: string, p: nat, q: nat)
    requires IsCommon(previous, current, p, q)
    ensures Apply(previous, EditOf(previous, current, p, q)) == Edited(current)
  {
    EditApplied(previous, current, p, q);
    KeepMiddle(previous, current, p, q);
  }

  method CommonPrefixByteLen(left: string, right: string) returns (prefix: nat)
    ensures prefix == ByteLen(left[..PrefixLen(left, right)])
  {
    prefix := 0;
    var i := 0;
    while i < |left| && i < |right| && left[i] == right[i]
      invariant CommonPrefix(left, right, i) && PrefixLen(left, right, i) == PrefixLen(left, right)
      invariant prefix == ByteLen(left[..i])
    {
      assert left[..i + 1][..i] == left[..i];
      prefix := prefix + Width(left[i]);
      i := i + 1;
    }
  }

  lemma ByteLenPush(c: char, s: string)
    ensures ByteLen([c] + s) == Width(c) + ByteLen(s)
  {
    ByteLenConcat([c], s);
    assert ByteLen([c]) == ByteLen([]) + Width(c);
  }

  method CommonSuffixByteLen(left: string, right: string) returns (suffix: nat)
    ensures suffix == ByteLen(left[|left| - SuffixLen(left, right)..])
  {
    suffix := 0;
    var i := 0;
    assert left[|left|..] == [];
    while i < |left| && i < |right| && FromEnd(left, i) == FromEnd(right, i)
      invariant CommonSuffix(left, right, i) && SuffixLen(left, right, i) == SuffixLen(left, right)
      invariant suffix == ByteLen(left[|left| - i..])
    {
      ByteLenPush(FromEnd(left, i), left[|left| - i..]);
      assert left[|left| - (i + 1)..] == [FromEnd(left, i)] + left[|left| - i..];
      suffix := suffix + Width(FromEnd(left, i));
      i := i + 1;
    }
  }

  lemma EndOffset(s: string, end: nat, suffix: nat)
    requires end <= |s| && suffix == ByteLen(s[end..])
    ensures suffix <= ByteLen(s) && IsOffsetOf(s, ByteLen(s) - suffix, end)
  {
    ByteLenCut(s, end);
  }

  /** The kept suffix takes as many bytes in both texts. */
  lemma SuffixOffset(previous: string, current: string, p: nat, q: nat)
    requires IsCommon(previous, current, p, q)
    ensures var suffix := ByteLen(previous[p..][|previous[p..]| - q..]);
            suffix <= ByteLen(current) && IsOffsetOf(current, ByteLen(current) - suffix, |current| - q)
  {
    SharedPieces(previous, current, p, q);
    assert previous[p..][|previous[p..]| - q..] == previous[|previous| - q..];
    EndOffset(current, |current| - q, ByteLen(previous[p..][|previous[p..]| - q..]));
  }

  lemma PrefixOffset(previous: string, current: string)
    ensures var p := PrefixLen(previous, current);
            IsOffsetOf(previous, ByteLen(previous[..p]), p) && IsOffsetOf(current, ByteLen(previous[..p]), p)
  {
    var p := PrefixLen(previous, current);
    assert previous[..p] == current[..p];
  }

  lemma OffsetIsClamped(s: string, offset: nat, k: nat)
    requires IsOffsetOf(s, offset, k)
    ensures Clamp(s, offset) == offset && (offset < ByteLen(s) ==> IsBoundary(s, offset))
  {
    assert s[..|s|] == s;
    if k < |s| { ByteLenIncreases(s, k, |s|); }
  }

  /** The range, in positions of the current text, that the longest kept prefix and suffix leave. */
  predicate IsChangedRange(previous: string, current: string, range: Range) {
    var p, q := KeptPrefix(previous, current), KeptSuffix(previous, current);
    && p + q <= |current|
    && range == Range(PositionAfter(current[..p]), PositionAfter(current[..|current| - q]))
    && PositionLe(range.start, range.end)
  }

  method ChangedRangeBetweenTexts(previous: string, current: string) returns (range: Option<Range>)
    ensures range.None? <==> previous == current
    ensures range.Some? ==> IsChangedRange(previous, current, range.value)
  {
    if previous == current {
      return None;
    }
    KeptIsCommon(previous, current);
    PrefixOffset(previous, current);
    var prefix := CommonPrefixByteLen(previous, current);
    var end := KeptEnd(previous, current, prefix);
    range := RangeBetween(current, prefix, end,
                          KeptPrefix(previous, current), |current| - KeptSuffix(previous, current));
  }

  function SaturatingSub(a: nat, b: nat): nat {
    if b <= a then a - b else 0
  }

  /** The byte offset at which the kept suffix starts in the current text. */
  method KeptEnd(previous: string, current: string, prefix: nat) returns (end: nat)
    requires IsOffsetOf(previous, prefix, KeptPrefix(previous, current))
    ensures KeptSuffix(previous, current) <= |current|
    ensures IsOffsetOf(current, end, |current| - KeptSuffix(previous, current))
  {
    ghost var p := KeptPrefix(previous, current);
    var before := FindBoundary(previous, prefix);
    OffsetIsUnique(previous, prefix, p, before.value);
    var left, right := previous[before.value..], current[before.value..];
    assert SuffixLen(left, right) == KeptSuffix(previous, current);
    var suffix := CommonSuffixByteLen(left, right);
    KeptIsCommon(previous, current);
    SuffixOffset(previous, current, p, KeptSuffix(previous, current));
    end := SaturatingSub(ByteLen(current), suffix);
  }

  method RangeBetween(current: string, start: nat, end: nat, ghost i: nat, ghost j: nat) returns (range: Option<Range>)
    requires i <= j && IsOffsetOf(current, start, i) && IsOffsetOf(current, end, j)
    ensures range == Some(Range(PositionAfter(current[..i]), PositionAfter(current[..j])))
    ensures PositionLe(range.value.start, range.value.end)
  {
    OffsetIsClamped(current, start, i);
    OffsetIsClamped(current, end, j);
    var first := PositionAtByteOffset(current, start);
    var last := PositionAtByteOffset(current, end);
    if i < j { PositionsIncrease(current, i, j); }
    range := Some(Range(first, last));
  }
}
