/**
 What offsets and positions count: the bytes of the UTF-8 form of a text (RFC 3629, section 3), and
 its line feeds and the characters after the last of them.
 */
module TextPositions {
  import opened ByteOrder
  import opened TextSync

  // ---- UTF-8

  predicate IsTail(b: byte) {
    0x80 <= b < 0xC0
  }

  /** These bytes, the first of which says how many follow, stand for the scalar value `n`. */
  predicate Encodes(code: seq<byte>, n: int) {
    match |code|
    case 1 => code[0] < 0x80 && n == code[0] as int
    case 2 => 0xC0 <= code[0] < 0xE0 && IsTail(code[1]) && n == (code[0] as int - 0xC0) * 0x40 + (code[1] as int - 0x80)
    case 3 =>
      && 0xE0 <= code[0] < 0xF0 && IsTail(code[1]) && IsTail(code[2])
      && n == (code[0] as int - 0xE0) * 0x1000 + (code[1] as int - 0x80) * 0x40 + (code[2] as int - 0x80)
    case 4 =>
      && 0xF0 <= code[0] < 0xF8 && IsTail(code[1]) && IsTail(code[2]) && IsTail(code[3])
      && n == (code[0] as int - 0xF0) * 0x4_0000 + (code[1] as int - 0x80) * 0x1000
              + (code[2] as int - 0x80) * 0x40 + (code[3] as int - 0x80)
    case _ => false
  }

  function Tail(n: nat): byte {
    0x80 + n % 0x40
  }

  function CharCode(c: char): seq<byte> {
    var n := c as int;
    var m := n / 0x40;
    var l := m / 0x40;
    if n < 0x80 then [n]
    else if n < 0x800 then [0xC0 + m, Tail(n)]
    else if n < 0x1_0000 then [0xE0 + l, Tail(m), Tail(n)]
    else [0xF0 + l / 0x40, Tail(l), Tail(m), Tail(n)]
  }

  lemma ShortCodes(code: seq<byte>, n: int)
    requires Encodes(code, n)
    ensures 0 <= n && (|code| == 1 ==> n < 0x80) && (|code| == 2 ==> n < 0x800) && (|code| == 3 ==> n < 0x1_0000)
  {
  }

  /** The width of a character is the length of its shortest code. */
  lemma WidthIsShortest(c: char)
    ensures Encodes(CharCode(c), c as int) && |CharCode(c)| == Width(c)
    ensures forall code | Encodes(code, c as int) :: Width(c) <= |code|
  {
    forall code | Encodes(code, c as int) ensures Width(c) <= |code| {
      ShortCodes(code, c as int);
    }
  }

  /** The text's UTF-8 form. */
  function Utf8(s: string): seq<byte> {
    if s == [] then [] else Utf8(s[..|s| - 1]) + CharCode(s[|s| - 1])
  }

  /** Offsets count the bytes of the UTF-8 form. */
  lemma {:induction false} ByteLenIsUtf8(s: string)
    ensures |Utf8(s)| == ByteLen(s)
  {
    if s != [] {
      ByteLenIsUtf8(s[..|s| - 1]);
      WidthIsShortest(s[|s| - 1]);
    }
  }

  // ---- lines and characters

  function LineFeeds(s: string): nat {
    multiset(s)['\n']
  }

  /** The last `n` characters are the beginning of a line. */
  predicate BeginsLine(s: string, n: nat) {
    && n <= |s| && (forall i | |s| - n <= i < |s| :: s[i] != '\n')
    && (n < |s| ==> s[|s| - n - 1] == '\n')
  }

  lemma LineFeedsStep(before: string, last: char)
    ensures LineFeeds(before + [last]) == LineFeeds(before) + if last == '\n' then 1 else 0
  {
  }

  predicate Counts(s: string, p: Position) {
    p.line == LineFeeds(s) && BeginsLine(s, p.character)
  }

  lemma CountsStep(before: string, last: char, q: Position, p: Position)
    requires Counts(before, q)
    ensures Counts(before + [last], p) <==> p == Advance(q, last)
  {
    LineFeedsStep(before, last);
    AfterLast(before, last, q.character, p.character);
  }

  /** A position counts the line feeds before it, and the characters after the last of these. */
  lemma {:induction false} PositionIff(s: string, p: Position)
    ensures PositionAfter(s) == p <==> p.line == LineFeeds(s) && BeginsLine(s, p.character)
  {
    assert Counts(s, p) <==> p.line == LineFeeds(s) && BeginsLine(s, p.character);
    if s != [] {
      var before, last := s[..|s| - 1], s[|s| - 1];
      PositionIff(before, PositionAfter(before));
      CountsStep(before, last, PositionAfter(before), p);
      assert s == before + [last];
    }
  }

  lemma AfterLast(before: string, last: char, n: nat, m: nat)
    requires BeginsLine(before, n)
    ensures BeginsLine(before + [last], m) <==> m == if last == '\n' then 0 else n + 1
  {
    var s := before + [last];
    assert s[|s| - 1] == last && forall i | 0 <= i < |before| :: s[i] == before[i];
    if n + 1 < m <= |s| {
      assert s[|s| - n - 2] == '\n';
    }
  }
}
