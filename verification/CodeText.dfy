/**
 What the two hand-written scanners take for code, said of the text itself: comments and strings
 are skipped to where they end, and everything else is code.
 */
module CodeText {
  import opened Text

  // ---- where comments and strings end

  /** The line at `i` goes on to `end`: a line feed, or the end of the text. */
  predicate LineEndsAt(text: string, i: nat, end: nat) {
    && i <= end <= |text| && (end < |text| ==> text[end] == '\n')
    && forall k | i <= k < end :: text[k] != '\n'
  }

  /** How many backslashes come right before `k`, not looking further back than `from`. */
  function Backslashes(text: string, from: nat, k: nat): nat
    requires from <= k <= |text|
  {
    if k > from && text[k - 1] == '\\' then 1 + Backslashes(text, from, k - 1) else 0
  }

  /** A quote that no backslash escapes, in a string whose text begins at `from`. */
  predicate IsClosingQuote(text: string, from: nat, k: nat)
    requires from <= k < |text|
  {
    text[k] == '"' && Backslashes(text, from, k) % 2 == 0
  }

  predicate StringEndsAt(text: string, from: nat, end: nat) {
    && from <= end <= |text| && (end < |text| ==> IsClosingQuote(text, from, end))
    && forall k | from <= k < end :: !IsClosingQuote(text, from, k)
  }

  /** A block comment whose text begins at `from` goes on to the first closing pair, or the end of the text. */
  predicate BlockEndsAt(text: string, from: nat, end: nat) {
    && from <= end <= |text| && (end < |text| ==> At(text, "*/", end))
    && forall k | from <= k < end :: !At(text, "*/", k)
  }
}
