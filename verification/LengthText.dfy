/**
 How a reader understands the text of a length formula: numerals, names, `+`, `-`, `*`, `/`, `%`
 and parentheses with Rust's precedence, operators of one level from left to right. The estimator
 builds such text by string concatenation; the lemmas here say when concatenation means what it
 looks like. Any other operator makes a text unreadable.
 */
module LengthText {
  import opened Text

  datatype Token = Plus | Minus | Star | Slash | Percent | Open | Close | Word(text: string) | Other(c: char)

  /** A value for every name that a formula may mention. */
  type Valuation = string -> nat

  // ---- words

  /** Outside ASCII only identifiers have characters, as blanks have been dropped from the text. */
  predicate IsNameStart(c: char) {
    'a' <= c <= 'z' || 'A' <= c <= 'Z' || c == '_' || c as int >= 0x80
  }

  predicate IsNameChar(c: char) {
    IsNameStart(c) || IsDigit(c)
  }

  predicate IsPunctuation(c: char) {
    !IsNameChar(c) && c != ':'
  }

  /** Identifiers joined by `::`. */
  predicate IsPath(word: string) {
    word != [] && IsNameStart(word[0]) && IsPathRest(word[1..])
  }

  predicate IsPathRest(s: string) {
    || s == []
    || (IsNameChar(s[0]) && IsPathRest(s[1..]))
    || (|s| >= 3 && s[0] == ':' && s[1] == ':' && IsNameStart(s[2]) && IsPathRest(s[3..]))
  }

  predicate IsNumeral(word: string) {
    word != [] && AllDigits(word)
  }

  predicate StartsWord(s: string) {
    s != [] && !IsPunctuation(s[0])
  }

  function PunctuationTokens(c: char): seq<Token>
    requires IsPunctuation(c)
  {
    match c
    case '+' => [Plus]
    case '-' => [Minus]
    case '*' => [Star]
    case '/' => [Slash]
    case '%' => [Percent]
    case '(' => [Open]
    case ')' => [Close]
    case ' ' => []
    case _ => [Other(c)]
  }

  /** The tokens of `c` followed by `next`, given the tokens of `next`; word characters run together. */
  function Push(c: char, next: string, tokens: seq<Token>): seq<Token>
    requires StartsWord(next) ==> tokens != [] && tokens[0].Word?
  {
    if IsPunctuation(c) then PunctuationTokens(c) + tokens
    else if StartsWord(next) then [Word([c] + tokens[0].text)] + tokens[1..]
    else [Word([c])] + tokens
  }

  function Lex(s: string): (tokens: seq<Token>)
    ensures StartsWord(s) ==> tokens != [] && tokens[0].Word?
  {
    if s == [] then [] else Push(s[0], s[1..], Lex(s[1..]))
  }

  /** Tokens do not run together across a point where one side is punctuation. */
  predicate Separated(a: string, b: string) {
    a == [] || b == [] || IsPunctuation(a[|a| - 1]) || IsPunctuation(b[0])
  }

  lemma PushConcat(c: char, a: string, b: string, x: seq<Token>, y: seq<Token>)
    requires StartsWord(a) ==> x != [] && x[0].Word?
    requires a == [] ==> x == []
    requires StartsWord(b) ==> y != [] && y[0].Word?
    requires Separated([c] + a, b)
    ensures StartsWord(a + b) ==> x + y != [] && (x + y)[0].Word?
    ensures Push(c, a + b, x + y) == Push(c, a, x) + y
  {
    if IsPunctuation(c) {
      Associative(PunctuationTokens(c), x, y);
    } else if StartsWord(a) {
      assert (x + y)[1..] == x[1..] + y;
      Associative([Word([c] + x[0].text)], x[1..], y);
    } else {
      Associative([Word([c])], x, y);
    }
  }

  lemma Associative(x: seq<Token>, y: seq<Token>, z: seq<Token>)
    ensures (x + y) + z == x + (y + z)
  {
  }

  lemma {:induction false} LexConcat(a: string, b: string)
    requires Separated(a, b)
    ensures Lex(a + b) == Lex(a) + Lex(b)
  {
    if a == [] {
      assert a + b == b;
    } else {
      LexConcat(a[1..], b);
      assert (a + b)[1..] == a[1..] + b;
      assert [a[0]] + a[1..] == a;
      PushConcat(a[0], a[1..], b, Lex(a[1..]), Lex(b));
    }
  }

  // ---- reading

  /** What reading a prefix of a token list gives: its value and the tokens left over. */
  datatype Reading = Unreadable | Read(value: int, rest: seq<Token>)

  predicate IsTimes(ts: seq<Token>) {
    ts != [] && (ts[0].Star? || ts[0].Slash? || ts[0].Percent?)
  }

  predicate IsPlus(ts: seq<Token>) {
    ts != [] && (ts[0].Plus? || ts[0].Minus?)
  }

  /** Rust divides no length by zero, and neither by nor into a negative number. */
  function Times(op: Token, a: int, b: int): Option<int> {
    if op.Star? then Some(a * b)
    else if a < 0 || b <= 0 then None
    else if op.Slash? then Some(a / b)
    else Some(a % b)
  }

  function Signed(op: Token, v: int): int {
    if op.Minus? then -v else v
  }

  function ReadSum(ts: seq<Token>, env: Valuation): (r: Reading)
    ensures r.Read? ==> |r.rest| < |ts|
    decreases |ts|, 2
  {
    match ReadProduct(ts, env)
    case Unreadable => Unreadable
    case Read(v, rest) => ReadTerms(v, rest, env)
  }

  /** The terms that follow a sum of `v`. */
  function ReadTerms(v: int, ts: seq<Token>, env: Valuation): (r: Reading)
    ensures r.Read? ==> |r.rest| <= |ts| && !IsPlus(r.rest)
    decreases |ts|, 2
  {
    if !IsPlus(ts) then Read(v, ts)
    else
      match ReadProduct(ts[1..], env)
      case Unreadable => Unreadable
      case Read(t, rest) => ReadTerms(v + Signed(ts[0], t), rest, env)
  }

  function ReadProduct(ts: seq<Token>, env: Valuation): (r: Reading)
    ensures r.Read? ==> |r.rest| < |ts|
    decreases |ts|, 1
  {
    match ReadFactor(ts, env)
    case Unreadable => Unreadable
    case Read(v, rest) => ReadFactors(v, rest, env)
  }

  /** The factors that follow a product of `v`. */
  function ReadFactors(v: int, ts: seq<Token>, env: Valuation): (r: Reading)
    ensures r.Read? ==> |r.rest| <= |ts| && !IsTimes(r.rest)
    decreases |ts|, 1
  {
    if !IsTimes(ts) then Read(v, ts)
    else
      match ReadFactor(ts[1..], env)
      case Unreadable => Unreadable
      case Read(f, rest) =>
        match Times(ts[0], v, f)
        case Some(u) => ReadFactors(u, rest, env)
        case None => Unreadable
  }

  function ReadFactor(ts: seq<Token>, env: Valuation): (r: Reading)
    ensures r.Read? ==> |r.rest| < |ts|
    decreases |ts|, 0
  {
    if ts == [] then Unreadable
    else if ts[0].Word? then
      if IsNumeral(ts[0].text) then Read(DigitsValue(ts[0].text), ts[1..])
      else if IsPath(ts[0].text) then Read(env(ts[0].text), ts[1..])
      else Unreadable
    else if ts[0].Open? then
      match ReadSum(ts[1..], env)
      case Unreadable => Unreadable
      case Read(v, rest) => if rest != [] && rest[0].Close? then Read(v, rest[1..]) else Unreadable
    else Unreadable
  }

  predicate IsSum(ts: seq<Token>, env: Valuation) {
    ReadSum(ts, env).Read? && ReadSum(ts, env).rest == []
  }

  predicate IsProduct(ts: seq<Token>, env: Valuation) {
    ReadProduct(ts, env).Read? && ReadProduct(ts, env).rest == []
  }

  predicate IsFactor(ts: seq<Token>, env: Valuation) {
    ReadFactor(ts, env).Read? && ReadFactor(ts, env).rest == []
  }

  // ---- reading goes on where more tokens follow

  lemma {:induction false} SumFrame(ts: seq<Token>, more: seq<Token>, env: Valuation)
    requires ReadSum(ts, env).Read? && (ReadSum(ts, env).rest != [] || !IsTimes(more))
    ensures ReadSum(ts + more, env) == ReadTerms(ReadSum(ts, env).value, ReadSum(ts, env).rest + more, env)
    decreases |ts|, 3
  {
    var Read(v, rest) := ReadProduct(ts, env);
    ProductFrame(ts, more, env);
    TermsFrame(v, rest, more, env);
  }

  lemma {:induction false} TermsFrame(v: int, ts: seq<Token>, more: seq<Token>, env: Valuation)
    requires ReadTerms(v, ts, env).Read? && (ReadTerms(v, ts, env).rest != [] || !IsTimes(more))
    ensures !IsTimes(ts) ==>
              && !IsTimes(ts + more)
              && ReadTerms(v, ts + more, env)
                 == ReadTerms(ReadTerms(v, ts, env).value, ReadTerms(v, ts, env).rest + more, env)
    decreases |ts|, 2
  {
    if IsPlus(ts) {
      var Read(t, rest) := ReadProduct(ts[1..], env);
      ProductFrame(ts[1..], more, env);
      assert (ts + more)[0] == ts[0] && (ts + more)[1..] == ts[1..] + more;
      TermsFrame(v + Signed(ts[0], t), rest, more, env);
    }
  }

  lemma {:induction false} ProductFrame(ts: seq<Token>, more: seq<Token>, env: Valuation)
    requires ReadProduct(ts, env).Read?
    ensures !IsTimes(ReadProduct(ts, env).rest)
    ensures ReadProduct(ts + more, env)
         == ReadFactors(ReadProduct(ts, env).value, ReadProduct(ts, env).rest + more, env)
    decreases |ts|, 1
  {
    var Read(v, rest) := ReadFactor(ts, env);
    FactorFrame(ts, more, env);
    FactorsFrame(v, rest, more, env);
  }

  lemma {:induction false} FactorsFrame(v: int, ts: seq<Token>, more: seq<Token>, env: Valuation)
    requires ReadFactors(v, ts, env).Read?
    ensures ReadFactors(v, ts + more, env)
         == ReadFactors(ReadFactors(v, ts, env).value, ReadFactors(v, ts, env).rest + more, env)
    decreases |ts|, 1
  {
    if IsTimes(ts) {
      var Read(f, rest) := ReadFactor(ts[1..], env);
      FactorFrame(ts[1..], more, env);
      assert (ts + more)[0] == ts[0] && (ts + more)[1..] == ts[1..] + more;
      FactorsFrame(Times(ts[0], v, f).value, rest, more, env);
    }
  }

  lemma {:induction false} FactorFrame(ts: seq<Token>, more: seq<Token>, env: Valuation)
    requires ReadFactor(ts, env).Read?
    ensures ReadFactor(ts + more, env) == Read(ReadFactor(ts, env).value, ReadFactor(ts, env).rest + more)
    decreases |ts|, 0
  {
    assert (ts + more)[0] == ts[0];
    assert (ts + more)[1..] == ts[1..] + more;
    if ts[0].Open? {
      var Read(v, rest) := ReadSum(ts[1..], env);
      SumFrame(ts[1..], more, env);
      assert (rest + more)[0] == rest[0];
      assert (rest + more)[1..] == rest[1..] + more;
    }
  }

  // ---- building formulas

  lemma ProductIsSum(ts: seq<Token>, env: Valuation)
    requires IsProduct(ts, env)
    ensures IsSum(ts, env) && ReadSum(ts, env).value == ReadProduct(ts, env).value
  {
  }

  lemma FactorIsProduct(ts: seq<Token>, env: Valuation)
    requires IsFactor(ts, env)
    ensures IsProduct(ts, env) && ReadProduct(ts, env).value == ReadFactor(ts, env).value
  {
  }

  lemma Parenthesised(ts: seq<Token>, env: Valuation)
    requires IsSum(ts, env)
    ensures IsFactor([Open] + ts + [Close], env)
    ensures ReadFactor([Open] + ts + [Close], env).value == ReadSum(ts, env).value
  {
    SumFrame(ts, [Close], env);
    assert ([Open] + ts + [Close])[1..] == ts + [Close];
    assert [] + [Close] == [Close];
  }

  lemma {:induction false} TermsShift(u: int, v: int, ts: seq<Token>, env: Valuation)
    ensures ReadTerms(u + v, ts, env)
         == match ReadTerms(v, ts, env) case Unreadable => Unreadable case Read(t, rest) => Read(u + t, rest)
    decreases |ts|
  {
    if IsPlus(ts) && ReadProduct(ts[1..], env).Read? {
      var Read(t, rest) := ReadProduct(ts[1..], env);
      TermsShift(u, v + Signed(ts[0], t), rest, env);
    }
  }

  lemma AddSums(a: seq<Token>, b: seq<Token>, env: Valuation)
    requires IsSum(a, env) && IsSum(b, env)
    ensures IsSum(a + ([Plus] + b), env)
    ensures ReadSum(a + ([Plus] + b), env).value == ReadSum(a, env).value + ReadSum(b, env).value
  {
    var more := [Plus] + b;
    var Read(t, rest) := ReadProduct(b, env);
    SumFrame(a, more, env);
    assert [] + more == more && more[1..] == b;
    TermsShift(ReadSum(a, env).value, t, rest, env);
  }

  lemma MultiplyProduct(a: seq<Token>, b: seq<Token>, env: Valuation)
    requires IsProduct(a, env) && IsFactor(b, env)
    ensures IsProduct(a + ([Star] + b), env)
    ensures ReadProduct(a + ([Star] + b), env).value == ReadProduct(a, env).value * ReadFactor(b, env).value
  {
    ProductFrame(a, [Star] + b, env);
    assert [] + ([Star] + b) == [Star] + b && ([Star] + b)[1..] == b;
  }

  // ---- multiplying a text that is not one term

  /** All terms but the last one, and the last one, of a sum that begins with `head` and `last`. */
  function SplitTerms(head: int, last: int, ts: seq<Token>, env: Valuation): (int, int)
    requires ReadTerms(head + last, ts, env).Read? && ReadTerms(head + last, ts, env).rest == []
    decreases |ts|
  {
    if ts == [] then (head, last)
    else
      var Read(t, rest) := ReadProduct(ts[1..], env);
      SplitTerms(head + last, Signed(ts[0], t), rest, env)
  }

  /** The value of all top-level terms but the last, and the value of the last one. */
  function HeadAndLast(ts: seq<Token>, env: Valuation): (int, int)
    requires IsSum(ts, env)
  {
    var Read(v, rest) := ReadProduct(ts, env);
    SplitTerms(0, v, rest, env)
  }

  lemma {:induction false} MultiplyTerms(head: int, last: int, ts: seq<Token>, b: seq<Token>, env: Valuation)
    requires ReadTerms(head + last, ts, env).Read? && ReadTerms(head + last, ts, env).rest == [] && ts != []
    requires IsFactor(b, env)
    ensures var (first, final) := SplitTerms(head, last, ts, env);
            && ReadTerms(head + last, ts, env).value == first + final
            && ReadTerms(head + last, ts + ([Star] + b), env) == Read(first + final * ReadFactor(b, env).value, [])
    decreases |ts|
  {
    var more := [Star] + b;
    var Read(t, rest) := ReadProduct(ts[1..], env);
    assert (ts + more)[0] == ts[0] && (ts + more)[1..] == ts[1..] + more;
    if rest == [] {
      MultiplyProduct(ts[1..], b, env);
      SignedProduct(ts[0], t, ReadFactor(b, env).value);
    } else {
      ProductFrame(ts[1..], more, env);
      assert (rest + more)[0] == rest[0];
      MultiplyTerms(head + last, Signed(ts[0], t), rest, b, env);
    }
  }

  lemma SignedProduct(op: Token, v: int, n: int)
    ensures Signed(op, v * n) == Signed(op, v) * n
  {
  }

  /** `head + last * factor` is how the reader understands a sum followed by `* factor`. */
  lemma MultiplySum(a: seq<Token>, b: seq<Token>, env: Valuation)
    requires IsSum(a, env) && IsFactor(b, env)
    ensures IsSum(a + ([Star] + b), env)
    ensures ReadSum(a, env).value == HeadAndLast(a, env).0 + HeadAndLast(a, env).1
    ensures ReadSum(a + ([Star] + b), env).value
         == HeadAndLast(a, env).0 + HeadAndLast(a, env).1 * ReadFactor(b, env).value
  {
    var Read(v, rest) := ReadProduct(a, env);
    var more := [Star] + b;
    if rest == [] {
      MultiplyProduct(a, b, env);
      ProductIsSum(a + more, env);
    } else {
      ProductFrame(a, more, env);
      assert (rest + more)[0] == rest[0];
      MultiplyTerms(0, v, rest, b, env);
    }
  }

  // ---- texts

  predicate IsSumText(text: string, env: Valuation) {
    IsSum(Lex(text), env)
  }

  /** One term: no top-level `+` or `-`. */
  predicate IsTermText(text: string, env: Valuation) {
    IsProduct(Lex(text), env)
  }

  /** The value of a well-formed formula text. */
  function TextValue(text: string, env: Valuation): int {
    if IsSumText(text, env) then ReadSum(Lex(text), env).value else 0
  }

  /** A formula that can be a length: Rust rejects a program in which a length is negative. */
  predicate IsCountText(text: string, env: Valuation) {
    IsSumText(text, env) && TextValue(text, env) >= 0
  }

  function Count(text: string, env: Valuation): nat {
    if IsCountText(text, env) then TextValue(text, env) else 0
  }

  lemma TermIsSumText(text: string, env: Valuation)
    requires IsTermText(text, env)
    ensures IsSumText(text, env) && TextValue(text, env) == ReadProduct(Lex(text), env).value
  {
    ProductIsSum(Lex(text), env);
  }

  lemma {:induction false} WordLex(word: string)
    requires word != [] && forall i :: 0 <= i < |word| ==> !IsPunctuation(word[i])
    ensures Lex(word) == [Word(word)]
  {
    if |word| > 1 {
      WordLex(word[1..]);
      assert [word[0]] + word[1..] == word;
    } else {
      assert word[1..] == [] && [word[0]] == word;
    }
  }

  lemma NumeralText(n: nat, env: Valuation)
    ensures IsFactor(Lex(Decimal(n)), env) && ReadFactor(Lex(Decimal(n)), env).value == n
    ensures IsTermText(Decimal(n), env) && TextValue(Decimal(n), env) == n
  {
    WordLex(Decimal(n));
    DecimalRoundTrip(n);
    FactorIsProduct(Lex(Decimal(n)), env);
    TermIsSumText(Decimal(n), env);
  }

  /** The text of a sum, a product and a parenthesised formula, as the estimator prints them. */
  function PlusText(a: string, b: string): string {
    a + " + " + b
  }

  function TimesText(a: string, b: string): string {
    a + " * " + b
  }

  function ParenText(a: string): string {
    "(" + a + ")"
  }

  lemma PlusLex(a: string, b: string)
    ensures Lex(PlusText(a, b)) == Lex(a) + ([Plus] + Lex(b))
  {
    BlankPlusBlank();
    calc {
      Lex((a + " + ") + b);
      { LexConcat(a + " + ", b); }
      Lex(a + " + ") + Lex(b);
      { LexConcat(a, " + "); }
      (Lex(a) + [Plus]) + Lex(b);
    }
  }

  lemma BlankPlusBlank()
    ensures Lex(" + ") == [Plus] && Lex(" * ") == [Star]
  {
    assert " + "[1..] == "+ " && "+ "[1..] == " " && " "[1..] == "";
    assert " * "[1..] == "* " && "* "[1..] == " " && " "[1..] == "";
    assert Lex(" ") == [] + Lex("");
    assert Lex("+ ") == [Plus] + Lex(" ");
    assert Lex("* ") == [Star] + Lex(" ");
  }

  lemma TimesLex(a: string, b: string)
    ensures Lex(TimesText(a, b)) == Lex(a) + ([Star] + Lex(b))
  {
    BlankPlusBlank();
    calc {
      Lex((a + " * ") + b);
      { LexConcat(a + " * ", b); }
      Lex(a + " * ") + Lex(b);
      { LexConcat(a, " * "); }
      (Lex(a) + [Star]) + Lex(b);
    }
  }

  lemma ParenLex(a: string)
    ensures Lex(ParenText(a)) == [Open] + Lex(a) + [Close]
  {
    LexConcat("(" + a, ")");
    LexConcat("(", a);
    assert Lex("(") == [Open] by { assert "("[1..] == ""; }
    assert Lex(")") == [Close] by { assert ")"[1..] == ""; }
  }

  lemma SumText(a: string, b: string, env: Valuation)
    requires IsSumText(a, env) && IsSumText(b, env)
    ensures IsSumText(PlusText(a, b), env)
    ensures TextValue(PlusText(a, b), env) == TextValue(a, env) + TextValue(b, env)
  {
    PlusLex(a, b);
    AddSums(Lex(a), Lex(b), env);
  }

  lemma ParenthesisedText(a: string, env: Valuation)
    requires IsSumText(a, env)
    ensures IsFactor(Lex(ParenText(a)), env)
    ensures ReadFactor(Lex(ParenText(a)), env).value == TextValue(a, env)
  {
    ParenLex(a);
    Parenthesised(Lex(a), env);
  }

  /** A one-term text times a factor reads as the product. */
  lemma TermTimes(a: string, b: string, env: Valuation)
    requires IsTermText(a, env) && IsFactor(Lex(b), env)
    ensures IsSumText(TimesText(a, b), env)
    ensures TextValue(TimesText(a, b), env) == TextValue(a, env) * ReadFactor(Lex(b), env).value
  {
    TimesLex(a, b);
    MultiplyProduct(Lex(a), Lex(b), env);
    TermIsSumText(a, env);
    TermIsSumText(TimesText(a, b), env);
  }

  /**
   An unparenthesised length text times a factor reads as the product exactly when the terms
   before its last one contribute nothing, or the factor is one.
   */
  lemma UnparenthesisedProduct(a: string, b: string, env: Valuation)
    requires IsSumText(a, env) && IsFactor(Lex(b), env)
    ensures IsSumText(TimesText(a, b), env)
    ensures TextValue(TimesText(a, b), env) == TextValue(a, env) * ReadFactor(Lex(b), env).value
       <==> HeadAndLast(Lex(a), env).0 == 0 || ReadFactor(Lex(b), env).value == 1
  {
    TimesLex(a, b);
    MultiplySum(Lex(a), Lex(b), env);
    ProductSplits(HeadAndLast(Lex(a), env).0, HeadAndLast(Lex(a), env).1, ReadFactor(Lex(b), env).value,
                  TextValue(a, env), TextValue(TimesText(a, b), env));
  }

  lemma ProductSplits(head: int, last: int, factor: int, whole: int, read: int)
    requires whole == head + last && read == head + last * factor
    ensures read == whole * factor <==> head == 0 || factor == 1
  {
    assert whole * factor == head * factor + last * factor;
    assert read - whole * factor == head * (1 - factor);
    if head != 0 && factor != 1 {
      assert head * (1 - factor) != 0;
    }
  }
}
