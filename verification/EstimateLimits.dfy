/**
 Where an estimate stops being the largest Borsh length, and exactly when, one kind of site at a
 time: strings and enums that saturate, enums without variants and what is built from them, and
 lengths that are printed as sums or differences.
 */
module EstimateLimits {
  import opened Text
  import opened LengthText
  import opened AccountSpace
  import opened Borsh
  import opened KnownEstimates
  import opened LargestLength
  import opened LargestEncoding

  /** The whole-account answer: the struct's fields encoded one after the other. */
  lemma AccountIsLargest(w: World, name: string, strukt: Struct, env: Valuation)
    requires !StructSpace(w, name, strukt, UNSEEN).Unknown?
    requires EverywhereIn(w, strukt.fields, InStruct(UNSEEN, name), env, ALL)
    ensures forall vs | InhabitAll(w, strukt.fields, env, vs) ::
              |EncodeAll(vs)| <= Meaning(StructSpace(w, name, strukt, UNSEEN), env)
    ensures exists vs :: InhabitAll(w, strukt.fields, env, vs)
                      && |EncodeAll(vs)| == Meaning(StructSpace(w, name, strukt, UNSEEN), env)
  {
    var seen := InStruct(UNSEEN, name);
    FieldsAsPayload(w, strukt.fields, seen, Exact(0));
    KnownPayload(w, strukt.fields, seen, Exact(0));
    CompareAll(w, strukt.fields, seen, Exact(0), env, ALL);
    forall vs | InhabitAll(w, strukt.fields, env, vs)
      ensures |EncodeAll(vs)| <= Meaning(StructSpace(w, name, strukt, UNSEEN), env)
    {
      AllNoLonger(w, strukt.fields, seen, env, vs);
    }
    var largest := AllReached(w, strukt.fields, seen, env);
  }

  /** The estimate of a known site is the largest encoded length. */
  ghost predicate IsRight(w: World, s: Site, seen: Seen, env: Valuation)
  {
    !SiteSpace(w, s, seen).Unknown? && IsLargest(w, s, env, Meaning(SiteSpace(w, s, seen), env))
  }

  lemma RightIff(w: World, s: Site, seen: Seen, env: Valuation)
    requires !SiteSpace(w, s, seen).Unknown?
    ensures IsRight(w, s, seen, env) <==> Largest(w, s, seen, env) == Some(Meaning(SiteSpace(w, s, seen), env))
    ensures HasValue(w, s, env) <==> Largest(w, s, seen, env).Some?
  {
    LargestIff(w, s, seen, env, Meaning(SiteSpace(w, s, seen), env));
    InhabitedIff(w, s, seen, env);
  }

  // ---- strings

  /** A numeric String bound: the answer is right exactly when four plus the bound fits 64 bits. */
  lemma StringSaturation(w: World, s: Site, seen: Seen, env: Valuation)
    requires s.ty.PathT? && KindOf(s.ty.name).StringPath?
    requires s.args != [] && ParseU64(s.args[0]).Some?
    ensures SiteSpace(w, s, seen).Exact?
    ensures IsRight(w, s, seen, env) <==> BORSH_LENGTH_PREFIX_BYTES + ParseU64(s.args[0]).value <= MAX_U64
  {
    RightIff(w, s, seen, env);
  }

  // ---- enums

  /** Every payload of the enum has values, and its estimate is the longest. */
  ghost predicate PayloadsRight(w: World, variants: seq<seq<Site>>, seen: Seen, env: Valuation)
  {
    forall variant | variant in variants ::
      var payload := PayloadFold(w, variant, seen, Exact(0));
      payload.Exact? && LargestAll(w, variant, seen, env) == Some(payload.bytes)
  }

  lemma {:induction false} VariantsRight(w: World, variants: seq<seq<Site>>, seen: Seen, env: Valuation)
    requires PayloadsRight(w, variants, seen, env)
    ensures LargestVariant(w, variants, seen, env)
         == if variants == [] then None else Some(LargestPayload(w, variants, seen))
    decreases |variants|
  {
    if variants != [] {
      assert variants[0] in variants;
      assert PayloadsRight(w, variants[1..], seen, env);
      VariantsRight(w, variants[1..], seen, env);
    }
  }

  /** An enum whose payloads are right is right exactly when it has a variant and its size fits 64 bits. */
  lemma EnumIsLargest(w: World, s: Site, seen: Seen, env: Valuation)
    requires s.ty.PathT? && KindOf(s.ty.name).NamedPath? && Resolve(w, s.ty.name).EnumDef?
    requires !SiteSpace(w, s, seen).Unknown?
    requires PayloadsRight(w, Resolve(w, s.ty.name).variants, InEnum(seen, s.ty.name), env)
    ensures IsRight(w, s, seen, env)
       <==> Resolve(w, s.ty.name).variants != []
            && ENUM_TAG_BYTES + LargestPayload(w, Resolve(w, s.ty.name).variants, InEnum(seen, s.ty.name)) <= MAX_U64
  {
    var variants, inside := Resolve(w, s.ty.name).variants, InEnum(seen, s.ty.name);
    EnumValue(w, variants, inside, 0);
    VariantsRight(w, variants, inside, env);
    RightIff(w, s, seen, env);
    assert Largest(w, s, seen, env) == LargestNamed(w, s.ty.name, seen, env);
  }

  /** `enum Wide { A([u8; u64::MAX]) }` is sized u64::MAX bytes, and its tag makes it one longer. */
  lemma EnumSaturationFails(env: Valuation)
    ensures var wide := Site(ArrayT(PathT("u8", []), ArrayLength(Some(MAX_U64), "")), "f", []);
            var w, s := World(map[], map["Wide" := [[wide]]], map[]), Site(PathT("Wide", []), "f", []);
            SiteSpace(w, s, UNSEEN) == Exact(MAX_U64) && !IsLargest(w, s, env, MAX_U64)
  {
    var byte := Site(PathT("u8", []), "f", []);
    var wide := Site(ArrayT(PathT("u8", []), ArrayLength(Some(MAX_U64), "")), "f", []);
    var w, s := World(map[], map["Wide" := [[wide]]], map[]), Site(PathT("Wide", []), "f", []);
    var inside := InEnum(UNSEEN, "Wide");
    assert wide.(ty := wide.ty.elem) == byte && SiteSpace(w, byte, inside) == Exact(1);
    assert SiteSpace(w, wide, inside) == Exact(MAX_U64);
    assert Largest(w, byte, inside, env) == Some(1);
    assert Largest(w, wide, inside, env) == Some(MAX_U64);
    OneField(w, wide, inside, MAX_U64, env);
    assert SiteSpace(w, s, UNSEEN) == NamedSpace(w, "Wide", UNSEEN);
    EnumIsLargest(w, s, UNSEEN, env);
  }

  lemma OneField(w: World, field: Site, seen: Seen, bytes: nat, env: Valuation)
    requires bytes <= MAX_U64
    requires SiteSpace(w, field, seen) == Exact(bytes) && Largest(w, field, seen, env) == Some(bytes)
    ensures PayloadsRight(w, [[field]], seen, env) && LargestPayload(w, [[field]], seen) == bytes
    ensures EnumFold(w, [[field]], seen, 0) == Exact(SaturatingAdd(ENUM_TAG_BYTES, bytes))
  {
    assert [[field]][1..] == [] && [field][1..] == [];
    assert PayloadFold(w, [field], seen, Exact(0)) == Exact(bytes);
    assert LargestAll(w, [field], seen, env) == Some(bytes);
    assert LargestPayload(w, [], seen) == 0;
    assert EnumFold(w, [], seen, bytes) == Exact(SaturatingAdd(ENUM_TAG_BYTES, bytes));
  }

  // ---- types without values

  /** The site of the items of an array, Option or Vec. */
  function ItemSite(s: Site): Site
    requires s.ty.ArrayT? || (s.ty.PathT? && s.ty.params != [])
  {
    if s.ty.ArrayT? then s.(ty := s.ty.elem)
    else if KindOf(s.ty.name).VecPath? then s.(ty := s.ty.params[0], args := Drop(s.args, 1))
    else s.(ty := s.ty.params[0])
  }

  /** The site is right, or has no values at all. */
  ghost predicate RightIfAny(w: World, s: Site, seen: Seen, env: Valuation)
  {
    !SiteSpace(w, s, seen).Unknown? && (HasValue(w, s, env) ==> IsRight(w, s, seen, env))
  }

  /** What that says of the reference, and that the texts read. */
  lemma ItemLongest(w: World, s: Site, seen: Seen, env: Valuation, checks: set<Check>)
    requires RightIfAny(w, s, seen, env) && Texts in checks && Everywhere(w, s, seen, env, checks)
    ensures WellPrinted(SiteSpace(w, s, seen), env)
    ensures HasValue(w, s, env) <==> Largest(w, s, seen, env).Some?
    ensures var longest := Largest(w, s, seen, env);
            longest == None || longest == Some(Meaning(SiteSpace(w, s, seen), env))
  {
    SitePrinted(w, s, seen, env, checks);
    RightIff(w, s, seen, env);
  }

  /** An Option over a right or uninhabited item is right exactly when the item has a value or means no bytes. */
  lemma OptionIsLargest(w: World, s: Site, seen: Seen, env: Valuation)
    requires s.ty.PathT? && KindOf(s.ty.name).OptionPath? && s.ty.params != []
    requires !SiteSpace(w, s, seen).Unknown? && Everywhere(w, s, seen, env, {Texts})
    requires RightIfAny(w, ItemSite(s), seen, env)
    ensures IsRight(w, s, seen, env)
       <==> HasValue(w, ItemSite(s), env) || Meaning(SiteSpace(w, ItemSite(s), seen), env) == 0
  {
    OptionSizes(w, s, seen, env);
    OptionLongest(w, s, seen, env);
    OptionEverywhere(w, s, seen, env, {Texts});
    var item, size := Largest(w, ItemSite(s), seen, env), Meaning(SiteSpace(w, ItemSite(s), seen), env);
    assert (item == None || item == Some(size)) && (HasValue(w, ItemSite(s), env) <==> item.Some?) by {
      ItemLongest(w, ItemSite(s), seen, env, {Texts});
    }
    RightIff(w, s, seen, env);
  }

  /** An enum without variants has no values, yet it is sized as one byte, and an Option of it as two. */
  lemma EmptyEnum(w: World, name: string, owner: string, args: seq<string>, seen: Seen, env: Valuation)
    requires KindOf(name).NamedPath? && Resolve(w, name) == EnumDef([])
    requires name !in seen.structs && name !in seen.enums
    ensures var never := Site(PathT(name, []), owner, args);
            SiteSpace(w, never, seen) == Exact(ENUM_TAG_BYTES) && !HasValue(w, never, env)
    ensures var option := Site(PathT("Option", [PathT(name, [])]), owner, args);
            SiteSpace(w, option, seen) == Exact(OPTION_TAG_BYTES + ENUM_TAG_BYTES)
            && IsLargest(w, option, env, OPTION_TAG_BYTES)
  {
    var never, option := Site(PathT(name, []), owner, args), Site(PathT("Option", [PathT(name, [])]), owner, args);
    NeverSized(w, never, seen, env);
    assert option.(ty := option.ty.params[0]) == never;
    InhabitedIff(w, never, seen, env);
    LargestIff(w, option, seen, env, OPTION_TAG_BYTES);
  }

  lemma NeverSized(w: World, s: Site, seen: Seen, env: Valuation)
    requires s.ty.PathT? && KindOf(s.ty.name).NamedPath? && Resolve(w, s.ty.name) == EnumDef([])
    requires s.ty.name !in seen.structs && s.ty.name !in seen.enums
    ensures SiteSpace(w, s, seen) == Exact(ENUM_TAG_BYTES) && Largest(w, s, seen, env) == None
  {
    assert SiteSpace(w, s, seen) == NamedSpace(w, s.ty.name, seen);
    assert NamedSpace(w, s.ty.name, seen) == EnumFold(w, [], InEnum(seen, s.ty.name), 0);
    assert LargestVariant(w, [], InEnum(seen, s.ty.name), env) == None;
    assert LargestNamed(w, s.ty.name, seen, env) == None;
    assert Largest(w, s, seen, env) == LargestNamed(w, s.ty.name, seen, env);
  }

  // ---- lengths

  /** The printed length multiplies items of this size. */
  predicate Multiplied(length: Length, size: int, env: Valuation) {
    length.Symbol? ==> Multiplies(length.text, size, env)
  }

  /** What is printed for the items comes to nothing. */
  predicate Vanishes(length: Length, size: int, env: Valuation) {
    match length
    case Number(n) => n == 0 || size == 0
    case Symbol(text) =>
      IsSumText(text, env) ==> HeadAndLast(Lex(text), env).0 + HeadAndLast(Lex(text), env).1 * size == 0
  }

  lemma ItemsCountIff(e: Estimate, length: Length, n: nat, item: Estimate, extra: nat, longest: Option<nat>,
                      env: Valuation)
    requires Means(e, length, n, item, extra, env) && LengthHolds(length, item, env, Texts)
    requires longest == None || longest == Some(Meaning(item, env))
    ensures longest.Some? || n == 0 ==>
              (Meaning(e, env) == extra + n * longest.GetOr(0) <==> Multiplied(length, Meaning(item, env), env))
    ensures Meaning(e, env) == extra <==> Vanishes(length, Meaning(item, env), env)
  {
    match length
    case Number(m) => NoProduct(m, Meaning(item, env));
    case Symbol(_) =>
  }

  lemma NoProduct(n: nat, size: int)
    ensures n * size == 0 <==> n == 0 || size == 0
  {
  }

  /**
   A Vec over a right or uninhabited item: where there can be items it is right exactly when the
   printed length multiplies them, and else exactly when nothing is printed for them.
   */
  lemma VecIsLargest(w: World, s: Site, seen: Seen, env: Valuation)
    requires s.ty.PathT? && KindOf(s.ty.name).VecPath? && s.ty.params != []
    requires !SiteSpace(w, s, seen).Unknown? && Everywhere(w, s, seen, env, {Texts})
    requires RightIfAny(w, ItemSite(s), seen, env)
    ensures IsRight(w, s, seen, env)
       <==> if HasValue(w, ItemSite(s), env) || SlotValue(s.args, env) == 0
            then Multiplied(SlotOf(s.args), Meaning(SiteSpace(w, ItemSite(s), seen), env), env)
            else Vanishes(SlotOf(s.args), Meaning(SiteSpace(w, ItemSite(s), seen), env), env)
  {
    var inner, n := ItemSite(s), SlotValue(s.args, env);
    var e, item, longest := SiteSpace(w, s, seen), SiteSpace(w, inner, seen), Largest(w, inner, seen, env);
    VecItems(w, s, s.ty.params, seen, env, {Texts});
    assert Holds(w, s, seen, env, Texts);
    ItemLongest(w, inner, seen, env, ItemChecks({Texts}, n));
    VecMeaning(s.owner, s.args, item, env);
    ItemsCountIff(e, SlotOf(s.args), n, item, BORSH_LENGTH_PREFIX_BYTES, longest, env);
    RightIff(w, s, seen, env);
  }

  /** The same for an array, which has no values at all when it should have items and they have none. */
  lemma ArrayIsLargest(w: World, s: Site, seen: Seen, env: Valuation)
    requires s.ty.ArrayT?
    requires !SiteSpace(w, s, seen).Unknown? && Everywhere(w, s, seen, env, {Texts})
    requires RightIfAny(w, ItemSite(s), seen, env)
    ensures IsRight(w, s, seen, env)
       <==> (HasValue(w, ItemSite(s), env) || ArrayValue(s.ty.length, env) == 0)
            && Multiplied(LengthOf(s.ty.length), Meaning(SiteSpace(w, ItemSite(s), seen), env), env)
  {
    var inner, n := ItemSite(s), ArrayValue(s.ty.length, env);
    assert Holds(w, s, seen, env, Texts);
    ItemLongest(w, inner, seen, env, ItemChecks({Texts}, n));
    ArrayMeaning(s.owner, s.ty.length, SiteSpace(w, inner, seen), env);
    ItemsCountIff(SiteSpace(w, s, seen), LengthOf(s.ty.length), n, SiteSpace(w, inner, seen), 0,
                  Largest(w, inner, seen, env), env);
    RightIff(w, s, seen, env);
  }

  // ---- lengths that fail

  /** Two words with an operator between them. */
  lemma OperatorLex(a: string, c: char, b: string)
    requires IsWord(a) && IsWord(b) && IsPunctuation(c)
    ensures Lex(a + [c] + b) == [Word(a)] + (PunctuationTokens(c) + [Word(b)])
  {
    WordLex(a);
    WordLex(b);
    LexConcat(a + [c], b);
    LexConcat(a, [c]);
    assert [c][1..] == [] && Lex([c]) == PunctuationTokens(c) + [];
  }

  predicate IsWord(s: string) {
    s != [] && forall i :: 0 <= i < |s| ==> !IsPunctuation(s[i])
  }

  /** What two terms read as, and how they split. */
  lemma TwoTerms(ts: seq<Token>, a: string, op: Token, b: string, x: nat, y: nat, env: Valuation)
    requires ts == [Word(a)] + [op, Word(b)] && (op.Plus? || op.Minus?)
    requires ReadFactor([Word(a)], env) == Read(x, []) && ReadFactor([Word(b)], env) == Read(y, [])
    ensures IsSum(ts, env) && ReadSum(ts, env).value == x + Signed(op, y)
    ensures HeadAndLast(ts, env) == (x, Signed(op, y))
  {
    var more := [op, Word(b)];
    assert more[1..] == [Word(b)] && !IsTimes(more);
    FactorFrame([Word(a)], more, env);
    assert [] + more == more;
    assert ReadProduct(ts, env) == Read(x, more);
    FactorIsProduct([Word(b)], env);
    OneMoreTerm(x, more, y, env);
  }

  lemma OneMoreTerm(x: nat, more: seq<Token>, y: nat, env: Valuation)
    requires IsPlus(more) && ReadProduct(more[1..], env) == Read(y, [])
    ensures ReadTerms(x, more, env) == Read(x + Signed(more[0], y), [])
    ensures SplitTerms(0, x, more, env) == (x, Signed(more[0], y))
  {
    assert ReadTerms(x + Signed(more[0], y), [], env) == Read(x + Signed(more[0], y), []);
  }

  const U16 := PathT("u16", [])

  /** A Vec of u16 with a symbolic bound is right exactly when the bound multiplies two bytes. */
  lemma VecOfU16(w: World, owner: string, text: string, seen: Seen, env: Valuation)
    requires IsCountText(text, env) && ParseU64(text).None?
    ensures var s := Site(PathT("Vec", [U16]), owner, [text]);
            !SiteSpace(w, s, seen).Unknown? && (IsRight(w, s, seen, env) <==> Multiplies(text, 2, env))
  {
    var s := Site(PathT("Vec", [U16]), owner, [text]);
    var item := Site(U16, owner, []);
    assert ItemSite(s) == item && SiteSpace(w, item, seen) == Exact(2) && Largest(w, item, seen, env) == Some(2);
    RightIff(w, item, seen, env);
    assert Everywhere(w, item, seen, env, ItemChecks({Texts}, SlotValue(s.args, env)));
    VecIsLargest(w, s, seen, env);
  }

  lemma ArrayOfU16(w: World, owner: string, text: string, seen: Seen, env: Valuation)
    requires IsCountText(text, env)
    ensures var s := Site(ArrayT(U16, ArrayLength(None, text)), owner, []);
            !SiteSpace(w, s, seen).Unknown? && (IsRight(w, s, seen, env) <==> Multiplies(text, 2, env))
  {
    var s := Site(ArrayT(U16, ArrayLength(None, text)), owner, []);
    var item := Site(U16, owner, []);
    assert ItemSite(s) == item && SiteSpace(w, item, seen) == Exact(2) && Largest(w, item, seen, env) == Some(2);
    RightIff(w, item, seen, env);
    assert Everywhere(w, item, seen, env, ItemChecks({Texts}, ArrayValue(s.ty.length, env)));
    ArrayIsLargest(w, s, seen, env);
  }

  lemma SumReads(env: Valuation)
    ensures IsCountText("A+B", env) && HeadAndLast(Lex("A+B"), env) == (env("A"), env("B") as int)
    ensures ParseU64("A+B").None?
  {
    OperatorLex("A", '+', "B");
    assert "A" + ['+'] + "B" == "A+B";
    NameReads("A", env);
    NameReads("B", env);
    TwoTerms(Lex("A+B"), "A", Plus, "B", env("A"), env("B"), env);
    assert TrimParens("A+B") == "A+B";
  }

  /** `#[max_len(A + B)] Vec<u16>` is printed as `4 + A+B * 2`: wrong whenever A is not zero. */
  lemma SumLengthFails(w: World, owner: string, seen: Seen, env: Valuation)
    requires env("A") > 0
    ensures var s := Site(PathT("Vec", [U16]), owner, ["A+B"]);
            !SiteSpace(w, s, seen).Unknown? && !IsRight(w, s, seen, env)
  {
    SumReads(env);
    VecOfU16(w, owner, "A+B", seen, env);
  }

  lemma DifferenceReads(env: Valuation)
    requires env("N") >= 1
    ensures IsCountText("N-1", env) && HeadAndLast(Lex("N-1"), env) == (env("N") as int, -1)
  {
    OperatorLex("N", '-', "1");
    assert "N" + ['-'] + "1" == "N-1";
    NameReads("N", env);
    assert DigitsValue("1") == 1 by { assert "1"[..0] == ""; }
    assert ReadFactor([Word("1")], env) == Read(1, []);
    TwoTerms(Lex("N-1"), "N", Minus, "1", env("N"), 1, env);
  }

  lemma DifferencePrinted(w: World, owner: string, seen: Seen)
    ensures SiteSpace(w, Site(ArrayT(U16, ArrayLength(None, "N-1")), owner, []), seen)
         == Formula(0, [SymbolicPart(owner, "N-1 * 2")])
  {
    var s := Site(ArrayT(U16, ArrayLength(None, "N-1")), owner, []);
    assert ItemSite(s) == Site(U16, owner, []) && SiteSpace(w, ItemSite(s), seen) == Exact(2);
    assert Decimal(2) == "2" && "N-1" + " * " + "2" == "N-1 * 2";
  }

  /** `[u16; N - 1]` is printed as `N-1 * 2`, which is N less two: wrong for every length there is. */
  lemma DifferenceLengthFails(w: World, owner: string, seen: Seen, env: Valuation)
    requires env("N") >= 1
    ensures var s := Site(ArrayT(U16, ArrayLength(None, "N-1")), owner, []);
            && SiteSpace(w, s, seen) == Formula(0, [SymbolicPart(owner, "N-1 * 2")])
            && Meaning(SiteSpace(w, s, seen), env) == env("N") - 2
            && !IsRight(w, s, seen, env)
  {
    DifferenceReads(env);
    DifferencePrinted(w, owner, seen);
    ArrayOfU16(w, owner, "N-1", seen, env);
    SymbolicProductMeaning(owner, "N-1", Exact(2), env);
    assert SymbolicProduct(owner, "N-1", Exact(2)) == Formula(0, [SymbolicPart(owner, "N-1 * 2")]) by {
      assert Decimal(2) == "2" && "N-1" + " * " + "2" == "N-1 * 2";
    }
  }

  lemma NameReads(name: string, env: Valuation)
    requires |name| == 1 && IsNameStart(name[0]) && !IsDigit(name[0])
    ensures ReadFactor([Word(name)], env) == Read(env(name), [])
  {
    assert name[1..] == [];
  }
}
