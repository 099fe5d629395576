/**
 A known estimate is the largest Borsh length: no value of the type encodes to more bytes and
 one encodes to exactly that many.
 */
module LargestEncoding {
  import opened Text
  import opened LengthText
  import opened AccountSpace
  import opened Borsh
  import opened KnownEstimates
  import opened LargestLength

  // ---- what makes an estimate right, checked at every declaration the estimator reaches

  /**
   `Texts`: length texts are formulas, and not negative. `Products`: a text printed before `*` is read
   as a factor. `Bounds`: nothing saturates. `Variants`: enums have a variant.
   */
  datatype Check = Texts | Products | Bounds | Variants

  const UPPER: set<Check> := {Texts, Products, Bounds}
  const ALL: set<Check> := {Texts, Products, Bounds, Variants}

  /** A bound as the estimator takes it: a number, or else a text. */
  datatype Length = Number(n: nat) | Symbol(text: string)

  function LengthOf(length: ArrayLength): Length {
    if length.literal.Some? && length.literal.value <= MAX_U64 then Number(length.literal.value)
    else Symbol(length.text)
  }

  function SlotOf(args: seq<string>): Length {
    match ParseU64(SlotText(args))
    case Some(n) => Number(n)
    case None => Symbol(SlotText(args))
  }

  /** `text * size` is read as the product: no term before the last one counts, or the factor is one. */
  predicate Multiplies(text: string, size: int, env: Valuation) {
    IsSumText(text, env) ==> HeadAndLast(Lex(text), env).0 == 0 || size == 1
  }

  predicate LengthHolds(length: Length, item: Estimate, env: Valuation, check: Check) {
    match check
    case Texts => length.Symbol? ==> IsCountText(length.text, env)
    case Products => length.Symbol? && !item.Unknown? ==> Multiplies(length.text, Meaning(item, env), env)
    case _ => true
  }

  /** The largest payload of an enum's variants, in unbounded arithmetic. */
  ghost function LargestPayload(w: World, variants: seq<seq<Site>>, seen: Seen): nat
  {
    if variants == [] then 0
    else
      var payload := PayloadFold(w, variants[0], seen, Exact(0));
      Max(if payload.Exact? then payload.bytes else 0, LargestPayload(w, variants[1..], seen))
  }

  ghost predicate EnumHolds(w: World, variants: seq<seq<Site>>, seen: Seen, check: Check)
  {
    match check
    case Bounds => ENUM_TAG_BYTES + LargestPayload(w, variants, seen) <= MAX_U64
    case Variants => variants != []
    case _ => true
  }

  ghost predicate Holds(w: World, s: Site, seen: Seen, env: Valuation, check: Check)
  {
    match s.ty
    case ArrayT(elem, length) => LengthHolds(LengthOf(length), SiteSpace(w, s.(ty := elem), seen), env, check)
    case PathT(name, params) =>
      (match KindOf(name)
       case StringPath =>
         var length := SlotOf(s.args);
         (check.Texts? ==> LengthHolds(length, Exact(1), env, Texts))
         && (check.Bounds? && length.Number? ==> BORSH_LENGTH_PREFIX_BYTES + length.n <= MAX_U64)
       case VecPath =>
         params != [] ==>
           LengthHolds(SlotOf(s.args), SiteSpace(w, s.(ty := params[0], args := Drop(s.args, 1)), seen), env, check)
       case NamedPath =>
         Resolve(w, name).EnumDef? ==> EnumHolds(w, Resolve(w, name).variants, InEnum(seen, name), check)
       case _ => true)
    case _ => true
  }

  /** Of items that never occur only the texts matter. */
  function ItemChecks(checks: set<Check>, count: nat): set<Check> {
    if count == 0 then checks * {Texts} else checks
  }

  /** The checks hold at the site and at every site and declaration that sizing it reaches. */
  ghost predicate Everywhere(w: World, s: Site, seen: Seen, env: Valuation, checks: set<Check>)
    decreases StructsLeft(w, seen), EnumsLeft(w, seen), TypeSize(s.ty)
  {
    && (forall check | check in checks :: Holds(w, s, seen, env, check))
    && match s.ty
       case ArrayT(elem, length) =>
         Everywhere(w, s.(ty := elem), seen, env, ItemChecks(checks, ArrayValue(length, env)))
       case TupleT(elems) => EverywhereIn(w, TupleSites(elems, s.owner, s.args), seen, env, checks)
       case PathT(name, params) =>
         (match KindOf(name)
          case OptionPath => params != [] ==> Everywhere(w, s.(ty := params[0]), seen, env, checks)
          case VecPath =>
            params != [] ==>
              Everywhere(w, s.(ty := params[0], args := Drop(s.args, 1)), seen, env,
                         ItemChecks(checks, SlotValue(s.args, env)))
          case NamedPath => EverywhereNamed(w, name, seen, env, checks)
          case _ => true)
       case OtherT => true
  }

  ghost predicate EverywhereIn(w: World, sites: seq<Site>, seen: Seen, env: Valuation, checks: set<Check>)
    decreases StructsLeft(w, seen), EnumsLeft(w, seen), SitesSize(sites)
  {
    sites == []
    || (Everywhere(w, sites[0], seen, env, checks) && EverywhereIn(w, sites[1..], seen, env, checks))
  }

  ghost predicate EverywhereNamed(w: World, name: string, seen: Seen, env: Valuation, checks: set<Check>)
    decreases StructsLeft(w, seen), EnumsLeft(w, seen), 0
  {
    match Resolve(w, name)
    case StructDef(strukt) => name in seen.structs || EverywhereIn(w, strukt.fields, InStruct(seen, name), env, checks)
    case EnumDef(variants) =>
      name in seen.structs || name in seen.enums || EverywhereVariants(w, variants, InEnum(seen, name), env, checks)
    case NoDef => true
  }

  ghost predicate EverywhereVariants(w: World, variants: seq<seq<Site>>, seen: Seen, env: Valuation,
                                     checks: set<Check>)
    decreases StructsLeft(w, seen), EnumsLeft(w, seen), VariantsSize(variants) + 1
  {
    variants == []
    || (EverywhereIn(w, variants[0], seen, env, checks)
        && EverywhereVariants(w, variants[1..], seen, env, checks))
  }

  // ---- the meaning of estimate arithmetic

  lemma {:induction false} PartsConcat(a: seq<SymbolicPart>, b: seq<SymbolicPart>, env: Valuation)
    ensures PartsValue(a + b, env) == PartsValue(a, env) + PartsValue(b, env)
  {
    if a == [] {
      assert a + b == b;
    } else {
      PartsConcat(a[1..], b, env);
      assert (a + b)[1..] == a[1..] + b;
    }
  }

  lemma AddMeaning(a: Estimate, b: Estimate, env: Valuation)
    requires !AddEstimates(a, b).Unknown?
    ensures !a.Unknown? && !b.Unknown?
    ensures Meaning(AddEstimates(a, b), env) == Meaning(a, env) + Meaning(b, env)
    ensures AddEstimates(a, b).Exact? <==> a.Exact? && b.Exact?
    ensures WellPrinted(a, env) && WellPrinted(b, env) ==> WellPrinted(AddEstimates(a, b), env)
  {
    if a.Formula? && b.Formula? {
      PartsConcat(a.symbolic, b.symbolic, env);
    }
  }

  /** A sum is unknown when a summand is, the left reason first, or when the fixed bytes pass 64 bits. */
  lemma AddUnknown(a: Estimate, b: Estimate)
    ensures AddEstimates(a, b).Unknown? <==> a.Unknown? || b.Unknown? || FixedBytes(a) + FixedBytes(b) > MAX_U64
    ensures a.Unknown? ==> AddEstimates(a, b) == a
    ensures !a.Unknown? && b.Unknown? ==> AddEstimates(a, b) == b
    ensures !a.Unknown? && !b.Unknown? && FixedBytes(a) + FixedBytes(b) > MAX_U64 ==>
              AddEstimates(a, b) == Unknown(Overflow)
  {
  }

  lemma {:induction false} ScaleMeaning(parts: seq<SymbolicPart>, factor: nat, owner: string, env: Valuation)
    requires PartsReadable(parts, env)
    ensures PartsReadable(ScaleParts(parts, factor, owner), env)
    ensures PartsValue(ScaleParts(parts, factor, owner), env) == factor * PartsValue(parts, env)
  {
    if parts != [] {
      var scaled := SymbolicPart(owner, TimesText(Decimal(factor), ParenText(parts[0].expr)));
      assert parts[0] in parts;
      ScaleMeaning(parts[1..], factor, owner, env);
      ScaleText(parts[0].expr, factor, env);
      Distribute(factor, TextValue(parts[0].expr, env), PartsValue(parts[1..], env));
      FirstPart(scaled, ScaleParts(parts[1..], factor, owner), env);
    }
  }

  lemma FirstPart(part: SymbolicPart, rest: seq<SymbolicPart>, env: Valuation)
    requires IsSumText(part.expr, env) && PartsReadable(rest, env)
    ensures PartsReadable([part] + rest, env)
    ensures PartsValue([part] + rest, env) == TextValue(part.expr, env) + PartsValue(rest, env)
  {
    assert ([part] + rest)[1..] == rest;
  }

  lemma ScaleText(text: string, factor: nat, env: Valuation)
    requires IsSumText(text, env)
    ensures var scaled := TimesText(Decimal(factor), ParenText(text));
            IsSumText(scaled, env) && TextValue(scaled, env) == factor * TextValue(text, env)
  {
    NumeralText(factor, env);
    ParenthesisedText(text, env);
    TermTimes(Decimal(factor), ParenText(text), env);
  }

  lemma Distribute(factor: nat, a: int, b: int)
    ensures factor * (a + b) == factor * a + factor * b
  {
  }

  lemma MultiplyMeaning(e: Estimate, factor: nat, owner: string, env: Valuation)
    requires !MultiplyEstimate(e, factor, owner).Unknown? && WellPrinted(e, env)
    ensures !e.Unknown?
    ensures MultiplyEstimate(e, factor, owner).Exact? <==> e.Exact?
    ensures Meaning(MultiplyEstimate(e, factor, owner), env) == factor * Meaning(e, env)
    ensures WellPrinted(MultiplyEstimate(e, factor, owner), env)
  {
    if e.Formula? {
      ScaleMeaning(e.symbolic, factor, owner, env);
      Distribute(factor, e.fixed, PartsValue(e.symbolic, env));
    }
  }

  predicate AllSums(texts: seq<string>, env: Valuation) {
    forall t | t in texts :: IsSumText(t, env)
  }

  function TextsValue(texts: seq<string>, env: Valuation): int {
    if texts == [] then 0 else TextValue(texts[0], env) + TextsValue(texts[1..], env)
  }

  lemma {:induction false} JoinReads(texts: seq<string>, env: Valuation)
    requires texts != [] && AllSums(texts, env)
    ensures IsSumText(Join(texts, " + "), env)
    ensures TextValue(Join(texts, " + "), env) == TextsValue(texts, env)
  {
    if |texts| > 1 {
      assert AllSums(texts[1..], env);
      JoinReads(texts[1..], env);
      assert texts[0] in texts;
      SumText(texts[0], Join(texts[1..], " + "), env);
      assert Join(texts, " + ") == PlusText(texts[0], Join(texts[1..], " + "));
    } else {
      assert texts[0] in texts;
      assert texts[1..] == [];
    }
  }

  lemma {:induction false} PartTextsRead(parts: seq<SymbolicPart>, env: Valuation)
    requires PartsReadable(parts, env)
    ensures AllSums(PartTexts(parts), env) && TextsValue(PartTexts(parts), env) == PartsValue(parts, env)
  {
    if parts != [] {
      PartTextsRead(parts[1..], env);
      assert parts[0] in parts;
      assert PartTexts(parts)[1..] == PartTexts(parts[1..]);
    }
  }

  /** The printed formula, read with ordinary precedence, has the value of the estimate. */
  lemma FormulaReads(fixed: nat, parts: seq<SymbolicPart>, env: Valuation)
    requires PartsReadable(parts, env)
    ensures IsSumText(FormulaExpr(fixed, parts), env)
    ensures TextValue(FormulaExpr(fixed, parts), env) == fixed + PartsValue(parts, env)
  {
    PartTextsRead(parts, env);
    NumeralText(fixed, env);
    TermIsSumText(Decimal(fixed), env);
    var texts := (if fixed > 0 || parts == [] then [Decimal(fixed)] else []) + PartTexts(parts);
    if fixed > 0 || parts == [] {
      assert texts[1..] == PartTexts(parts);
    } else {
      assert texts == PartTexts(parts);
    }
    JoinReads(texts, env);
  }

  lemma OnePart(owner: string, text: string, env: Valuation)
    requires IsSumText(text, env)
    ensures WellPrinted(Formula(0, [SymbolicPart(owner, text)]), env)
    ensures Meaning(Formula(0, [SymbolicPart(owner, text)]), env) == TextValue(text, env)
  {
    var part := SymbolicPart(owner, text);
    assert PartsValue([part], env) == TextValue(part.expr, env) + PartsValue([], env);
  }

  /**
   A length text is printed before `*` without parentheses. The whole is well-formed, all but the
   text's last term stay outside the product, and so it means the product exactly when those terms
   are zero or the factor is one.
   */
  lemma SymbolicProductMeaning(owner: string, length: string, item: Estimate, env: Valuation)
    requires !item.Unknown? && WellPrinted(item, env) && IsSumText(length, env)
    ensures WellPrinted(SymbolicProduct(owner, length, item), env)
    ensures TextValue(length, env) == HeadAndLast(Lex(length), env).0 + HeadAndLast(Lex(length), env).1
    ensures Meaning(SymbolicProduct(owner, length, item), env)
         == HeadAndLast(Lex(length), env).0 + HeadAndLast(Lex(length), env).1 * Meaning(item, env)
    ensures Meaning(SymbolicProduct(owner, length, item), env) == TextValue(length, env) * Meaning(item, env)
       <==> Multiplies(length, Meaning(item, env), env)
  {
    if item.Exact? {
      NumeralText(item.bytes, env);
      ProductPart(owner, length, Decimal(item.bytes), item.bytes, env);
    } else {
      var inner := FormulaExpr(item.fixed, item.symbolic);
      FormulaReads(item.fixed, item.symbolic, env);
      ParenthesisedText(inner, env);
      ProductPart(owner, length, ParenText(inner), Meaning(item, env), env);
    }
  }

  lemma ProductPart(owner: string, length: string, factor: string, size: int, env: Valuation)
    requires IsSumText(length, env) && IsFactor(Lex(factor), env) && ReadFactor(Lex(factor), env).value == size
    ensures var printed := Formula(0, [SymbolicPart(owner, TimesText(length, factor))]);
            var (head, last) := HeadAndLast(Lex(length), env);
            && WellPrinted(printed, env) && TextValue(length, env) == head + last
            && Meaning(printed, env) == head + last * size
            && (Meaning(printed, env) == TextValue(length, env) * size <==> head == 0 || size == 1)
  {
    UnparenthesisedProduct(length, factor, env);
    OnePart(owner, TimesText(length, factor), env);
    TimesLex(length, factor);
    MultiplySum(Lex(length), Lex(factor), env);
  }

  /** `value` items that each mean `size`, as the estimator writes them. */
  predicate Means(e: Estimate, length: Length, value: nat, item: Estimate, extra: nat, env: Valuation) {
    && !e.Unknown? && !item.Unknown? && WellPrinted(e, env)
    && (e.Exact? <==> length.Number? && item.Exact?)
    && match length
       case Number(n) => n == value && Meaning(e, env) == extra + n * Meaning(item, env)
       case Symbol(text) =>
         IsCountText(text, env) ==>
           && value == HeadAndLast(Lex(text), env).0 + HeadAndLast(Lex(text), env).1
           && Meaning(e, env)
              == extra + HeadAndLast(Lex(text), env).0 + HeadAndLast(Lex(text), env).1 * Meaning(item, env)
           && (Meaning(e, env) == extra + value * Meaning(item, env) <==> Multiplies(text, Meaning(item, env), env))
  }

  lemma ArrayMeaning(owner: string, length: ArrayLength, elem: Estimate, env: Valuation)
    requires !ArrayEstimate(owner, length, elem).Unknown?
    requires WellPrinted(elem, env) && LengthHolds(LengthOf(length), elem, env, Texts)
    ensures Means(ArrayEstimate(owner, length, elem), LengthOf(length), ArrayValue(length, env), elem, 0, env)
  {
    if LengthOf(length).Number? {
      MultiplyMeaning(elem, length.literal.value, owner, env);
    } else {
      SymbolicProductMeaning(owner, length.text, elem, env);
    }
  }

  lemma VecMeaning(owner: string, args: seq<string>, item: Estimate, env: Valuation)
    requires !VecEstimate(owner, FirstArg(args), item).Unknown?
    requires WellPrinted(item, env) && LengthHolds(SlotOf(args), item, env, Texts)
    ensures Means(VecEstimate(owner, FirstArg(args), item), SlotOf(args), SlotValue(args, env), item,
                  BORSH_LENGTH_PREFIX_BYTES, env)
  {
    MissingIsAName();
    var payload := match SlotOf(args)
      case Number(n) => MultiplyEstimate(item, n, owner)
      case Symbol(text) => SymbolicProduct(owner, text, item);
    assert VecEstimate(owner, FirstArg(args), item) == AddEstimates(Exact(BORSH_LENGTH_PREFIX_BYTES), payload);
    AddMeaning(Exact(BORSH_LENGTH_PREFIX_BYTES), payload, env);
    if SlotOf(args).Number? {
      MultiplyMeaning(item, SlotOf(args).n, owner, env);
    } else {
      SymbolicProductMeaning(owner, SlotText(args), item, env);
    }
  }

  lemma StringMeaning(owner: string, args: seq<string>, env: Valuation)
    requires SlotOf(args).Number? ==> BORSH_LENGTH_PREFIX_BYTES + SlotOf(args).n <= MAX_U64
    requires SlotOf(args).Symbol? ==> IsCountText(SlotText(args), env)
    ensures Meaning(StringEstimate(owner, args), env) == BORSH_LENGTH_PREFIX_BYTES + SlotValue(args, env)
  {
    MissingIsAName();
    var part := SymbolicPart(owner, SlotText(args));
    assert PartsValue([part], env) == TextValue(part.expr, env) + PartsValue([], env);
  }

  lemma MissingIsAName()
    ensures ParseU64("max_len") == None
  {
    assert "max_len"[0] == 'm' && "max_len"[6] == 'n';
    assert TrimParens("max_len") == "max_len";
  }

  // ---- folds

  /** One step of a known fold: what its first site and running total amount to. */
  lemma PayloadStep(w: World, sites: seq<Site>, seen: Seen, total: Estimate, env: Valuation)
    requires sites != [] && !PayloadFold(w, sites, seen, total).Unknown?
    ensures var first := SiteSpace(w, sites[0], seen);
            var sum := AddEstimates(total, first);
            && !total.Unknown? && !first.Unknown? && !sum.Unknown?
            && sum == TryAddEstimates(total, first)
            && (sum.Exact? <==> total.Exact? && first.Exact?)
            && Meaning(sum, env) == Meaning(total, env) + Meaning(first, env)
            && (WellPrinted(total, env) && WellPrinted(first, env) ==> WellPrinted(sum, env))
            && PayloadFold(w, sites, seen, total) == PayloadFold(w, sites[1..], seen, sum)
  {
    AddMeaning(total, SiteSpace(w, sites[0], seen), env);
  }

  /** A known enum estimate is the tag and the largest payload, saturated. */
  lemma {:induction false} EnumValue(w: World, variants: seq<seq<Site>>, seen: Seen, largest: nat)
    requires !EnumFold(w, variants, seen, largest).Unknown?
    ensures EnumFold(w, variants, seen, largest)
         == Exact(SaturatingAdd(ENUM_TAG_BYTES, Max(largest, LargestPayload(w, variants, seen))))
    decreases |variants|
  {
    if variants != [] {
      EnumValue(w, variants[1..], seen, Max(largest, PayloadFold(w, variants[0], seen, Exact(0)).bytes));
    }
  }

  // ---- every part of a known estimate is printed so that it reads back

  lemma {:induction false} SitePrinted(w: World, s: Site, seen: Seen, env: Valuation, checks: set<Check>)
    requires !SiteSpace(w, s, seen).Unknown?
    requires Texts in checks && Everywhere(w, s, seen, env, checks)
    ensures WellPrinted(SiteSpace(w, s, seen), env)
    decreases StructsLeft(w, seen), EnumsLeft(w, seen), TypeSize(s.ty)
  {
    assert Holds(w, s, seen, env, Texts);
    match s.ty
    case ArrayT(elem, length) =>
      var inner := s.(ty := elem);
      SitePrinted(w, inner, seen, env, ItemChecks(checks, ArrayValue(length, env)));
      ArrayMeaning(s.owner, length, SiteSpace(w, inner, seen), env);
    case TupleT(elems) => PayloadPrinted(w, TupleSites(elems, s.owner, s.args), seen, Exact(0), env, checks);
    case PathT(name, params) =>
      match KindOf(name) {
       case OptionPath =>
         var inner := s.(ty := params[0]);
         AddMeaning(Exact(OPTION_TAG_BYTES), SiteSpace(w, inner, seen), env);
         SitePrinted(w, inner, seen, env, checks);
       case VecPath =>
         var inner := s.(ty := params[0], args := Drop(s.args, 1));
         SitePrinted(w, inner, seen, env, ItemChecks(checks, SlotValue(s.args, env)));
         VecMeaning(s.owner, s.args, SiteSpace(w, inner, seen), env);
       case StringPath => MissingIsAName();
       case NamedPath =>
         if Resolve(w, name).StructDef? {
           KnownStruct(w, name, seen);
           PayloadPrinted(w, Resolve(w, name).strukt.fields, InStruct(seen, name), Exact(0), env, checks);
         } else {
           EnumValue(w, Resolve(w, name).variants, InEnum(seen, name), 0);
         }
       case Primitive(_) =>
      }
  }

  lemma {:induction false} PayloadPrinted(w: World, sites: seq<Site>, seen: Seen, total: Estimate,
                                          env: Valuation, checks: set<Check>)
    requires !PayloadFold(w, sites, seen, total).Unknown? && WellPrinted(total, env)
    requires Texts in checks && EverywhereIn(w, sites, seen, env, checks)
    ensures WellPrinted(PayloadFold(w, sites, seen, total), env)
    decreases StructsLeft(w, seen), EnumsLeft(w, seen), SitesSize(sites)
  {
    if sites != [] {
      PayloadStep(w, sites, seen, total, env);
      SitePrinted(w, sites[0], seen, env, checks);
      PayloadPrinted(w, sites[1..], seen, AddEstimates(total, SiteSpace(w, sites[0], seen)), env, checks);
    }
  }

  // ---- the estimate against the longest encoding

  /** What the length checks give for items that occur. */
  lemma ProductHolds(e: Estimate, length: Length, value: nat, item: Estimate, extra: nat, env: Valuation)
    requires Means(e, length, value, item, extra, env)
    requires LengthHolds(length, item, env, Texts) && LengthHolds(length, item, env, Products)
    ensures Meaning(e, env) == extra + value * Meaning(item, env)
  {
  }

  lemma ArrayProduct(w: World, s: Site, elem: Type, length: ArrayLength, seen: Seen, env: Valuation,
                     checks: set<Check>)
    requires s.ty == ArrayT(elem, length) && !SiteSpace(w, s, seen).Unknown?
    requires UPPER <= checks && Everywhere(w, s, seen, env, checks)
    ensures !SiteSpace(w, s.(ty := elem), seen).Unknown?
    ensures Meaning(SiteSpace(w, s, seen), env)
         == ArrayValue(length, env) * Meaning(SiteSpace(w, s.(ty := elem), seen), env)
  {
    var item := SiteSpace(w, s.(ty := elem), seen);
    assert Holds(w, s, seen, env, Texts) && Holds(w, s, seen, env, Products);
    SitePrinted(w, s.(ty := elem), seen, env, ItemChecks(checks, ArrayValue(length, env)));
    ArrayMeaning(s.owner, length, item, env);
    ProductHolds(SiteSpace(w, s, seen), LengthOf(length), ArrayValue(length, env), item, 0, env);
  }

  lemma VecProduct(w: World, s: Site, params: seq<Type>, seen: Seen, env: Valuation, checks: set<Check>)
    requires s.ty.PathT? && s.ty.params == params && KindOf(s.ty.name).VecPath?
    requires !SiteSpace(w, s, seen).Unknown? && UPPER <= checks && Everywhere(w, s, seen, env, checks)
    ensures params != [] && !SiteSpace(w, s.(ty := params[0], args := Drop(s.args, 1)), seen).Unknown?
    ensures Meaning(SiteSpace(w, s, seen), env)
         == BORSH_LENGTH_PREFIX_BYTES
            + SlotValue(s.args, env) * Meaning(SiteSpace(w, s.(ty := params[0], args := Drop(s.args, 1)), seen), env)
  {
    var inner := s.(ty := params[0], args := Drop(s.args, 1));
    var item := SiteSpace(w, inner, seen);
    assert Holds(w, s, seen, env, Texts) && Holds(w, s, seen, env, Products);
    SitePrinted(w, inner, seen, env, ItemChecks(checks, SlotValue(s.args, env)));
    VecMeaning(s.owner, s.args, item, env);
    var n := SlotValue(s.args, env);
    ProductHolds(SiteSpace(w, s, seen), SlotOf(s.args), n, item, BORSH_LENGTH_PREFIX_BYTES, env);
  }

  /**
   Where texts, products and bounds are in order an estimate is never too small; where every enum
   has a variant too, it is the longest encoding.
   */
  lemma {:induction false} Compare(w: World, s: Site, seen: Seen, env: Valuation, checks: set<Check>)
    requires !SiteSpace(w, s, seen).Unknown?
    requires UPPER <= checks && Everywhere(w, s, seen, env, checks)
    ensures Largest(w, s, seen, env).GetOr(0) <= Meaning(SiteSpace(w, s, seen), env)
    ensures Variants in checks ==> Largest(w, s, seen, env) == Some(Meaning(SiteSpace(w, s, seen), env))
    decreases StructsLeft(w, seen), EnumsLeft(w, seen), TypeSize(s.ty), 1
  {
    match s.ty
    case ArrayT(elem, length) => CompareArray(w, s, elem, length, seen, env, checks);
    case TupleT(elems) => CompareAll(w, TupleSites(elems, s.owner, s.args), seen, Exact(0), env, checks);
    case PathT(name, params) =>
      match KindOf(name) {
        case Primitive(_) =>
        case StringPath => CompareString(w, s, seen, env, checks);
        case OptionPath =>
          OptionEverywhere(w, s, seen, env, checks);
          CompareOption(w, s, s.(ty := params[0]), seen, env, checks);
        case VecPath => CompareVec(w, s, params, seen, env, checks);
        case NamedPath => CompareNamed(w, s, name, seen, env, checks);
      }
  }

  lemma CompareString(w: World, s: Site, seen: Seen, env: Valuation, checks: set<Check>)
    requires s.ty.PathT? && KindOf(s.ty.name).StringPath? && UPPER <= checks && Everywhere(w, s, seen, env, checks)
    ensures Largest(w, s, seen, env) == Some(Meaning(SiteSpace(w, s, seen), env))
  {
    assert Holds(w, s, seen, env, Texts) && Holds(w, s, seen, env, Bounds);
    StringMeaning(s.owner, s.args, env);
  }

  lemma {:induction false} CompareOption(w: World, s: Site, inner: Site, seen: Seen, env: Valuation,
                                         checks: set<Check>)
    requires s.ty.PathT? && KindOf(s.ty.name).OptionPath? && s.ty.params != [] && inner == s.(ty := s.ty.params[0])
    requires !SiteSpace(w, s, seen).Unknown? && UPPER <= checks && Everywhere(w, inner, seen, env, checks)
    ensures Largest(w, s, seen, env).GetOr(0) <= Meaning(SiteSpace(w, s, seen), env)
    ensures Variants in checks ==> Largest(w, s, seen, env) == Some(Meaning(SiteSpace(w, s, seen), env))
    decreases StructsLeft(w, seen), EnumsLeft(w, seen), TypeSize(s.ty), 0
  {
    OptionSizes(w, s, seen, env);
    OptionLongest(w, s, seen, env);
    Compare(w, inner, seen, env, checks);
    Tagged(Largest(w, inner, seen, env), Meaning(SiteSpace(w, inner, seen), env), Variants in checks);
  }

  lemma OptionEverywhere(w: World, s: Site, seen: Seen, env: Valuation, checks: set<Check>)
    requires s.ty.PathT? && KindOf(s.ty.name).OptionPath? && s.ty.params != []
    requires Everywhere(w, s, seen, env, checks)
    ensures Everywhere(w, s.(ty := s.ty.params[0]), seen, env, checks)
  {
  }

  /** An item whose estimate `size` is good enough makes an Option whose estimate is. */
  lemma Tagged(item: Option<nat>, size: int, same: bool)
    requires item.GetOr(0) <= size && (same ==> item == Some(size))
    ensures Some(OPTION_TAG_BYTES + item.GetOr(0)).GetOr(0) <= OPTION_TAG_BYTES + size
    ensures same ==> Some(OPTION_TAG_BYTES + item.GetOr(0)) == Some(OPTION_TAG_BYTES + size)
  {
  }

  /** The tag is added to the item's estimate, and to the longest item if there is one. */
  lemma OptionSizes(w: World, s: Site, seen: Seen, env: Valuation)
    requires s.ty.PathT? && KindOf(s.ty.name).OptionPath? && !SiteSpace(w, s, seen).Unknown?
    ensures s.ty.params != [] && !SiteSpace(w, s.(ty := s.ty.params[0]), seen).Unknown?
    ensures Meaning(SiteSpace(w, s, seen), env)
         == OPTION_TAG_BYTES + Meaning(SiteSpace(w, s.(ty := s.ty.params[0]), seen), env)
  {
    AddMeaning(Exact(OPTION_TAG_BYTES), SiteSpace(w, s.(ty := s.ty.params[0]), seen), env);
  }

  lemma OptionLongest(w: World, s: Site, seen: Seen, env: Valuation)
    requires s.ty.PathT? && KindOf(s.ty.name).OptionPath? && s.ty.params != []
    ensures Largest(w, s, seen, env)
         == Some(OPTION_TAG_BYTES + Largest(w, s.(ty := s.ty.params[0]), seen, env).GetOr(0))
  {
  }

  lemma {:induction false} CompareArray(w: World, s: Site, elem: Type, length: ArrayLength, seen: Seen,
                                        env: Valuation, checks: set<Check>)
    requires s.ty == ArrayT(elem, length) && !SiteSpace(w, s, seen).Unknown?
    requires UPPER <= checks && Everywhere(w, s, seen, env, checks)
    ensures Largest(w, s, seen, env).GetOr(0) <= Meaning(SiteSpace(w, s, seen), env)
    ensures Variants in checks ==> Largest(w, s, seen, env) == Some(Meaning(SiteSpace(w, s, seen), env))
    decreases StructsLeft(w, seen), EnumsLeft(w, seen), TypeSize(s.ty), 0
  {
    var inner, n := s.(ty := elem), ArrayValue(length, env);
    ArrayProduct(w, s, elem, length, seen, env, checks);
    if n > 0 { Compare(w, inner, seen, env, checks); }
    Items(n, Largest(w, inner, seen, env), Meaning(SiteSpace(w, inner, seen), env), Variants in checks);
  }

  lemma {:induction false} CompareVec(w: World, s: Site, params: seq<Type>, seen: Seen, env: Valuation,
                                      checks: set<Check>)
    requires s.ty.PathT? && s.ty.params == params && KindOf(s.ty.name).VecPath?
    requires !SiteSpace(w, s, seen).Unknown? && UPPER <= checks && Everywhere(w, s, seen, env, checks)
    ensures Largest(w, s, seen, env).GetOr(0) <= Meaning(SiteSpace(w, s, seen), env)
    ensures Variants in checks ==> Largest(w, s, seen, env) == Some(Meaning(SiteSpace(w, s, seen), env))
    decreases StructsLeft(w, seen), EnumsLeft(w, seen), TypeSize(s.ty), 0
  {
    VecProduct(w, s, params, seen, env, checks);
    VecItems(w, s, params, seen, env, checks);
    var inner, n := s.(ty := params[0], args := Drop(s.args, 1)), SlotValue(s.args, env);
    if n > 0 { Compare(w, inner, seen, env, checks); }
    Items(n, Largest(w, inner, seen, env), Meaning(SiteSpace(w, inner, seen), env), Variants in checks);
  }

  /** Items whose estimate `size` is good enough make sequences whose estimate is. */
  lemma Items(n: nat, item: Option<nat>, size: int, same: bool)
    requires n > 0 ==> item.GetOr(0) <= size && (same ==> item == Some(size))
    ensures Repeat(n, item).GetOr(0) <= n * size && (same ==> Repeat(n, item) == Some(n * size))
    ensures UpTo(n, item) <= BORSH_LENGTH_PREFIX_BYTES + n * size
    ensures same ==> UpTo(n, item) == BORSH_LENGTH_PREFIX_BYTES + n * size
  {
    if n > 0 {
      Monotone(item.GetOr(0), size, n);
      assert n * item.GetOr(0) == item.GetOr(0) * n && n * size == size * n;
    }
  }

  lemma VecItems(w: World, s: Site, params: seq<Type>, seen: Seen, env: Valuation, checks: set<Check>)
    requires s.ty.PathT? && s.ty.params == params && KindOf(s.ty.name).VecPath? && params != []
    requires Everywhere(w, s, seen, env, checks)
    ensures var inner := s.(ty := params[0], args := Drop(s.args, 1));
            && Everywhere(w, inner, seen, env, ItemChecks(checks, SlotValue(s.args, env)))
            && Largest(w, s, seen, env) == Some(UpTo(SlotValue(s.args, env), Largest(w, inner, seen, env)))
  {
  }

  lemma {:induction false} CompareNamed(w: World, s: Site, name: string, seen: Seen, env: Valuation,
                                        checks: set<Check>)
    requires s.ty.PathT? && s.ty.name == name && KindOf(name).NamedPath?
    requires !SiteSpace(w, s, seen).Unknown?
    requires UPPER <= checks && Everywhere(w, s, seen, env, checks)
    ensures Largest(w, s, seen, env).GetOr(0) <= Meaning(SiteSpace(w, s, seen), env)
    ensures Variants in checks ==> Largest(w, s, seen, env) == Some(Meaning(SiteSpace(w, s, seen), env))
    decreases StructsLeft(w, seen), EnumsLeft(w, seen), TypeSize(s.ty), 0
  {
    if Resolve(w, name).StructDef? {
      KnownStruct(w, name, seen);
      CompareAll(w, Resolve(w, name).strukt.fields, InStruct(seen, name), Exact(0), env, checks);
    } else {
      var variants := Resolve(w, name).variants;
      assert Holds(w, s, seen, env, Bounds);
      assert Variants in checks ==> Holds(w, s, seen, env, Variants);
      EnumValue(w, variants, InEnum(seen, name), 0);
      CompareVariants(w, variants, InEnum(seen, name), 0, env, checks);
    }
  }

  lemma {:induction false} CompareAll(w: World, sites: seq<Site>, seen: Seen, total: Estimate, env: Valuation,
                                      checks: set<Check>)
    requires !PayloadFold(w, sites, seen, total).Unknown? && !total.Unknown?
    requires UPPER <= checks && EverywhereIn(w, sites, seen, env, checks)
    ensures Meaning(total, env) + LargestAll(w, sites, seen, env).GetOr(0)
         <= Meaning(PayloadFold(w, sites, seen, total), env)
    ensures Variants in checks ==>
              var n := LargestAll(w, sites, seen, env);
              n.Some? && Meaning(total, env) + n.value == Meaning(PayloadFold(w, sites, seen, total), env)
    decreases StructsLeft(w, seen), EnumsLeft(w, seen), SitesSize(sites)
  {
    if sites != [] {
      PayloadStep(w, sites, seen, total, env);
      Compare(w, sites[0], seen, env, checks);
      CompareAll(w, sites[1..], seen, AddEstimates(total, SiteSpace(w, sites[0], seen)), env, checks);
    }
  }

  lemma {:induction false} CompareVariants(w: World, variants: seq<seq<Site>>, seen: Seen, largest: nat,
                                           env: Valuation, checks: set<Check>)
    requires !EnumFold(w, variants, seen, largest).Unknown?
    requires UPPER <= checks && EverywhereVariants(w, variants, seen, env, checks)
    ensures LargestVariant(w, variants, seen, env).GetOr(0) <= LargestPayload(w, variants, seen)
    ensures Variants in checks && variants != [] ==>
              LargestVariant(w, variants, seen, env) == Some(LargestPayload(w, variants, seen))
    decreases StructsLeft(w, seen), EnumsLeft(w, seen), VariantsSize(variants)
  {
    if variants != [] {
      var payload := PayloadFold(w, variants[0], seen, Exact(0));
      CompareAll(w, variants[0], seen, Exact(0), env, checks);
      CompareVariants(w, variants[1..], seen, Max(largest, payload.bytes), env, checks);
    }
  }

  /** No value encodes to more bytes than the estimate. */
  lemma UpperBound(w: World, s: Site, seen: Seen, env: Valuation, v: Value)
    requires !SiteSpace(w, s, seen).Unknown?
    requires Everywhere(w, s, seen, env, UPPER) && Inhabits(w, s, env, v)
    ensures |Encode(v)| <= Meaning(SiteSpace(w, s, seen), env)
  {
    Compare(w, s, seen, env, UPPER);
    NoLonger(w, s, seen, env, v);
  }

  /** Some value encodes to exactly that many bytes. */
  lemma Attained(w: World, s: Site, seen: Seen, env: Valuation) returns (v: Value)
    requires !SiteSpace(w, s, seen).Unknown? && Everywhere(w, s, seen, env, ALL)
    ensures Inhabits(w, s, env, v) && |Encode(v)| == Meaning(SiteSpace(w, s, seen), env)
  {
    Compare(w, s, seen, env, ALL);
    v := Reached(w, s, seen, env);
  }

  // ---- main results

  /** A known estimate, exact or formula, is the largest encoded length under every valuation. */
  lemma KnownIsLargest(w: World, s: Site, seen: Seen, env: Valuation)
    requires !SiteSpace(w, s, seen).Unknown? && Everywhere(w, s, seen, env, ALL)
    ensures IsLargest(w, s, env, Meaning(SiteSpace(w, s, seen), env))
  {
    Compare(w, s, seen, env, ALL);
    LargestIff(w, s, seen, env, Meaning(SiteSpace(w, s, seen), env));
  }

  /** What is printed for an estimate, read back with ordinary precedence, is the largest length. */
  lemma PrintedEstimateIsLargest(w: World, s: Site, seen: Seen, env: Valuation)
    requires !SiteSpace(w, s, seen).Unknown? && Everywhere(w, s, seen, env, ALL)
    ensures IsSumText(EstimateExpr(SiteSpace(w, s, seen)).value, env)
    ensures IsLargest(w, s, env, TextValue(EstimateExpr(SiteSpace(w, s, seen)).value, env))
  {
    var e := SiteSpace(w, s, seen);
    KnownIsLargest(w, s, seen, env);
    if e.Exact? {
      NumeralText(e.bytes, env);
      TermIsSumText(Decimal(e.bytes), env);
    } else {
      SitePrinted(w, s, seen, env, ALL);
      FormulaReads(e.fixed, e.symbolic, env);
    }
  }
}
