/**
 An exact answer needs no assumption about texts: every length it met was a number. Below
 u64::MAX nothing that counts has saturated either, so only enums without variants are left.
 */
module ExactEstimates {
  import opened LengthText
  import opened AccountSpace
  import opened Borsh
  import opened KnownEstimates
  import opened LargestLength
  import opened LargestEncoding

  // ---- the checks as a set

  lemma {:induction false} Fewer(w: World, s: Site, seen: Seen, env: Valuation, more: set<Check>,
                                 less: set<Check>)
    requires less <= more && Everywhere(w, s, seen, env, more)
    ensures Everywhere(w, s, seen, env, less)
    decreases StructsLeft(w, seen), EnumsLeft(w, seen), TypeSize(s.ty)
  {
    match s.ty
    case ArrayT(elem, length) =>
      var n := ArrayValue(length, env);
      Fewer(w, s.(ty := elem), seen, env, ItemChecks(more, n), ItemChecks(less, n));
    case TupleT(elems) => FewerIn(w, TupleSites(elems, s.owner, s.args), seen, env, more, less);
    case PathT(name, params) =>
      match KindOf(name) {
        case OptionPath => if params != [] { Fewer(w, s.(ty := params[0]), seen, env, more, less); }
        case VecPath =>
          var n := SlotValue(s.args, env);
          if params != [] {
            var inner := s.(ty := params[0], args := Drop(s.args, 1));
            Fewer(w, inner, seen, env, ItemChecks(more, n), ItemChecks(less, n));
          }
        case NamedPath => FewerNamed(w, name, seen, env, more, less);
        case _ =>
      }
    case OtherT =>
  }

  lemma {:induction false} FewerNamed(w: World, name: string, seen: Seen, env: Valuation, more: set<Check>,
                                      less: set<Check>)
    requires less <= more && EverywhereNamed(w, name, seen, env, more)
    ensures EverywhereNamed(w, name, seen, env, less)
    decreases StructsLeft(w, seen), EnumsLeft(w, seen), 0
  {
    if name !in seen.structs {
      match Resolve(w, name)
      case StructDef(strukt) => FewerIn(w, strukt.fields, InStruct(seen, name), env, more, less);
      case EnumDef(variants) =>
        if name !in seen.enums { FewerVariants(w, variants, InEnum(seen, name), env, more, less); }
      case NoDef =>
    }
  }

  lemma {:induction false} FewerIn(w: World, sites: seq<Site>, seen: Seen, env: Valuation, more: set<Check>,
                                   less: set<Check>)
    requires less <= more && EverywhereIn(w, sites, seen, env, more)
    ensures EverywhereIn(w, sites, seen, env, less)
    decreases StructsLeft(w, seen), EnumsLeft(w, seen), SitesSize(sites)
  {
    if sites != [] {
      Fewer(w, sites[0], seen, env, more, less);
      FewerIn(w, sites[1..], seen, env, more, less);
    }
  }

  lemma {:induction false} FewerVariants(w: World, variants: seq<seq<Site>>, seen: Seen, env: Valuation,
                                         more: set<Check>, less: set<Check>)
    requires less <= more && EverywhereVariants(w, variants, seen, env, more)
    ensures EverywhereVariants(w, variants, seen, env, less)
    decreases StructsLeft(w, seen), EnumsLeft(w, seen), VariantsSize(variants) + 1
  {
    if variants != [] {
      FewerIn(w, variants[0], seen, env, more, less);
      FewerVariants(w, variants[1..], seen, env, more, less);
    }
  }

  /** What an exact estimate adds to a set of checks for free. */
  const FREE: set<Check> := {Texts, Products}

  lemma FreeItems(checks: set<Check>, n: nat)
    ensures ItemChecks(checks + FREE, n) <= ItemChecks(checks, n) + FREE
  {
  }

  // ---- exact estimates meet numbers only

  lemma ExactArray(owner: string, length: ArrayLength, elem: Estimate, env: Valuation)
    requires ArrayEstimate(owner, length, elem).Exact?
    ensures elem.Exact? && LengthOf(length).Number?
    ensures ArrayEstimate(owner, length, elem).bytes == ArrayValue(length, env) * elem.bytes
  {
  }

  lemma ExactVec(owner: string, args: seq<string>, item: Estimate, env: Valuation)
    requires VecEstimate(owner, FirstArg(args), item).Exact?
    ensures item.Exact? && SlotOf(args).Number?
    ensures VecEstimate(owner, FirstArg(args), item).bytes
         == BORSH_LENGTH_PREFIX_BYTES + SlotValue(args, env) * item.bytes
  {
    MissingIsAName();
    var payload := match SlotOf(args)
      case Number(n) => MultiplyEstimate(item, n, owner)
      case Symbol(text) => SymbolicProduct(owner, text, item);
    assert VecEstimate(owner, FirstArg(args), item) == AddEstimates(Exact(BORSH_LENGTH_PREFIX_BYTES), payload);
    ExactScaled(item, SlotOf(args), owner, payload);
  }

  lemma ExactScaled(item: Estimate, length: Length, owner: string, payload: Estimate)
    requires payload.Exact?
    requires payload == match length
                        case Number(n) => MultiplyEstimate(item, n, owner)
                        case Symbol(text) => SymbolicProduct(owner, text, item)
    ensures item.Exact? && length.Number? && payload.bytes == length.n * item.bytes
  {
  }

  lemma ExactHolds(w: World, s: Site, seen: Seen, env: Valuation)
    requires SiteSpace(w, s, seen).Exact?
    ensures Holds(w, s, seen, env, Texts) && Holds(w, s, seen, env, Products)
  {
    MissingIsAName();
    if s.ty.ArrayT? {
      ExactArray(s.owner, s.ty.length, SiteSpace(w, s.(ty := s.ty.elem), seen), env);
    } else if s.ty.PathT? && KindOf(s.ty.name).VecPath? && s.ty.params != [] {
      var inner := s.(ty := s.ty.params[0], args := Drop(s.args, 1));
      ExactVec(s.owner, s.args, SiteSpace(w, inner, seen), env);
    }
  }

  lemma {:induction false} ExactHasNumbers(w: World, s: Site, seen: Seen, env: Valuation, checks: set<Check>)
    requires SiteSpace(w, s, seen).Exact?
    requires Everywhere(w, s, seen, env, checks)
    ensures Everywhere(w, s, seen, env, checks + FREE)
    decreases StructsLeft(w, seen), EnumsLeft(w, seen), TypeSize(s.ty)
  {
    ExactHolds(w, s, seen, env);
    match s.ty
    case ArrayT(elem, length) =>
      ExactArray(s.owner, length, SiteSpace(w, s.(ty := elem), seen), env);
      ExactItem(w, s, s.(ty := elem), seen, env, checks, ArrayValue(length, env));
    case TupleT(elems) => ExactPayload(w, TupleSites(elems, s.owner, s.args), seen, Exact(0), env, checks);
    case PathT(name, params) =>
      match KindOf(name) {
        case OptionPath => ExactHasNumbers(w, s.(ty := params[0]), seen, env, checks);
        case VecPath =>
          var inner := s.(ty := params[0], args := Drop(s.args, 1));
          ExactVec(s.owner, s.args, SiteSpace(w, inner, seen), env);
          ExactItem(w, s, inner, seen, env, checks, SlotValue(s.args, env));
        case NamedPath => ExactNamed(w, s, name, seen, env, checks);
        case _ =>
      }
  }

  lemma {:induction false} ExactItem(w: World, s: Site, inner: Site, seen: Seen, env: Valuation,
                                     checks: set<Check>, n: nat)
    requires SiteSpace(w, inner, seen).Exact?
    requires Everywhere(w, inner, seen, env, ItemChecks(checks, n))
    requires TypeSize(inner.ty) < TypeSize(s.ty)
    ensures Everywhere(w, inner, seen, env, ItemChecks(checks + FREE, n))
    decreases StructsLeft(w, seen), EnumsLeft(w, seen), TypeSize(s.ty), 0
  {
    ExactHasNumbers(w, inner, seen, env, ItemChecks(checks, n));
    FreeItems(checks, n);
    Fewer(w, inner, seen, env, ItemChecks(checks, n) + FREE, ItemChecks(checks + FREE, n));
  }

  lemma {:induction false} ExactNamed(w: World, s: Site, name: string, seen: Seen, env: Valuation,
                                      checks: set<Check>)
    requires s.ty.PathT? && s.ty.name == name && KindOf(name).NamedPath?
    requires NamedSpace(w, name, seen).Exact? && EverywhereNamed(w, name, seen, env, checks)
    ensures EverywhereNamed(w, name, seen, env, checks + FREE)
    decreases StructsLeft(w, seen), EnumsLeft(w, seen), TypeSize(s.ty), 0
  {
    if Resolve(w, name).StructDef? {
      KnownStruct(w, name, seen);
      ExactPayload(w, Resolve(w, name).strukt.fields, InStruct(seen, name), Exact(0), env, checks);
    } else {
      ExactVariants(w, Resolve(w, name).variants, InEnum(seen, name), 0, env, checks);
    }
  }

  lemma {:induction false} ExactPayload(w: World, sites: seq<Site>, seen: Seen, total: Estimate,
                                        env: Valuation, checks: set<Check>)
    requires PayloadFold(w, sites, seen, total).Exact?
    requires EverywhereIn(w, sites, seen, env, checks)
    ensures total.Exact? && EverywhereIn(w, sites, seen, env, checks + FREE)
    decreases StructsLeft(w, seen), EnumsLeft(w, seen), SitesSize(sites)
  {
    if sites != [] {
      PayloadStep(w, sites, seen, total, env);
      ExactPayload(w, sites[1..], seen, AddEstimates(total, SiteSpace(w, sites[0], seen)), env, checks);
      ExactHasNumbers(w, sites[0], seen, env, checks);
    }
  }

  lemma {:induction false} ExactVariants(w: World, variants: seq<seq<Site>>, seen: Seen, largest: nat,
                                         env: Valuation, checks: set<Check>)
    requires EnumFold(w, variants, seen, largest).Exact?
    requires EverywhereVariants(w, variants, seen, env, checks)
    ensures EverywhereVariants(w, variants, seen, env, checks + FREE)
    decreases StructsLeft(w, seen), EnumsLeft(w, seen), VariantsSize(variants)
  {
    if variants != [] {
      ExactPayload(w, variants[0], seen, Exact(0), env, checks);
      var next := Max(largest, PayloadFold(w, variants[0], seen, Exact(0)).bytes);
      ExactVariants(w, variants[1..], seen, next, env, checks);
    }
  }

  // ---- below u64::MAX nothing that counts has saturated

  lemma SmallHolds(w: World, s: Site, seen: Seen, env: Valuation)
    requires SiteSpace(w, s, seen).Exact? && SiteSpace(w, s, seen).bytes < MAX_U64
    ensures Holds(w, s, seen, env, Bounds)
  {
    MissingIsAName();
    if s.ty.PathT? && KindOf(s.ty.name).NamedPath? && Resolve(w, s.ty.name).EnumDef? {
      EnumValue(w, Resolve(w, s.ty.name).variants, InEnum(seen, s.ty.name), 0);
    }
  }

  lemma {:induction false} SmallIsBounded(w: World, s: Site, seen: Seen, env: Valuation, checks: set<Check>)
    requires SiteSpace(w, s, seen).Exact? && SiteSpace(w, s, seen).bytes < MAX_U64
    requires Everywhere(w, s, seen, env, checks)
    ensures Everywhere(w, s, seen, env, checks + {Bounds})
    decreases StructsLeft(w, seen), EnumsLeft(w, seen), TypeSize(s.ty)
  {
    SmallHolds(w, s, seen, env);
    match s.ty
    case ArrayT(elem, length) =>
      ExactArray(s.owner, length, SiteSpace(w, s.(ty := elem), seen), env);
      SmallItem(w, s, s.(ty := elem), seen, env, checks, ArrayValue(length, env), 0);
    case TupleT(elems) => SmallPayload(w, TupleSites(elems, s.owner, s.args), seen, Exact(0), env, checks);
    case PathT(name, params) =>
      match KindOf(name) {
        case OptionPath => SmallIsBounded(w, s.(ty := params[0]), seen, env, checks);
        case VecPath =>
          var inner := s.(ty := params[0], args := Drop(s.args, 1));
          ExactVec(s.owner, s.args, SiteSpace(w, inner, seen), env);
          SmallItem(w, s, inner, seen, env, checks, SlotValue(s.args, env), BORSH_LENGTH_PREFIX_BYTES);
        case NamedPath => SmallNamed(w, s, name, seen, env, checks);
        case _ =>
      }
  }

  lemma {:induction false} SmallItem(w: World, s: Site, inner: Site, seen: Seen, env: Valuation,
                                     checks: set<Check>, n: nat, extra: nat)
    requires SiteSpace(w, inner, seen).Exact?
    requires extra + n * SiteSpace(w, inner, seen).bytes < MAX_U64
    requires Everywhere(w, inner, seen, env, ItemChecks(checks, n))
    requires TypeSize(inner.ty) < TypeSize(s.ty)
    ensures Everywhere(w, inner, seen, env, ItemChecks(checks + {Bounds}, n))
    decreases StructsLeft(w, seen), EnumsLeft(w, seen), TypeSize(s.ty), 0
  {
    if n == 0 {
      assert (checks + {Bounds}) * {Texts} == checks * {Texts};
    } else {
      Monotone(1, n, SiteSpace(w, inner, seen).bytes);
      SmallIsBounded(w, inner, seen, env, checks);
    }
  }

  lemma {:induction false} SmallNamed(w: World, s: Site, name: string, seen: Seen, env: Valuation,
                                      checks: set<Check>)
    requires s.ty.PathT? && s.ty.name == name && KindOf(name).NamedPath?
    requires SiteSpace(w, s, seen).Exact? && SiteSpace(w, s, seen).bytes < MAX_U64
    requires EverywhereNamed(w, name, seen, env, checks)
    ensures EverywhereNamed(w, name, seen, env, checks + {Bounds})
    decreases StructsLeft(w, seen), EnumsLeft(w, seen), TypeSize(s.ty), 0
  {
    if Resolve(w, name).StructDef? {
      KnownStruct(w, name, seen);
      SmallPayload(w, Resolve(w, name).strukt.fields, InStruct(seen, name), Exact(0), env, checks);
    } else {
      var variants := Resolve(w, name).variants;
      EnumValue(w, variants, InEnum(seen, name), 0);
      SmallVariants(w, variants, InEnum(seen, name), 0, env, checks);
    }
  }

  lemma {:induction false} SmallPayload(w: World, sites: seq<Site>, seen: Seen, total: Estimate,
                                        env: Valuation, checks: set<Check>)
    requires PayloadFold(w, sites, seen, total).Exact?
    requires PayloadFold(w, sites, seen, total).bytes < MAX_U64 && EverywhereIn(w, sites, seen, env, checks)
    ensures total.Exact? && total.bytes <= PayloadFold(w, sites, seen, total).bytes
    ensures EverywhereIn(w, sites, seen, env, checks + {Bounds})
    decreases StructsLeft(w, seen), EnumsLeft(w, seen), SitesSize(sites)
  {
    if sites != [] {
      PayloadStep(w, sites, seen, total, env);
      SmallPayload(w, sites[1..], seen, AddEstimates(total, SiteSpace(w, sites[0], seen)), env, checks);
      SmallIsBounded(w, sites[0], seen, env, checks);
    }
  }

  lemma {:induction false} SmallVariants(w: World, variants: seq<seq<Site>>, seen: Seen, largest: nat,
                                         env: Valuation, checks: set<Check>)
    requires EnumFold(w, variants, seen, largest).Exact?
    requires LargestPayload(w, variants, seen) < MAX_U64 && EverywhereVariants(w, variants, seen, env, checks)
    ensures EverywhereVariants(w, variants, seen, env, checks + {Bounds})
    decreases StructsLeft(w, seen), EnumsLeft(w, seen), VariantsSize(variants)
  {
    if variants != [] {
      SmallPayload(w, variants[0], seen, Exact(0), env, checks);
      var next := Max(largest, PayloadFold(w, variants[0], seen, Exact(0)).bytes);
      SmallVariants(w, variants[1..], seen, next, env, checks);
    }
  }

  /**
   An exact answer is the largest encoded length where every enum it reaches has a variant and
   nothing saturates; below u64::MAX nothing does.
   */
  lemma ExactIsLargest(w: World, s: Site, seen: Seen, env: Valuation)
    requires SiteSpace(w, s, seen).Exact?
    requires Everywhere(w, s, seen, env,
                        if SiteSpace(w, s, seen).bytes < MAX_U64 then {Variants} else {Bounds, Variants})
    ensures IsLargest(w, s, env, SiteSpace(w, s, seen).bytes)
  {
    if SiteSpace(w, s, seen).bytes < MAX_U64 {
      SmallIsBounded(w, s, seen, env, {Variants});
      assert {Variants} + {Bounds} == {Bounds, Variants};
    }
    ExactHasNumbers(w, s, seen, env, {Bounds, Variants});
    assert {Bounds, Variants} + FREE == ALL;
    KnownIsLargest(w, s, seen, env);
  }
}
