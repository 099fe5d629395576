/**
 The converse: a program that can be shown declaration by declaration to be acyclic,
 supported and within 64 bits gets a known estimate.
 */
module SizeCertificate {
  import opened Text
  import opened AccountSpace
  import opened KnownEstimates

  /**
   Evidence about a set of declarations: a rank that falls along every reference, a cap on each
   declaration's fixed bytes, and the structs whose size does not depend on any name.
   */
  datatype Certificate = Certificate(scope: set<string>, rank: map<string, nat>, cap: map<string, nat>,
                                     literal: set<string>)

  predicate Complete(c: Certificate) {
    c.scope <= c.rank.Keys && c.scope <= c.cap.Keys
  }

  /** Nothing in the type is outside what the estimator can size. */
  predicate Supported(w: World, c: Certificate, ty: Type) {
    match ty
    case ArrayT(elem, _) => Supported(w, c, elem)
    case TupleT(elems) => forall e | e in elems :: Supported(w, c, e)
    case PathT(name, params) =>
      (match KindOf(name)
       case OptionPath => params != [] && Supported(w, c, params[0])
       case VecPath => params != [] && Supported(w, c, params[0])
       case NamedPath => name in c.scope
       case _ => true)
    case OtherT => false
  }

  function SlotNumber(args: seq<string>): Option<nat> {
    match FirstArg(args)
    case Some(text) => ParseU64(text)
    case None => None
  }

  function NumberOf(length: ArrayLength): Option<nat> {
    if length.literal.Some? && length.literal.value <= MAX_U64 then length.literal else None
  }

  /** The fixed bytes of a site, in unbounded arithmetic, given those of the declarations. */
  ghost function Fixed(c: Certificate, s: Site): nat
    requires Complete(c)
    decreases TypeSize(s.ty)
  {
    match s.ty
    case ArrayT(elem, length) => Times(NumberOf(length), Fixed(c, s.(ty := elem)))
    case TupleT(elems) => FixedAll(c, TupleSites(elems, s.owner, s.args))
    case PathT(name, params) =>
      (match KindOf(name)
       case Primitive(bytes) => bytes
       case StringPath => SaturatingAdd(BORSH_LENGTH_PREFIX_BYTES, SlotNumber(s.args).GetOr(0))
       case OptionPath => if params == [] then 0 else OPTION_TAG_BYTES + Fixed(c, s.(ty := params[0]))
       case VecPath =>
         if params == [] then 0
         else
           BORSH_LENGTH_PREFIX_BYTES + Times(SlotNumber(s.args), Fixed(c, s.(ty := params[0], args := Drop(s.args, 1))))
       case NamedPath => if name in c.scope then c.cap[name] else 0)
    case OtherT => 0
  }

  ghost function FixedAll(c: Certificate, sites: seq<Site>): nat
    requires Complete(c)
    decreases SitesSize(sites)
  {
    if sites == [] then 0 else Fixed(c, sites[0]) + FixedAll(c, sites[1..])
  }

  /** Items of a symbolic length have no fixed bytes. */
  function Times(n: Option<nat>, size: nat): nat {
    if n.Some? then n.value * size else 0
  }

  /** Every sum and product that sizing the site computes fits 64 bits. */
  ghost predicate Fits(c: Certificate, s: Site)
    requires Complete(c)
    decreases TypeSize(s.ty), 1
  {
    Fixed(c, s) <= MAX_U64 &&
    match s.ty
    case ArrayT(elem, _) => Fits(c, s.(ty := elem))
    case TupleT(elems) => AllFit(c, TupleSites(elems, s.owner, s.args))
    case PathT(name, params) =>
      (match KindOf(name)
       case OptionPath => params != [] ==> Fits(c, s.(ty := params[0]))
       case VecPath => params != [] ==> Fits(c, s.(ty := params[0], args := Drop(s.args, 1)))
       case _ => true)
    case OtherT => true
  }

  ghost predicate AllFit(c: Certificate, sites: seq<Site>)
    requires Complete(c)
    decreases SitesSize(sites), 0
  {
    sites == [] || (Fits(c, sites[0]) && AllFit(c, sites[1..]))
  }

  /** Every length in the site is a number. */
  ghost predicate Literal(w: World, c: Certificate, s: Site)
    decreases TypeSize(s.ty)
  {
    match s.ty
    case ArrayT(elem, length) =>
      length.literal.Some? && length.literal.value <= MAX_U64 && Literal(w, c, s.(ty := elem))
    case TupleT(elems) => AllLiteral(w, c, TupleSites(elems, s.owner, s.args))
    case PathT(name, params) =>
      (match KindOf(name)
       case StringPath => SlotNumber(s.args).Some?
       case OptionPath => params != [] ==> Literal(w, c, s.(ty := params[0]))
       case VecPath =>
         params != [] ==> SlotNumber(s.args).Some? && Literal(w, c, s.(ty := params[0], args := Drop(s.args, 1)))
       case NamedPath => Resolve(w, name).StructDef? ==> name in c.literal
       case _ => true)
    case OtherT => true
  }

  ghost predicate AllLiteral(w: World, c: Certificate, sites: seq<Site>)
    decreases SitesSize(sites)
  {
    sites == [] || (Literal(w, c, sites[0]) && AllLiteral(w, c, sites[1..]))
  }

  predicate FieldsOk(w: World, c: Certificate, name: string, fields: seq<Site>)
    requires Complete(c) && name in c.scope
  {
    forall f | f in fields ::
      Supported(w, c, f.ty) && forall m | m in Mentions(f.ty) && m in c.scope :: c.rank[m] < c.rank[name]
  }

  /** A variant's payload is literal and fits, and with the tag it stays within the enum's cap. */
  ghost predicate PayloadFits(w: World, c: Certificate, fields: seq<Site>, cap: nat)
    requires Complete(c)
  {
    && AllFit(c, fields) && AllLiteral(w, c, fields) && FixedAll(c, fields) <= MAX_U64
    && SaturatingAdd(ENUM_TAG_BYTES, FixedAll(c, fields)) <= cap
  }

  /** The certificate checks out for one declaration. */
  ghost predicate Checked(w: World, c: Certificate, name: string)
    requires Complete(c) && name in c.scope
  {
    match Resolve(w, name)
    case StructDef(strukt) =>
      && !strukt.zeroCopy
      && FieldsOk(w, c, name, strukt.fields)
      && AllFit(c, strukt.fields) && FixedAll(c, strukt.fields) <= c.cap[name] <= MAX_U64
      && (name in c.literal ==> AllLiteral(w, c, strukt.fields))
    case EnumDef(variants) =>
      && ENUM_TAG_BYTES <= c.cap[name] <= MAX_U64
      && forall v | v in variants :: FieldsOk(w, c, name, v) && PayloadFits(w, c, v, c.cap[name])
    case NoDef => false
  }

  ghost predicate Certified(w: World, c: Certificate) {
    Complete(c) && forall name | name in c.scope :: Checked(w, c, name)
  }

  /** The declarations that are being sized. */
  function Active(seen: Seen): set<string> {
    seen.structs + seen.enums
  }

  /** Nothing being sized is at or below what `ty` mentions. */
  predicate Above(c: Certificate, seen: Seen, ty: Type)
    requires Complete(c)
  {
    forall v, m | v in Active(seen) && v in c.scope && m in Mentions(ty) && m in c.scope :: c.rank[m] < c.rank[v]
  }

  // ---- what is certified is known

  lemma TimesMonotone(n: Option<nat>, a: nat, b: nat)
    requires a <= b
    ensures Times(n, a) <= Times(n, b)
  {
    if n.Some? {
      assert n.value * a <= n.value * b;
    }
  }

  /** An array's estimate, its item's being known. */
  lemma ArrayFixed(owner: string, length: ArrayLength, elem: Estimate)
    requires !elem.Unknown? && Times(NumberOf(length), FixedBytes(elem)) <= MAX_U64
    ensures !ArrayEstimate(owner, length, elem).Unknown?
    ensures FixedBytes(ArrayEstimate(owner, length, elem)) == Times(NumberOf(length), FixedBytes(elem))
    ensures ArrayEstimate(owner, length, elem).Exact? <==> NumberOf(length).Some? && elem.Exact?
  {
  }

  lemma VecFixed(owner: string, args: seq<string>, item: Estimate)
    requires !item.Unknown? && BORSH_LENGTH_PREFIX_BYTES + Times(SlotNumber(args), FixedBytes(item)) <= MAX_U64
    ensures !VecEstimate(owner, FirstArg(args), item).Unknown?
    ensures FixedBytes(VecEstimate(owner, FirstArg(args), item))
         == BORSH_LENGTH_PREFIX_BYTES + Times(SlotNumber(args), FixedBytes(item))
    ensures VecEstimate(owner, FirstArg(args), item).Exact? <==> SlotNumber(args).Some? && item.Exact?
  {
  }

  /** A certified site gets a known estimate within its fixed bytes, exact when its lengths are literal. */
  lemma {:induction false} CertifiedIsKnown(w: World, c: Certificate, s: Site, seen: Seen)
    requires Certified(w, c)
    requires Supported(w, c, s.ty) && Above(c, seen, s.ty) && Fits(c, s)
    ensures !SiteSpace(w, s, seen).Unknown? && FixedBytes(SiteSpace(w, s, seen)) <= Fixed(c, s)
    ensures Literal(w, c, s) ==> SiteSpace(w, s, seen).Exact?
    decreases StructsLeft(w, seen), EnumsLeft(w, seen), TypeSize(s.ty)
  {
    match s.ty
    case ArrayT(elem, length) =>
      var inner := s.(ty := elem);
      CertifiedIsKnown(w, c, inner, seen);
      TimesMonotone(NumberOf(length), FixedBytes(SiteSpace(w, inner, seen)), Fixed(c, inner));
      ArrayFixed(s.owner, length, SiteSpace(w, inner, seen));
    case TupleT(elems) =>
      var sites := TupleSites(elems, s.owner, s.args);
      forall site | site in sites ensures Supported(w, c, site.ty) && Above(c, seen, site.ty) {
        var i :| 0 <= i < |sites| && sites[i] == site;
        TupleSiteAt(elems, s.owner, s.args, i);
      }
      CertifiedPayload(w, c, sites, seen, Exact(0));
    case PathT(name, params) =>
      match KindOf(name) {
        case OptionPath => CertifiedIsKnown(w, c, s.(ty := params[0]), seen);
        case VecPath =>
          var inner := s.(ty := params[0], args := Drop(s.args, 1));
          CertifiedIsKnown(w, c, inner, seen);
          TimesMonotone(SlotNumber(s.args), FixedBytes(SiteSpace(w, inner, seen)), Fixed(c, inner));
          VecFixed(s.owner, s.args, SiteSpace(w, inner, seen));
        case NamedPath => CertifiedNamed(w, c, name, seen);
        case _ =>
      }
  }

  lemma {:induction false} CertifiedNamed(w: World, c: Certificate, name: string, seen: Seen)
    requires Certified(w, c) && name in c.scope
    requires forall v | v in Active(seen) && v in c.scope :: c.rank[name] < c.rank[v]
    ensures !NamedSpace(w, name, seen).Unknown? && FixedBytes(NamedSpace(w, name, seen)) <= c.cap[name]
    ensures Resolve(w, name).EnumDef? || name in c.literal ==> NamedSpace(w, name, seen).Exact?
    decreases StructsLeft(w, seen), EnumsLeft(w, seen), 0
  {
    assert Checked(w, c, name);
    match Resolve(w, name)
    case StructDef(strukt) =>
      assert NamedSpace(w, name, seen) == StructSpace(w, name, strukt, seen);
      CertifiedFields(w, c, strukt.fields, InStruct(seen, name), Exact(0));
    case EnumDef(variants) => CertifiedEnum(w, c, name, variants, InEnum(seen, name), 0);
  }

  /** What the recursive step needs of a list of sites. */
  ghost predicate SitesOk(w: World, c: Certificate, sites: seq<Site>, seen: Seen)
    requires Complete(c)
  {
    forall site | site in sites :: Supported(w, c, site.ty) && Above(c, seen, site.ty)
  }

  lemma {:induction false} CertifiedPayload(w: World, c: Certificate, sites: seq<Site>, seen: Seen,
                                            total: Estimate)
    requires Certified(w, c) && SitesOk(w, c, sites, seen) && AllFit(c, sites)
    requires !total.Unknown? && FixedBytes(total) + FixedAll(c, sites) <= MAX_U64
    ensures !PayloadFold(w, sites, seen, total).Unknown?
    ensures FixedBytes(PayloadFold(w, sites, seen, total)) <= FixedBytes(total) + FixedAll(c, sites)
    ensures AllLiteral(w, c, sites) && total.Exact? ==> PayloadFold(w, sites, seen, total).Exact?
    decreases StructsLeft(w, seen), EnumsLeft(w, seen), SitesSize(sites)
  {
    if sites != [] {
      CertifiedIsKnown(w, c, sites[0], seen);
      CertifiedPayload(w, c, sites[1..], seen, AddEstimates(total, SiteSpace(w, sites[0], seen)));
    }
  }

  lemma {:induction false} CertifiedFields(w: World, c: Certificate, fields: seq<Site>, seen: Seen,
                                           total: Estimate)
    requires Certified(w, c) && SitesOk(w, c, fields, seen) && AllFit(c, fields)
    requires !total.Unknown? && FixedBytes(total) + FixedAll(c, fields) <= MAX_U64
    ensures !FieldsFold(w, fields, seen, total).Unknown?
    ensures FixedBytes(FieldsFold(w, fields, seen, total)) <= FixedBytes(total) + FixedAll(c, fields)
    ensures AllLiteral(w, c, fields) && total.Exact? ==> FieldsFold(w, fields, seen, total).Exact?
    decreases StructsLeft(w, seen), EnumsLeft(w, seen), SitesSize(fields)
  {
    if fields != [] {
      CertifiedIsKnown(w, c, fields[0], seen);
      CertifiedFields(w, c, fields[1..], seen, AddEstimates(total, SiteSpace(w, fields[0], seen)));
    }
  }

  lemma {:induction false} CertifiedEnum(w: World, c: Certificate, name: string, variants: seq<seq<Site>>,
                                         seen: Seen, largest: nat)
    requires Certified(w, c) && name in c.scope && c.cap[name] <= MAX_U64
    requires forall v | v in Active(seen) && v in c.scope :: c.rank[name] <= c.rank[v]
    requires SaturatingAdd(ENUM_TAG_BYTES, largest) <= c.cap[name]
    requires forall v | v in variants :: FieldsOk(w, c, name, v) && PayloadFits(w, c, v, c.cap[name])
    ensures EnumFold(w, variants, seen, largest).Exact?
    ensures EnumFold(w, variants, seen, largest).bytes <= c.cap[name]
    decreases StructsLeft(w, seen), EnumsLeft(w, seen), VariantsSize(variants)
  {
    if variants != [] {
      assert variants[0] in variants;
      CertifiedPayload(w, c, variants[0], seen, Exact(0));
      var first := PayloadFold(w, variants[0], seen, Exact(0)).bytes;
      CertifiedEnum(w, c, name, variants[1..], seen, Max(largest, first));
    }
  }
}
