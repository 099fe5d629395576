/**
 What an answer says about the program: a known estimate rules out recursive and zero-copy
 structs and does not depend on how the site was reached, and recursion is reported only where
 a chain of references comes back.
 */
module KnownEstimates {
  import opened Text
  import opened AccountSpace

  // ---- references between declarations

  /** The declared names that sizing a type looks up. */
  function Mentions(ty: Type): set<string> {
    match ty
    case ArrayT(elem, _) => Mentions(elem)
    case TupleT(elems) => set e, n | e in elems && n in Mentions(e) :: n
    case PathT(name, params) =>
      (match KindOf(name)
       case OptionPath => if params == [] then {} else Mentions(params[0])
       case VecPath => if params == [] then {} else Mentions(params[0])
       case NamedPath => {name}
       case _ => {})
    case OtherT => {}
  }

  predicate IsFieldOf(w: World, name: string, field: Site) {
    match Resolve(w, name)
    case StructDef(strukt) => field in strukt.fields
    case EnumDef(variants) => exists variant | variant in variants :: field in variant
    case NoDef => false
  }

  /** A chain of declarations, each mentioned by a field of the one before it. */
  ghost predicate IsChain(w: World, path: seq<string>) {
    path != [] && forall i | 0 < i < |path| :: Refers(w, path[i - 1], path[i])
  }

  /** A chain that starts at a name the type mentions. */
  ghost predicate RefPath(w: World, ty: Type, path: seq<string>) {
    IsChain(w, path) && path[0] in Mentions(ty)
  }

  ghost predicate Refers(w: World, from: string, to: string) {
    exists field :: IsFieldOf(w, from, field) && to in Mentions(field.ty)
  }

  lemma ChainRest(w: World, path: seq<string>)
    requires IsChain(w, path) && |path| > 1
    ensures IsChain(w, path[1..])
  {
    forall i | 0 < i < |path[1..]| ensures Refers(w, path[1..][i - 1], path[1..][i]) {
      assert Refers(w, path[i], path[i + 1]);
    }
  }

  lemma {:induction false} KnownFold(w: World, sites: seq<Site>, seen: Seen, total: Estimate, site: Site)
    requires !PayloadFold(w, sites, seen, total).Unknown? && site in sites
    ensures !SiteSpace(w, site, seen).Unknown?
    decreases |sites|
  {
    if site != sites[0] {
      KnownFold(w, sites[1..], seen, TryAddEstimates(total, SiteSpace(w, sites[0], seen)), site);
    }
  }

  lemma {:induction false} KnownFields(w: World, fields: seq<Site>, seen: Seen, total: Estimate, field: Site)
    requires !FieldsFold(w, fields, seen, total).Unknown? && field in fields
    ensures !SiteSpace(w, field, seen).Unknown?
    decreases |fields|
  {
    if field != fields[0] {
      KnownFields(w, fields[1..], seen, AddEstimates(total, SiteSpace(w, fields[0], seen)), field);
    }
  }

  /** A known fold over struct fields is the fold that stops at the first failure. */
  lemma {:induction false} FieldsAsPayload(w: World, fields: seq<Site>, seen: Seen, total: Estimate)
    requires !FieldsFold(w, fields, seen, total).Unknown?
    ensures !total.Unknown? && PayloadFold(w, fields, seen, total) == FieldsFold(w, fields, seen, total)
    decreases SitesSize(fields)
  {
    if fields != [] {
      FieldsAsPayload(w, fields[1..], seen, AddEstimates(total, SiteSpace(w, fields[0], seen)));
    }
  }

  lemma KnownStruct(w: World, name: string, seen: Seen)
    requires Resolve(w, name).StructDef? && !NamedSpace(w, name, seen).Unknown?
    ensures name !in seen.structs && !Resolve(w, name).strukt.zeroCopy
    ensures NamedSpace(w, name, seen)
         == FieldsFold(w, Resolve(w, name).strukt.fields, InStruct(seen, name), Exact(0))
         == PayloadFold(w, Resolve(w, name).strukt.fields, InStruct(seen, name), Exact(0))
  {
    var strukt := Resolve(w, name).strukt;
    assert NamedSpace(w, name, seen) == StructSpace(w, name, strukt, seen);
    FieldsAsPayload(w, strukt.fields, InStruct(seen, name), Exact(0));
  }

  lemma {:induction false} KnownVariants(w: World, variants: seq<seq<Site>>, seen: Seen, largest: nat,
                                         variant: seq<Site>)
    requires !EnumFold(w, variants, seen, largest).Unknown? && variant in variants
    ensures PayloadFold(w, variant, seen, Exact(0)).Exact?
    decreases |variants|
  {
    if variant != variants[0] {
      KnownVariants(w, variants[1..], seen,
                    Max(largest, PayloadFold(w, variants[0], seen, Exact(0)).bytes), variant);
    }
  }

  lemma {:induction false} KnownMention(w: World, s: Site, seen: Seen, name: string)
    requires !SiteSpace(w, s, seen).Unknown? && name in Mentions(s.ty)
    ensures !NamedSpace(w, name, seen).Unknown?
    decreases TypeSize(s.ty)
  {
    match s.ty
    case ArrayT(elem, _) => KnownMention(w, s.(ty := elem), seen, name);
    case TupleT(elems) =>
      var i :| 0 <= i < |elems| && name in Mentions(elems[i]);
      var sites := TupleSites(elems, s.owner, s.args);
      TupleSiteAt(elems, s.owner, s.args, i);
      KnownFold(w, sites, seen, Exact(0), sites[i]);
      SizeAt(elems, i);
      KnownMention(w, sites[i], seen, name);
    case PathT(_, params) =>
      match KindOf(s.ty.name) {
        case OptionPath => KnownMention(w, s.(ty := params[0]), seen, name);
        case VecPath => KnownMention(w, s.(ty := params[0], args := Drop(s.args, 1)), seen, name);
        case _ =>
      }
  }

  lemma KnownField(w: World, name: string, seen: Seen, field: Site)
    requires !NamedSpace(w, name, seen).Unknown? && IsFieldOf(w, name, field)
    ensures !SiteSpace(w, field, Inside(w, name, seen)).Unknown?
  {
    if Resolve(w, name).StructDef? {
      var strukt := Resolve(w, name).strukt;
      assert NamedSpace(w, name, seen) == StructSpace(w, name, strukt, seen);
      KnownFields(w, strukt.fields, InStruct(seen, name), Exact(0), field);
    } else {
      var variants := Resolve(w, name).variants;
      var variant :| variant in variants && field in variant;
      KnownVariants(w, variants, InEnum(seen, name), 0, variant);
      KnownFold(w, variant, InEnum(seen, name), Exact(0), field);
    }
  }

  /**
   A known estimate means that everything reachable is declared, that no reachable struct is
   zero-copy or already being sized, and that no struct comes up twice on one chain.
   */
  lemma {:induction false} KnownMeansWellFounded(w: World, s: Site, seen: Seen, path: seq<string>)
    requires !SiteSpace(w, s, seen).Unknown? && RefPath(w, s.ty, path)
    ensures forall i | 0 <= i < |path| :: path[i] !in seen.structs && !Resolve(w, path[i]).NoDef?
    ensures forall i | 0 <= i < |path| && Resolve(w, path[i]).StructDef? :: !Resolve(w, path[i]).strukt.zeroCopy
    ensures forall i, j | 0 <= i < j < |path| && Resolve(w, path[i]).StructDef? :: path[i] != path[j]
    decreases |path|
  {
    var name := path[0];
    KnownMention(w, s, seen, name);
    if |path| > 1 {
      assert Refers(w, path[0], path[1]);
      var field :| IsFieldOf(w, name, field) && path[1] in Mentions(field.ty);
      KnownField(w, name, seen, field);
      var rest := path[1..];
      ChainRest(w, path);
      KnownMeansWellFounded(w, field, Inside(w, name, seen), rest);
      assert forall i | 0 < i < |path| :: path[i] == rest[i - 1];
    }
  }

  // ---- a known estimate does not depend on what was being sized around it

  predicate Within(small: Seen, big: Seen) {
    small.structs <= big.structs && small.enums <= big.enums
  }

  lemma {:induction false} SmallerVisited(w: World, s: Site, small: Seen, big: Seen)
    requires Within(small, big) && !SiteSpace(w, s, big).Unknown?
    ensures SiteSpace(w, s, small) == SiteSpace(w, s, big)
    decreases StructsLeft(w, big), EnumsLeft(w, big), TypeSize(s.ty)
  {
    match s.ty
    case ArrayT(elem, _) => SmallerVisited(w, s.(ty := elem), small, big);
    case TupleT(elems) => SmallerPayload(w, TupleSites(elems, s.owner, s.args), small, big, Exact(0));
    case PathT(name, params) =>
      match KindOf(name) {
        case OptionPath => SmallerVisited(w, s.(ty := params[0]), small, big);
        case VecPath => SmallerVisited(w, s.(ty := params[0], args := Drop(s.args, 1)), small, big);
        case NamedPath => SmallerNamed(w, name, small, big);
        case _ =>
      }
  }

  lemma {:induction false} SmallerPayload(w: World, sites: seq<Site>, small: Seen, big: Seen,
                                          total: Estimate)
    requires Within(small, big) && !PayloadFold(w, sites, big, total).Unknown?
    ensures PayloadFold(w, sites, small, total) == PayloadFold(w, sites, big, total)
    decreases StructsLeft(w, big), EnumsLeft(w, big), SitesSize(sites)
  {
    if sites != [] {
      KnownFold(w, sites, big, total, sites[0]);
      SmallerVisited(w, sites[0], small, big);
      SmallerPayload(w, sites[1..], small, big, TryAddEstimates(total, SiteSpace(w, sites[0], big)));
    }
  }

  lemma {:induction false} SmallerFields(w: World, fields: seq<Site>, small: Seen, big: Seen,
                                         total: Estimate)
    requires Within(small, big) && !FieldsFold(w, fields, big, total).Unknown?
    ensures FieldsFold(w, fields, small, total) == FieldsFold(w, fields, big, total)
    decreases StructsLeft(w, big), EnumsLeft(w, big), SitesSize(fields)
  {
    if fields != [] {
      SmallerVisited(w, fields[0], small, big);
      SmallerFields(w, fields[1..], small, big, AddEstimates(total, SiteSpace(w, fields[0], big)));
    }
  }

  lemma {:induction false} SmallerVariants(w: World, variants: seq<seq<Site>>, small: Seen,
                                           big: Seen, largest: nat)
    requires Within(small, big) && !EnumFold(w, variants, big, largest).Unknown?
    ensures EnumFold(w, variants, small, largest) == EnumFold(w, variants, big, largest)
    decreases StructsLeft(w, big), EnumsLeft(w, big), VariantsSize(variants)
  {
    if variants != [] {
      SmallerPayload(w, variants[0], small, big, Exact(0));
      SmallerVariants(w, variants[1..], small, big, Max(largest, PayloadFold(w, variants[0], big, Exact(0)).bytes));
    }
  }

  lemma {:induction false} SmallerNamed(w: World, name: string, small: Seen, big: Seen)
    requires Within(small, big) && !NamedSpace(w, name, big).Unknown?
    ensures NamedSpace(w, name, small) == NamedSpace(w, name, big)
    decreases StructsLeft(w, big), EnumsLeft(w, big), 0
  {
    match Resolve(w, name)
    case StructDef(strukt) =>
      assert NamedSpace(w, name, big) == StructSpace(w, name, strukt, big);
      assert NamedSpace(w, name, small) == StructSpace(w, name, strukt, small);
      SmallerFields(w, strukt.fields, InStruct(small, name), InStruct(big, name), Exact(0));
    case EnumDef(variants) => SmallerVariants(w, variants, InEnum(small, name), InEnum(big, name), 0);
    case NoDef =>
  }

  // ---- a reason that is reported has a chain of references to show for it

  /** The reasons that belong to a declaration. */
  predicate IsBlaming(reason: Reason) {
    reason.RecursiveType? || reason.ZeroCopy? || reason.UnresolvableType?
  }

  /**
   The chain ends at a struct that is already being sized, one on the chain or one in `seen`; at a
   zero-copy struct; or at a name without declaration.
   */
  predicate Explains(w: World, path: seq<string>, seen: Seen, reason: Reason) {
    path != [] &&
    var last := path[|path| - 1];
    match reason
    case RecursiveType => last in seen.structs || last in path[..|path| - 1]
    case ZeroCopy => Resolve(w, last).StructDef? && Resolve(w, last).strukt.zeroCopy
    case UnresolvableType => Resolve(w, last).NoDef?
    case _ => false
  }

  lemma {:induction false} ReasonHasChain(w: World, s: Site, seen: Seen, reason: Reason) returns (path: seq<string>)
    requires SiteSpace(w, s, seen) == Unknown(reason) && IsBlaming(reason)
    ensures RefPath(w, s.ty, path) && Explains(w, path, seen, reason)
    decreases StructsLeft(w, seen), EnumsLeft(w, seen), TypeSize(s.ty)
  {
    match s.ty
    case ArrayT(elem, _) => path := ReasonHasChain(w, s.(ty := elem), seen, reason);
    case TupleT(elems) =>
      PayloadHidesReason(w, TupleSites(elems, s.owner, s.args), seen, Exact(0));
      path := [];
    case PathT(name, params) =>
      match KindOf(name) {
        case OptionPath => path := ReasonHasChain(w, s.(ty := params[0]), seen, reason);
        case VecPath => path := ReasonHasChain(w, s.(ty := params[0], args := Drop(s.args, 1)), seen, reason);
        case NamedPath => path := NamedHasChain(w, name, seen, reason);
        case _ => path := [];
      }
    case OtherT => path := [];
  }

  /** In a tuple or an enum payload the reason is lost. */
  lemma {:induction false} PayloadHidesReason(w: World, sites: seq<Site>, seen: Seen, total: Estimate)
    requires !total.Unknown?
    ensures var e := PayloadFold(w, sites, seen, total); e.Unknown? ==> !IsBlaming(e.reason)
    decreases |sites|
  {
    if sites != [] {
      var sum := TryAddEstimates(total, SiteSpace(w, sites[0], seen));
      if SiteSpace(w, sites[0], seen) != ENDLESS && !sum.Unknown? {
        PayloadHidesReason(w, sites[1..], seen, sum);
      }
    }
  }

  lemma {:induction false} EnumHidesReason(w: World, variants: seq<seq<Site>>, seen: Seen, largest: nat)
    ensures var e := EnumFold(w, variants, seen, largest); e.Unknown? ==> !IsBlaming(e.reason)
    decreases |variants|
  {
    if variants != [] && PayloadFold(w, variants[0], seen, Exact(0)).Exact? {
      EnumHidesReason(w, variants[1..], seen, Max(largest, PayloadFold(w, variants[0], seen, Exact(0)).bytes));
    }
  }

  lemma {:induction false} NamedHasChain(w: World, name: string, seen: Seen, reason: Reason)
    returns (path: seq<string>)
    requires NamedSpace(w, name, seen) == Unknown(reason) && IsBlaming(reason)
    ensures path != [] && path[0] == name && Explains(w, path, seen, reason)
    ensures forall i | 0 < i < |path| :: Refers(w, path[i - 1], path[i])
    decreases StructsLeft(w, seen), EnumsLeft(w, seen), 0
  {
    path := [name];
    if name !in seen.structs {
      match Resolve(w, name)
      case StructDef(strukt) =>
        if !strukt.zeroCopy {
          assert NamedSpace(w, name, seen) == StructSpace(w, name, strukt, seen);
          var field := FieldsBlame(w, strukt.fields, InStruct(seen, name), Exact(0), reason);
          var rest := ReasonHasChain(w, field, InStruct(seen, name), reason);
          path := [name] + rest;
          assert Refers(w, name, rest[0]) by {
            assert IsFieldOf(w, name, field) && rest[0] in Mentions(field.ty);
          }
          assert forall i | 0 < i < |path| :: path[i] == rest[i - 1];
          assert path[..|path| - 1] == [name] + rest[..|rest| - 1];
        }
      case EnumDef(variants) => EnumHidesReason(w, variants, InEnum(seen, name), 0);
      case NoDef =>
    }
  }

  /** The field for whose reason a struct is unknown, where that is not a sum. */
  lemma {:induction false} FieldsBlame(w: World, fields: seq<Site>, seen: Seen, total: Estimate, reason: Reason)
    returns (field: Site)
    requires FieldsFold(w, fields, seen, total) == Unknown(reason)
    requires total != Unknown(reason) && reason != Overflow
    ensures field in fields && SiteSpace(w, field, seen) == Unknown(reason)
    ensures TypeSize(field.ty) < SitesSize(fields)
    decreases |fields|
  {
    field := fields[0];
    if SiteSpace(w, field, seen) != Unknown(reason) {
      field := FieldsBlame(w, fields[1..], seen, AddEstimates(total, SiteSpace(w, field, seen)), reason);
    }
  }

  // ---- the parts of a formula name fields

  /** The field belongs to the site itself or to a declaration that sizing it reaches. */
  ghost predicate IsOwner(w: World, s: Site, owner: string) {
    || owner == s.owner
    || exists path, field :: RefPath(w, s.ty, path) && IsFieldOf(w, path[|path| - 1], field) && field.owner == owner
  }

  /** Every symbolic part of an estimate is listed under such a field. */
  ghost predicate PartsOwned(w: World, s: Site, e: Estimate) {
    e.Formula? ==> forall part | part in e.symbolic :: IsOwner(w, s, part.field)
  }

  lemma {:induction false} ScaledOwners(parts: seq<SymbolicPart>, factor: nat, owner: string)
    ensures forall part | part in ScaleParts(parts, factor, owner) :: part.field == owner
  {
    if parts != [] {
      ScaledOwners(parts[1..], factor, owner);
    }
  }

  /** What is reached through a part of the type is reached through the whole. */
  lemma OwnersOfPart(w: World, s: Site, inner: Site, e: Estimate)
    requires inner.owner == s.owner && Mentions(inner.ty) <= Mentions(s.ty) && PartsOwned(w, inner, e)
    ensures PartsOwned(w, s, e)
  {
    if e.Formula? {
      forall part | part in e.symbolic ensures IsOwner(w, s, part.field) {
        if part.field != s.owner {
          var path, field :| RefPath(w, inner.ty, path) && IsFieldOf(w, path[|path| - 1], field)
                          && field.owner == part.field;
          assert RefPath(w, s.ty, path);
        }
      }
    }
  }

  lemma {:induction false} PartsNameFields(w: World, s: Site, seen: Seen)
    requires !SiteSpace(w, s, seen).Unknown?
    ensures PartsOwned(w, s, SiteSpace(w, s, seen))
    decreases StructsLeft(w, seen), EnumsLeft(w, seen), TypeSize(s.ty)
  {
    match s.ty
    case ArrayT(elem, length) =>
      var item := SiteSpace(w, s.(ty := elem), seen);
      if item.Formula? && length.literal.Some? {
        ScaledOwners(item.symbolic, length.literal.value, s.owner);
      }
    case TupleT(elems) =>
      var sites := TupleSites(elems, s.owner, s.args);
      forall site | site in sites ensures PartsOwned(w, s, SiteSpace(w, site, seen)) {
        var i :| 0 <= i < |sites| && sites[i] == site;
        TupleSiteAt(elems, s.owner, s.args, i);
        SizeAt(elems, i);
        KnownFold(w, sites, seen, Exact(0), site);
        PartsNameFields(w, site, seen);
        OwnersOfPart(w, s, site, SiteSpace(w, site, seen));
      }
      FoldOwned(w, s, sites, seen, Exact(0));
    case PathT(name, params) =>
      match KindOf(name) {
        case OptionPath =>
          PartsNameFields(w, s.(ty := params[0]), seen);
          OwnersOfPart(w, s, s.(ty := params[0]), SiteSpace(w, s.(ty := params[0]), seen));
        case VecPath => VecOwned(w, s, params, seen);
        case NamedPath => NamedOwned(w, s, name, seen);
        case _ =>
      }
  }

  /** An array's or Vec's parts are all listed under the field that it belongs to. */
  predicate AllUnder(e: Estimate, owner: string) {
    e.Formula? ==> forall part | part in e.symbolic :: part.field == owner
  }

  lemma ProductUnder(owner: string, length: Option<string>, item: Estimate)
    ensures AllUnder(VecEstimate(owner, length, item), owner)
  {
    if item.Formula? && length.Some? && ParseU64(length.value).Some? {
      ScaledOwners(item.symbolic, ParseU64(length.value).value, owner);
    }
  }

  lemma VecOwned(w: World, s: Site, params: seq<Type>, seen: Seen)
    requires s.ty.PathT? && s.ty.params == params && KindOf(s.ty.name).VecPath? && !SiteSpace(w, s, seen).Unknown?
    ensures PartsOwned(w, s, SiteSpace(w, s, seen))
  {
    ProductUnder(s.owner, FirstArg(s.args), SiteSpace(w, s.(ty := params[0], args := Drop(s.args, 1)), seen));
  }

  /** A fold lists its parts under the fields of its sites. */
  lemma {:induction false} FoldOwned(w: World, s: Site, sites: seq<Site>, seen: Seen, total: Estimate)
    requires !PayloadFold(w, sites, seen, total).Unknown? && PartsOwned(w, s, total)
    requires forall site | site in sites :: PartsOwned(w, s, SiteSpace(w, site, seen))
    ensures PartsOwned(w, s, PayloadFold(w, sites, seen, total))
    decreases |sites|
  {
    if sites != [] {
      assert sites[0] in sites;
      SumOwned(w, s, total, SiteSpace(w, sites[0], seen));
      FoldOwned(w, s, sites[1..], seen, TryAddEstimates(total, SiteSpace(w, sites[0], seen)));
    }
  }

  lemma SumOwned(w: World, s: Site, a: Estimate, b: Estimate)
    requires PartsOwned(w, s, a) && PartsOwned(w, s, b)
    ensures PartsOwned(w, s, TryAddEstimates(a, b))
  {
  }

  lemma {:induction false} NamedOwned(w: World, s: Site, name: string, seen: Seen)
    requires s.ty.PathT? && s.ty.name == name && KindOf(name).NamedPath? && !NamedSpace(w, name, seen).Unknown?
    ensures PartsOwned(w, s, NamedSpace(w, name, seen))
    decreases StructsLeft(w, seen), EnumsLeft(w, seen), 0
  {
    if Resolve(w, name).StructDef? {
      var fields := Resolve(w, name).strukt.fields;
      KnownStruct(w, name, seen);
      forall field | field in fields ensures PartsOwned(w, s, SiteSpace(w, field, InStruct(seen, name))) {
        KnownField(w, name, seen, field);
        PartsNameFields(w, field, InStruct(seen, name));
        FieldOwned(w, s, name, field, SiteSpace(w, field, InStruct(seen, name)));
      }
      FoldOwned(w, s, fields, InStruct(seen, name), Exact(0));
    } else {
      EnumIsExact(w, Resolve(w, name).variants, InEnum(seen, name), 0);
    }
  }

  lemma {:induction false} EnumIsExact(w: World, variants: seq<seq<Site>>, seen: Seen, largest: nat)
    requires !EnumFold(w, variants, seen, largest).Unknown?
    ensures EnumFold(w, variants, seen, largest).Exact?
    decreases |variants|
  {
    if variants != [] {
      EnumIsExact(w, variants[1..], seen, Max(largest, PayloadFold(w, variants[0], seen, Exact(0)).bytes));
    }
  }

  /** What a field of the named declaration owns is reached one step further from the name. */
  lemma FieldOwned(w: World, s: Site, name: string, field: Site, e: Estimate)
    requires s.ty.PathT? && s.ty.name == name && KindOf(name).NamedPath? && IsFieldOf(w, name, field)
    requires PartsOwned(w, field, e)
    ensures PartsOwned(w, s, e)
  {
    assert RefPath(w, s.ty, [name]);
    if e.Formula? {
      forall part | part in e.symbolic ensures IsOwner(w, s, part.field) {
        if part.field != field.owner {
          var rest, other :| RefPath(w, field.ty, rest) && IsFieldOf(w, rest[|rest| - 1], other)
                          && other.owner == part.field;
          var path := [name] + rest;
          assert Refers(w, name, rest[0]);
          assert forall i | 0 < i < |path| :: path[i] == rest[i - 1];
          assert RefPath(w, s.ty, path) && path[|path| - 1] == rest[|rest| - 1];
        } else {
          assert [name][|[name]| - 1] == name;
        }
      }
    }
  }
}
