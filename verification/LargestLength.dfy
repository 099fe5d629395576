/**
 The reference that estimates are compared with: the longest encoding of a type's values, by
 recursion on the type and its declarations, or `None` for a type without values. Every site the
 estimator knows has exactly this maximum.
 */
module LargestLength {
  import opened Text
  import opened ByteOrder
  import opened LengthText
  import opened AccountSpace
  import opened Borsh
  import opened KnownEstimates

  function Longer(a: Option<nat>, b: Option<nat>): Option<nat> {
    match (a, b)
    case (Some(m), Some(n)) => Some(Max(m, n))
    case (Some(m), None) => Some(m)
    case (None, _) => b
  }

  function Both(a: Option<nat>, b: Option<nat>): Option<nat> {
    if a.Some? && b.Some? then Some(a.value + b.value) else None
  }

  /** `n` items in a row. */
  function Repeat(n: nat, item: Option<nat>): Option<nat> {
    if n == 0 then Some(0) else if item.Some? then Some(n * item.value) else None
  }

  /** Up to `n` items after a length prefix. */
  function UpTo(n: nat, item: Option<nat>): nat {
    BORSH_LENGTH_PREFIX_BYTES + n * item.GetOr(0)
  }

  ghost function Largest(w: World, s: Site, seen: Seen, env: Valuation): Option<nat>
    decreases StructsLeft(w, seen), EnumsLeft(w, seen), TypeSize(s.ty)
  {
    match s.ty
    case ArrayT(elem, length) =>
      Repeat(ArrayValue(length, env), Largest(w, s.(ty := elem), seen, env))
    case TupleT(elems) => LargestAll(w, TupleSites(elems, s.owner, s.args), seen, env)
    case PathT(name, params) =>
      (match KindOf(name)
       case Primitive(bytes) => Some(bytes)
       case StringPath => Some(BORSH_LENGTH_PREFIX_BYTES + SlotValue(s.args, env))
       case OptionPath =>
         if params == [] then None
         else Some(OPTION_TAG_BYTES + Largest(w, s.(ty := params[0]), seen, env).GetOr(0))
       case VecPath =>
         if params == [] then None
         else Some(UpTo(SlotValue(s.args, env), Largest(w, s.(ty := params[0], args := Drop(s.args, 1)), seen, env)))
       case NamedPath => LargestNamed(w, name, seen, env))
    case OtherT => None
  }

  ghost function LargestAll(w: World, sites: seq<Site>, seen: Seen, env: Valuation): Option<nat>
    decreases StructsLeft(w, seen), EnumsLeft(w, seen), SitesSize(sites)
  {
    if sites == [] then Some(0)
    else Both(Largest(w, sites[0], seen, env), LargestAll(w, sites[1..], seen, env))
  }

  ghost function LargestNamed(w: World, name: string, seen: Seen, env: Valuation): Option<nat>
    decreases StructsLeft(w, seen), EnumsLeft(w, seen), 0
  {
    if name in seen.structs then None
    else
      match Resolve(w, name)
      case StructDef(strukt) => LargestAll(w, strukt.fields, InStruct(seen, name), env)
      case EnumDef(variants) =>
        if name in seen.enums then None
        else Both(Some(ENUM_TAG_BYTES), LargestVariant(w, variants, InEnum(seen, name), env))
      case NoDef => None
  }

  ghost function LargestVariant(w: World, variants: seq<seq<Site>>, seen: Seen, env: Valuation): Option<nat>
    decreases StructsLeft(w, seen), EnumsLeft(w, seen), VariantsSize(variants) + 1
  {
    if variants == [] then None
    else Longer(LargestAll(w, variants[0], seen, env), LargestVariant(w, variants[1..], seen, env))
  }

  // ---- what a known estimate says of its parts

  ghost predicate AllKnown(w: World, sites: seq<Site>, seen: Seen)
  {
    forall site | site in sites :: !SiteSpace(w, site, seen).Unknown?
  }

  lemma KnownPayload(w: World, sites: seq<Site>, seen: Seen, total: Estimate)
    requires !PayloadFold(w, sites, seen, total).Unknown?
    ensures AllKnown(w, sites, seen)
  {
    forall site | site in sites ensures !SiteSpace(w, site, seen).Unknown? {
      KnownFold(w, sites, seen, total, site);
    }
  }

  lemma KnownFieldSites(w: World, name: string, seen: Seen)
    requires Resolve(w, name).StructDef? && !NamedSpace(w, name, seen).Unknown?
    ensures name !in seen.structs && AllKnown(w, Resolve(w, name).strukt.fields, InStruct(seen, name))
  {
    forall field | field in Resolve(w, name).strukt.fields ensures !SiteSpace(w, field, InStruct(seen, name)).Unknown? {
      KnownField(w, name, seen, field);
    }
  }

  lemma KnownVariantSites(w: World, name: string, seen: Seen, k: nat)
    requires Resolve(w, name).EnumDef? && !NamedSpace(w, name, seen).Unknown?
    requires k < |Resolve(w, name).variants|
    ensures name !in seen.structs && AllKnown(w, Resolve(w, name).variants[k], InEnum(seen, name))
  {
    var variants := Resolve(w, name).variants;
    KnownVariants(w, variants, InEnum(seen, name), 0, variants[k]);
    KnownPayload(w, variants[k], InEnum(seen, name), Exact(0));
  }

  // ---- lengths of encoded sequences

  lemma {:induction false} AllBounded(vs: seq<Value>, bound: nat)
    requires forall x | x in vs :: |Encode(x)| <= bound
    ensures |EncodeAll(vs)| <= |vs| * bound
  {
    if vs != [] {
      AllBounded(vs[1..], bound);
      OneMore(|vs[1..]|, bound);
    }
  }

  lemma {:induction false} Repeated(v: Value, n: nat) returns (vs: seq<Value>)
    ensures |vs| == n && (forall x | x in vs :: x == v) && |EncodeAll(vs)| == n * |Encode(v)|
  {
    vs := [];
    if n > 0 {
      var rest := Repeated(v, n - 1);
      vs := [v] + rest;
      assert vs[1..] == rest;
      OneMore(n - 1, |Encode(v)|);
    }
  }

  lemma OneMore(n: nat, size: nat)
    ensures (n + 1) * size == size + n * size
  {
  }

  lemma Monotone(a: nat, b: nat, factor: nat)
    requires a <= b
    ensures a * factor <= b * factor
  {
  }

  // ---- scalars

  lemma ScalarLength(name: string, bytes: nat, v: Value)
    requires KindOf(name) == Primitive(bytes) && IsScalarOf(name, v)
    ensures |Encode(v)| == bytes
  {
    match v
    case Bits(bits, _) => NumberWidth(name, bits);
    case Bool(_) => PrimitiveIff(name, 1);
    case Key(_) => PrimitiveIff(name, 32);
  }

  lemma ScalarReached(name: string, bytes: nat) returns (v: Value)
    requires KindOf(name) == Primitive(bytes)
    ensures IsScalarOf(name, v) && |Encode(v)| == bytes
  {
    PrimitiveIff(name, bytes);
    if name == "bool" {
      v := Bool(false);
    } else if name == "Pubkey" {
      v := Key(LittleEndian(0, 32));
    } else {
      v := Bits(8 * bytes, 0);
    }
    ScalarLength(name, bytes, v);
  }

  // ---- no value is longer

  lemma {:induction false} NoLonger(w: World, s: Site, seen: Seen, env: Valuation, v: Value)
    requires !SiteSpace(w, s, seen).Unknown? && Inhabits(w, s, env, v)
    ensures Largest(w, s, seen, env).Some? && |Encode(v)| <= Largest(w, s, seen, env).value
    decreases v
  {
    match s.ty
    case ArrayT(elem, length) =>
      var inner := s.(ty := elem);
      ItemsNoLonger(w, inner, seen, env, v.items, v);
    case TupleT(elems) =>
      var sites := TupleSites(elems, s.owner, s.args);
      KnownPayload(w, sites, seen, Exact(0));
      AllNoLonger(w, sites, seen, env, v.items);
    case PathT(name, params) =>
      match KindOf(name) {
        case OptionPath => if v.Present? { NoLonger(w, s.(ty := params[0]), seen, env, v.value); }
        case VecPath =>
          var inner := s.(ty := params[0], args := Drop(s.args, 1));
          ItemsNoLonger(w, inner, seen, env, v.items, v);
          Monotone(|v.items|, SlotValue(s.args, env), Largest(w, inner, seen, env).GetOr(0));
        case NamedPath => NamedNoLonger(w, s, name, seen, env, v);
        case Primitive(bytes) => ScalarLength(name, bytes, v);
        case StringPath =>
      }
  }

  /** `items` are the items of `whole`, values of the item type. */
  lemma {:induction false} ItemsNoLonger(w: World, inner: Site, seen: Seen, env: Valuation, items: seq<Value>,
                                         whole: Value)
    requires !SiteSpace(w, inner, seen).Unknown?
    requires whole == Row(items) || whole == Items(items)
    requires forall x | x in items :: Inhabits(w, inner, env, x)
    ensures items != [] ==> Largest(w, inner, seen, env).Some?
    ensures |EncodeAll(items)| <= |items| * Largest(w, inner, seen, env).GetOr(0)
    decreases whole, 0
  {
    forall x | x in items
      ensures Largest(w, inner, seen, env).Some? && |Encode(x)| <= Largest(w, inner, seen, env).value
    {
      NoLonger(w, inner, seen, env, x);
    }
    if items != [] {
      assert items[0] in items;
    }
    AllBounded(items, Largest(w, inner, seen, env).GetOr(0));
  }

  lemma {:induction false} NamedNoLonger(w: World, s: Site, name: string, seen: Seen, env: Valuation,
                                         v: Value)
    requires s.ty.PathT? && s.ty.name == name && KindOf(name).NamedPath?
    requires !NamedSpace(w, name, seen).Unknown? && Inhabits(w, s, env, v)
    ensures var n := LargestNamed(w, name, seen, env); n.Some? && |Encode(v)| <= n.value
    decreases v, 0
  {
    if Resolve(w, name).StructDef? {
      KnownFieldSites(w, name, seen);
      AllNoLonger(w, Resolve(w, name).strukt.fields, InStruct(seen, name), env, v.items);
    } else {
      var variants := Resolve(w, name).variants;
      KnownVariantSites(w, name, seen, v.tag);
      AllNoLonger(w, variants[v.tag], InEnum(seen, name), env, v.items);
      VariantNoLonger(w, variants, InEnum(seen, name), env, v.tag);
    }
  }

  lemma {:induction false} VariantNoLonger(w: World, variants: seq<seq<Site>>, seen: Seen,
                                           env: Valuation, k: nat)
    requires k < |variants| && LargestAll(w, variants[k], seen, env).Some?
    ensures var n := LargestVariant(w, variants, seen, env);
            n.Some? && LargestAll(w, variants[k], seen, env).value <= n.value
    decreases |variants|
  {
    if k > 0 {
      VariantNoLonger(w, variants[1..], seen, env, k - 1);
    }
  }

  lemma {:induction false} AllNoLonger(w: World, sites: seq<Site>, seen: Seen, env: Valuation, vs: seq<Value>)
    requires AllKnown(w, sites, seen) && InhabitAll(w, sites, env, vs)
    ensures LargestAll(w, sites, seen, env).Some?
    ensures |EncodeAll(vs)| <= LargestAll(w, sites, seen, env).value
    decreases vs
  {
    if sites != [] {
      NoLonger(w, sites[0], seen, env, vs[0]);
      AllNoLonger(w, sites[1..], seen, env, vs[1..]);
    }
  }

  // ---- some value is as long

  lemma {:induction false} Reached(w: World, s: Site, seen: Seen, env: Valuation) returns (v: Value)
    requires !SiteSpace(w, s, seen).Unknown? && Largest(w, s, seen, env).Some?
    ensures Inhabits(w, s, env, v) && |Encode(v)| == Largest(w, s, seen, env).value
    decreases StructsLeft(w, seen), EnumsLeft(w, seen), TypeSize(s.ty), 1
  {
    match s.ty
    case ArrayT(elem, length) =>
      var xs := ItemsReached(w, s, s.(ty := elem), seen, env, ArrayValue(length, env));
      v := Row(xs);
    case TupleT(elems) =>
      KnownPayload(w, TupleSites(elems, s.owner, s.args), seen, Exact(0));
      var vs := AllReached(w, TupleSites(elems, s.owner, s.args), seen, env);
      v := Record(vs);
    case PathT(name, params) =>
      match KindOf(name) {
        case Primitive(bytes) => v := ScalarReached(name, bytes);
        case StringPath => v := Str(seq(SlotValue(s.args, env), _ => 0));
        case OptionPath =>
          v := Absent;
          if Largest(w, s.(ty := params[0]), seen, env).Some? {
            var x := Reached(w, s.(ty := params[0]), seen, env);
            v := Present(x);
          }
        case VecPath => v := VecReached(w, s, params, seen, env);
        case NamedPath => v := NamedReached(w, s, name, seen, env);
      }
  }

  lemma {:induction false} VecReached(w: World, s: Site, params: seq<Type>, seen: Seen, env: Valuation)
    returns (v: Value)
    requires s.ty.PathT? && s.ty.params == params && KindOf(s.ty.name).VecPath?
    requires !SiteSpace(w, s, seen).Unknown?
    ensures Inhabits(w, s, env, v) && Largest(w, s, seen, env) == Some(|Encode(v)|)
    decreases StructsLeft(w, seen), EnumsLeft(w, seen), TypeSize(s.ty), 0
  {
    var inner := s.(ty := params[0], args := Drop(s.args, 1));
    v := Items([]);
    if Largest(w, inner, seen, env).Some? {
      var x := Reached(w, inner, seen, env);
      var xs := Repeated(x, SlotValue(s.args, env));
      v := Items(xs);
    }
  }

  /** `n` longest values of the item type. */
  lemma {:induction false} ItemsReached(w: World, s: Site, inner: Site, seen: Seen, env: Valuation, n: nat)
    returns (xs: seq<Value>)
    requires !SiteSpace(w, inner, seen).Unknown?
    requires TypeSize(inner.ty) < TypeSize(s.ty)
    requires n > 0 ==> Largest(w, inner, seen, env).Some?
    ensures |xs| == n && (forall x | x in xs :: Inhabits(w, inner, env, x))
    ensures |EncodeAll(xs)| == n * Largest(w, inner, seen, env).GetOr(0)
    decreases StructsLeft(w, seen), EnumsLeft(w, seen), TypeSize(s.ty), 0
  {
    xs := [];
    if n > 0 {
      var x := Reached(w, inner, seen, env);
      xs := Repeated(x, n);
    }
  }

  lemma {:induction false} NamedReached(w: World, s: Site, name: string, seen: Seen, env: Valuation)
    returns (v: Value)
    requires s.ty.PathT? && s.ty.name == name && KindOf(name).NamedPath?
    requires !NamedSpace(w, name, seen).Unknown? && LargestNamed(w, name, seen, env).Some?
    ensures Inhabits(w, s, env, v) && |Encode(v)| == LargestNamed(w, name, seen, env).value
    decreases StructsLeft(w, seen), EnumsLeft(w, seen), TypeSize(s.ty), 0
  {
    if Resolve(w, name).StructDef? {
      KnownFieldSites(w, name, seen);
      var vs := AllReached(w, Resolve(w, name).strukt.fields, InStruct(seen, name), env);
      v := Record(vs);
    } else {
      var variants := Resolve(w, name).variants;
      var k := WidestVariant(w, variants, InEnum(seen, name), env);
      KnownVariantSites(w, name, seen, k);
      var vs := AllReached(w, variants[k], InEnum(seen, name), env);
      v := Variant(k, vs);
    }
  }

  lemma {:induction false} WidestVariant(w: World, variants: seq<seq<Site>>, seen: Seen, env: Valuation)
    returns (k: nat)
    requires LargestVariant(w, variants, seen, env).Some?
    ensures k < |variants| && LargestAll(w, variants[k], seen, env) == LargestVariant(w, variants, seen, env)
    decreases |variants|
  {
    k := 0;
    if LargestAll(w, variants[0], seen, env) != LargestVariant(w, variants, seen, env) {
      var m := WidestVariant(w, variants[1..], seen, env);
      k := m + 1;
    }
  }

  lemma {:induction false} AllReached(w: World, sites: seq<Site>, seen: Seen, env: Valuation)
    returns (vs: seq<Value>)
    requires AllKnown(w, sites, seen) && LargestAll(w, sites, seen, env).Some?
    ensures InhabitAll(w, sites, env, vs) && |EncodeAll(vs)| == LargestAll(w, sites, seen, env).value
    decreases StructsLeft(w, seen), EnumsLeft(w, seen), SitesSize(sites)
  {
    vs := [];
    if sites != [] {
      var v := Reached(w, sites[0], seen, env);
      var rest := AllReached(w, sites[1..], seen, env);
      vs := [v] + rest;
      assert vs[1..] == rest;
    }
  }

  // ---- main results

  /** The reference is the longest encoding of the site's values, where the estimator knows the site. */
  lemma LargestIff(w: World, s: Site, seen: Seen, env: Valuation, size: int)
    requires !SiteSpace(w, s, seen).Unknown?
    ensures IsLargest(w, s, env, size) <==> Largest(w, s, seen, env) == Some(size)
  {
    var largest := Largest(w, s, seen, env);
    forall v | Inhabits(w, s, env, v) ensures largest.Some? && |Encode(v)| <= largest.value {
      NoLonger(w, s, seen, env, v);
    }
    if largest.Some? {
      var v := Reached(w, s, seen, env);
      assert Inhabits(w, s, env, v) && |Encode(v)| == largest.value;
    }
  }

  ghost predicate HasValue(w: World, s: Site, env: Valuation) {
    exists v :: Inhabits(w, s, env, v)
  }

  /** A known site has values exactly when its types and declarations give it one. */
  lemma InhabitedIff(w: World, s: Site, seen: Seen, env: Valuation)
    requires !SiteSpace(w, s, seen).Unknown?
    ensures HasValue(w, s, env) <==> Largest(w, s, seen, env).Some?
  {
    if HasValue(w, s, env) {
      var v :| Inhabits(w, s, env, v);
      NoLonger(w, s, seen, env, v);
    }
    if Largest(w, s, seen, env).Some? {
      var v := Reached(w, s, seen, env);
      assert Inhabits(w, s, env, v);
    }
  }
}
