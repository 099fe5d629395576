/**
 The account-space estimator: Rust types as the estimator sees them, its checked u64
 arithmetic, and the estimate of a type, a struct and an enum. `SpaceResolver` is the
 estimator itself, with its mutable `visited` set and `max_len` queue; `SiteSpace` and the
 functions beside it are the specification that its methods are proved against. Nothing stops
 the estimator at an enum that it is in the middle of sizing; the specification tells the inputs
 on which it never comes back from the others.
 */
module AccountSpace {
  import opened Text
  import opened LengthText

  const MAX_U64: nat := 0xFFFF_FFFF_FFFF_FFFF

  const OPTION_TAG_BYTES: nat := 1
  const ENUM_TAG_BYTES: nat := 1
  const BORSH_LENGTH_PREFIX_BYTES: nat := 4

  // ---- types and declarations

  /** An array length: its integer literal if it is one, and its text without whitespace. */
  datatype ArrayLength = ArrayLength(literal: Option<nat>, text: string)

  /** A parsed Rust type; `params` are the type arguments of a path's last segment. */
  datatype Type =
    | ArrayT(elem: Type, length: ArrayLength)
    | TupleT(elems: seq<Type>)
    | PathT(name: string, params: seq<Type>)
    | OtherT

  /** A type to be sized, the field it belongs to and the `max_len` arguments left for it. */
  datatype Site = Site(ty: Type, owner: string, args: seq<string>)

  /** `fields` of a struct, in order; a field is a site that owns all its `max_len` arguments. */
  datatype Struct = Struct(zeroCopy: bool, fields: seq<Site>)

  datatype World = World(structs: map<string, Struct>, enums: map<string, seq<seq<Site>>>,
                         workspace: map<string, Struct>)

  datatype Definition = StructDef(strukt: Struct) | EnumDef(variants: seq<seq<Site>>) | NoDef

  /** Document structs come first, then document enums, then workspace structs. */
  function Resolve(w: World, name: string): Definition {
    if name in w.structs then StructDef(w.structs[name])
    else if name in w.enums then EnumDef(w.enums[name])
    else if name in w.workspace then StructDef(w.workspace[name])
    else NoDef
  }

  /** A name means the document's struct if there is one, else its enum, else the workspace's struct. */
  lemma ResolveIff(w: World, name: string)
    ensures Resolve(w, name).NoDef? <==> name !in w.structs.Keys + w.enums.Keys + w.workspace.Keys
    ensures Resolve(w, name).EnumDef? <==> name in w.enums.Keys - w.structs.Keys
    ensures name in w.structs ==> Resolve(w, name) == StructDef(w.structs[name])
    ensures name in w.enums.Keys - w.structs.Keys ==> Resolve(w, name) == EnumDef(w.enums[name])
    ensures name in w.workspace.Keys - w.enums.Keys - w.structs.Keys ==>
              Resolve(w, name) == StructDef(w.workspace[name])
  {
  }

  datatype PathKind = Primitive(bytes: nat) | StringPath | OptionPath | VecPath | NamedPath

  function KindOf(name: string): PathKind {
    if name == "bool" || name == "u8" || name == "i8" then Primitive(1)
    else if name == "u16" || name == "i16" then Primitive(2)
    else if name == "u32" || name == "i32" || name == "f32" then Primitive(4)
    else if name == "u64" || name == "i64" || name == "f64" then Primitive(8)
    else if name == "u128" || name == "i128" then Primitive(16)
    else if name == "Pubkey" then Primitive(32)
    else if name == "String" then StringPath
    else if name == "Option" then OptionPath
    else if name == "Vec" then VecPath
    else NamedPath
  }

  // ---- what the names of the primitives say

  /** `u8` to `u128`, `i8` to `i128`, `f32` and `f64`: a letter and a width in bits. */
  predicate IsNumberName(name: string, bits: nat) {
    || (bits in {8, 16, 32, 64, 128} && (name == "u" + Decimal(bits) || name == "i" + Decimal(bits)))
    || (bits in {32, 64} && name == "f" + Decimal(bits))
  }

  /** The name is that of a type without parts, `bytes` wide. */
  predicate IsWidth(name: string, bytes: nat) {
    IsNumberName(name, 8 * bytes) || (name == "bool" && bytes == 1) || (name == "Pubkey" && bytes == 32)
  }

  lemma Widths()
    ensures Decimal(8) == "8" && Decimal(16) == "16" && Decimal(32) == "32" && Decimal(64) == "64"
    ensures Decimal(128) == "128"
  {
    assert Decimal(12) == "12";
  }

  /** A name is given the width that it says, and no other name is primitive. */
  lemma PrimitiveIff(name: string, bytes: nat)
    ensures KindOf(name) == Primitive(bytes) <==> IsWidth(name, bytes)
  {
    Widths();
    assert "u" + "8" == "u8" && "i" + "8" == "i8" && "u" + "16" == "u16" && "i" + "16" == "i16";
    assert "u" + "32" == "u32" && "i" + "32" == "i32" && "f" + "32" == "f32";
    assert "u" + "64" == "u64" && "i" + "64" == "i64" && "f" + "64" == "f64";
    assert "u" + "128" == "u128" && "i" + "128" == "i128";
  }

  lemma NumberWidth(name: string, bits: nat)
    requires IsNumberName(name, bits)
    ensures KindOf(name) == Primitive(bits / 8)
  {
    assert 8 * (bits / 8) == bits;
    PrimitiveIff(name, bits / 8);
  }

  /** The other names with a meaning of their own are `String`, `Option` and `Vec`. */
  lemma ContainerIff(name: string)
    ensures KindOf(name).StringPath? <==> name == "String"
    ensures KindOf(name).OptionPath? <==> name == "Option"
    ensures KindOf(name).VecPath? <==> name == "Vec"
  {
  }

  ghost predicate IsPrimitiveName(name: string) {
    exists bytes :: IsWidth(name, bytes)
  }

  /** All others are looked up. */
  lemma NamedIff(name: string)
    ensures KindOf(name).NamedPath? <==> name !in {"String", "Option", "Vec"} && !IsPrimitiveName(name)
  {
    ContainerIff(name);
    if KindOf(name).Primitive? {
      PrimitiveIff(name, KindOf(name).bytes);
    }
    if bytes :| IsWidth(name, bytes) {
      PrimitiveIff(name, bytes);
    }
  }

  // ---- estimates

  /** The last is not an answer: the estimator recurses without end. */
  datatype Reason = RecursiveType | ZeroCopy | UnresolvableType | UnsupportedType | Overflow | Endless

  datatype SymbolicPart = SymbolicPart(field: string, expr: string)

  datatype Estimate =
    | Exact(bytes: nat)
    | Formula(fixed: nat, symbolic: seq<SymbolicPart>)
    | Unknown(reason: Reason)

  const ENDLESS := Unknown(Endless)

  function CheckedAdd(a: nat, b: nat): Option<nat> {
    if a + b <= MAX_U64 then Some(a + b) else None
  }

  function CheckedMul(a: nat, b: nat): Option<nat> {
    if a * b <= MAX_U64 then Some(a * b) else None
  }

  function SaturatingAdd(a: nat, b: nat): nat {
    if a + b <= MAX_U64 then a + b else MAX_U64
  }

  function AddEstimates(left: Estimate, right: Estimate): Estimate {
    match (left, right)
    case (Unknown(reason), _) => Unknown(reason)
    case (_, Unknown(reason)) => Unknown(reason)
    case (Exact(a), Exact(b)) =>
      (match CheckedAdd(a, b) case Some(n) => Exact(n) case None => Unknown(Overflow))
    case (Exact(a), Formula(fixed, symbolic)) =>
      (match CheckedAdd(a, fixed) case Some(n) => Formula(n, symbolic) case None => Unknown(Overflow))
    case (Formula(fixed, symbolic), Exact(a)) =>
      (match CheckedAdd(a, fixed) case Some(n) => Formula(n, symbolic) case None => Unknown(Overflow))
    case (Formula(a, left), Formula(b, right)) =>
      (match CheckedAdd(a, b) case Some(n) => Formula(n, left + right) case None => Unknown(Overflow))
  }

  function FixedBytes(e: Estimate): nat
    requires !e.Unknown?
  {
    if e.Exact? then e.bytes else e.fixed
  }

  /** Inside tuples and enum payloads every failure is reported as an unsupported type. */
  function TryAddEstimates(left: Estimate, right: Estimate): Estimate {
    var sum := AddEstimates(left, right);
    if sum.Unknown? then Unknown(UnsupportedType) else sum
  }

  function ScaleParts(parts: seq<SymbolicPart>, factor: nat, owner: string): (scaled: seq<SymbolicPart>)
    ensures |scaled| == |parts|
  {
    if parts == [] then []
    else
      [SymbolicPart(owner, TimesText(Decimal(factor), ParenText(parts[0].expr)))]
      + ScaleParts(parts[1..], factor, owner)
  }

  function MultiplyEstimate(estimate: Estimate, factor: nat, owner: string): Estimate {
    match estimate
    case Exact(bytes) =>
      (match CheckedMul(bytes, factor) case Some(n) => Exact(n) case None => Unknown(Overflow))
    case Formula(fixed, symbolic) =>
      (match CheckedMul(fixed, factor)
       case Some(n) => Formula(n, ScaleParts(symbolic, factor, owner))
       case None => Unknown(Overflow))
    case Unknown(reason) => Unknown(reason)
  }

  function PartTexts(parts: seq<SymbolicPart>): seq<string> {
    if parts == [] then [] else [parts[0].expr] + PartTexts(parts[1..])
  }

  function FormulaExpr(fixed: nat, symbolic: seq<SymbolicPart>): string {
    Join((if fixed > 0 || symbolic == [] then [Decimal(fixed)] else []) + PartTexts(symbolic), " + ")
  }

  /** The text shown for a known estimate. */
  function EstimateExpr(estimate: Estimate): Option<string> {
    match estimate
    case Exact(bytes) => Some(Decimal(bytes))
    case Formula(fixed, symbolic) => Some(FormulaExpr(fixed, symbolic))
    case Unknown(_) => None
  }

  /** `length` items, where `length` is a text and not a number. */
  function SymbolicProduct(owner: string, length: string, item: Estimate): Estimate {
    match item
    case Exact(bytes) => Formula(0, [SymbolicPart(owner, TimesText(length, Decimal(bytes)))])
    case Formula(fixed, symbolic) =>
      Formula(0, [SymbolicPart(owner, TimesText(length, ParenText(FormulaExpr(fixed, symbolic))))])
    case Unknown(reason) => Unknown(reason)
  }

  // ---- the max_len queue

  function TrimParens(s: string): string
    decreases |s|
  {
    if s != [] && (s[0] == '(' || s[0] == ')') then TrimParens(s[1..])
    else if s != [] && (s[|s| - 1] == '(' || s[|s| - 1] == ')') then TrimParens(s[..|s| - 1])
    else s
  }

  /** Outer parentheses dropped, then an optional `+`, then digits that fit 64 bits. */
  function ParseU64(text: string): (r: Option<nat>)
    ensures r.Some? ==> r.value <= MAX_U64
  {
    var trimmed := TrimParens(text);
    var digits := if trimmed != [] && trimmed[0] == '+' then trimmed[1..] else trimmed;
    if digits != [] && AllDigits(digits) && DigitsValue(digits) <= MAX_U64 then Some(DigitsValue(digits)) else None
  }

  predicate IsParen(c: char) {
    c == '(' || c == ')'
  }

  predicate AllParens(s: string) {
    forall i :: 0 <= i < |s| ==> IsParen(s[i])
  }

  /** Whatever parentheses are put around a text that has none at its ends come off again. */
  lemma {:induction false} ParensComeOff(before: string, text: string, after: string)
    requires AllParens(before) && AllParens(after)
    requires text != [] ==> !IsParen(text[0]) && !IsParen(text[|text| - 1])
    ensures TrimParens(before + text + after) == text
    decreases |before| + |after|
  {
    var whole := before + text + after;
    if before != [] {
      assert whole[1..] == before[1..] + text + after;
      ParensComeOff(before[1..], text, after);
    } else if after != [] {
      assert whole[..|whole| - 1] == before + text + after[..|after| - 1];
      if text == [] {
        assert whole[1..] == before + text + after[1..];
        ParensComeOff(before, text, after[1..]);
      } else {
        ParensComeOff(before, text, after[..|after| - 1]);
      }
    } else {
      assert whole == text;
    }
  }

  /** A numeral in any parentheses, with or without a plus sign, is the number if that fits 64 bits. */
  lemma NumeralParses(before: string, sign: string, n: nat, after: string)
    requires AllParens(before) && AllParens(after) && (sign == "" || sign == "+")
    ensures ParseU64(before + (sign + Decimal(n)) + after) == if n <= 0xFFFF_FFFF_FFFF_FFFF then Some(n) else None
  {
    var text, digits := sign + Decimal(n), Decimal(n);
    assert IsDigit(digits[0]) && IsDigit(digits[|digits| - 1]);
    assert text[0] == if sign == "+" then '+' else digits[0];
    assert text[|text| - 1] == digits[|digits| - 1];
    ParensComeOff(before, text, after);
    DecimalRoundTrip(n);
    if sign == "+" {
      assert text[1..] == digits;
    } else {
      assert text == digits;
    }
  }

  function Drop(args: seq<string>, n: nat): seq<string> {
    if n <= |args| then args[n..] else []
  }

  function FirstArg(args: seq<string>): Option<string> {
    if args == [] then None else Some(args[0])
  }

  /** How many `max_len` arguments a type takes: one for each String and each Vec, outside in. */
  function Slots(ty: Type): nat {
    match ty
    case ArrayT(elem, _) => Slots(elem)
    case TupleT(elems) => SlotsOfAll(elems)
    case PathT(name, params) =>
      (match KindOf(name)
       case StringPath => 1
       case OptionPath => if params == [] then 0 else Slots(params[0])
       case VecPath => if params == [] then 0 else 1 + Slots(params[0])
       case _ => 0)
    case OtherT => 0
  }

  function SlotsOfAll(tys: seq<Type>): nat {
    if tys == [] then 0 else Slots(tys[0]) + SlotsOfAll(tys[1..])
  }

  function StringEstimate(owner: string, args: seq<string>): Estimate {
    match FirstArg(args)
    case Some(length) =>
      (match ParseU64(length)
       case Some(n) => Exact(SaturatingAdd(BORSH_LENGTH_PREFIX_BYTES, n))
       case None => Formula(BORSH_LENGTH_PREFIX_BYTES, [SymbolicPart(owner, length)]))
    case None => Formula(BORSH_LENGTH_PREFIX_BYTES, [SymbolicPart(owner, "max_len")])
  }

  function ArrayEstimate(owner: string, length: ArrayLength, elem: Estimate): Estimate {
    if length.literal.Some? && length.literal.value <= MAX_U64
    then MultiplyEstimate(elem, length.literal.value, owner)
    else SymbolicProduct(owner, length.text, elem)
  }

  function VecEstimate(owner: string, length: Option<string>, item: Estimate): Estimate {
    AddEstimates(
      Exact(BORSH_LENGTH_PREFIX_BYTES),
      match length
      case None => SymbolicProduct(owner, "max_len", item)
      case Some(text) =>
        match ParseU64(text)
        case Some(n) => MultiplyEstimate(item, n, owner)
        case None => SymbolicProduct(owner, text, item))
  }

  // ---- what is being sized around a site

  /** The structs in `visited`, and the enums being sized since the last of them was entered. */
  datatype Seen = Seen(structs: set<string>, enums: set<string>)

  const UNSEEN := Seen({}, {})

  function InStruct(seen: Seen, name: string): Seen {
    Seen(seen.structs + {name}, {})
  }

  function InEnum(seen: Seen, name: string): Seen {
    seen.(enums := seen.enums + {name})
  }

  ghost function StructsLeft(w: World, seen: Seen): set<string> {
    w.structs.Keys + w.workspace.Keys - seen.structs
  }

  ghost function EnumsLeft(w: World, seen: Seen): set<string> {
    w.enums.Keys - seen.enums
  }

  function TypeSize(ty: Type): nat {
    match ty
    case ArrayT(elem, _) => 1 + TypeSize(elem)
    case TupleT(elems) => 1 + TypesSize(elems)
    case PathT(_, params) => 1 + TypesSize(params)
    case OtherT => 1
  }

  function TypesSize(tys: seq<Type>): (size: nat)
    ensures tys != [] ==> size > TypeSize(tys[0])
  {
    if tys == [] then 0 else 1 + TypeSize(tys[0]) + TypesSize(tys[1..])
  }

  function SitesSize(sites: seq<Site>): nat {
    if sites == [] then 0 else 1 + TypeSize(sites[0].ty) + SitesSize(sites[1..])
  }

  function VariantsSize(variants: seq<seq<Site>>): nat {
    if variants == [] then 0 else 1 + SitesSize(variants[0]) + VariantsSize(variants[1..])
  }

  function Max(a: nat, b: nat): nat {
    if a >= b then a else b
  }

  // ---- the estimate of a site

  /** A tuple's elements as sites that take their `max_len` arguments from left to right. */
  function TupleSites(elems: seq<Type>, owner: string, args: seq<string>): (sites: seq<Site>)
    ensures |sites| == |elems| && SitesSize(sites) == TypesSize(elems)
  {
    if elems == [] then []
    else [Site(elems[0], owner, args)] + TupleSites(elems[1..], owner, Drop(args, Slots(elems[0])))
  }

  lemma DropDrop(args: seq<string>, m: nat, n: nat)
    ensures Drop(Drop(args, m), n) == Drop(args, m + n)
  {
  }

  /** Element `i` of a tuple starts with the arguments that the slots of the elements before it leave. */
  lemma {:induction false} TupleSiteAt(elems: seq<Type>, owner: string, args: seq<string>, i: nat)
    requires i < |elems|
    ensures TupleSites(elems, owner, args)[i] == Site(elems[i], owner, Drop(args, SlotsOfAll(elems[..i])))
  {
    if i > 0 {
      TupleSiteAt(elems[1..], owner, Drop(args, Slots(elems[0])), i - 1);
      assert elems[..i][1..] == elems[1..][..i - 1];
      DropDrop(args, Slots(elems[0]), SlotsOfAll(elems[1..][..i - 1]));
    }
  }

  ghost function SiteSpace(w: World, s: Site, seen: Seen): Estimate
    decreases StructsLeft(w, seen), EnumsLeft(w, seen), TypeSize(s.ty)
  {
    match s.ty
    case ArrayT(elem, length) => ArrayEstimate(s.owner, length, SiteSpace(w, s.(ty := elem), seen))
    case TupleT(elems) => PayloadFold(w, TupleSites(elems, s.owner, s.args), seen, Exact(0))
    case PathT(name, params) =>
      (match KindOf(name)
       case Primitive(bytes) => Exact(bytes)
       case StringPath => StringEstimate(s.owner, s.args)
       case OptionPath =>
         if params == [] then Unknown(UnsupportedType)
         else AddEstimates(Exact(OPTION_TAG_BYTES), SiteSpace(w, s.(ty := params[0]), seen))
       case VecPath =>
         if params == [] then Unknown(UnsupportedType)
         else VecEstimate(s.owner, FirstArg(s.args), SiteSpace(w, s.(ty := params[0], args := Drop(s.args, 1)), seen))
       case NamedPath => NamedSpace(w, name, seen))
    case OtherT => Unknown(UnsupportedType)
  }

  /** The fold over tuple elements and enum payloads: the first failure ends it. */
  ghost function PayloadFold(w: World, sites: seq<Site>, seen: Seen, total: Estimate): Estimate
    decreases StructsLeft(w, seen), EnumsLeft(w, seen), SitesSize(sites)
  {
    if sites == [] then total
    else
      var first := SiteSpace(w, sites[0], seen);
      var sum := TryAddEstimates(total, first);
      if first == ENDLESS then ENDLESS else if sum.Unknown? then sum else PayloadFold(w, sites[1..], seen, sum)
  }

  ghost function NamedSpace(w: World, name: string, seen: Seen): Estimate
    decreases StructsLeft(w, seen), EnumsLeft(w, seen), 0
  {
    if name in seen.structs then Unknown(RecursiveType)
    else
      match Resolve(w, name)
      case StructDef(strukt) => StructSpace(w, name, strukt, seen)
      case EnumDef(variants) => if name in seen.enums then ENDLESS else EnumFold(w, variants, InEnum(seen, name), 0)
      case NoDef => Unknown(UnresolvableType)
  }

  ghost function StructSpace(w: World, name: string, strukt: Struct, seen: Seen): Estimate
    decreases StructsLeft(w, InStruct(seen, name)), w.enums.Keys, SitesSize(strukt.fields) + 1
  {
    if strukt.zeroCopy then Unknown(ZeroCopy)
    else if name in seen.structs then Unknown(RecursiveType)
    else FieldsFold(w, strukt.fields, InStruct(seen, name), Exact(0))
  }

  /** The fold over struct fields: an unknown field ends it, an overflowing total does not. */
  ghost function FieldsFold(w: World, fields: seq<Site>, seen: Seen, total: Estimate): Estimate
    decreases StructsLeft(w, seen), EnumsLeft(w, seen), SitesSize(fields)
  {
    if fields == [] then total
    else
      var field := SiteSpace(w, fields[0], seen);
      if field.Unknown? then field else FieldsFold(w, fields[1..], seen, AddEstimates(total, field))
  }

  /** The fold over enum variants; `largest` is the biggest payload so far. */
  ghost function EnumFold(w: World, variants: seq<seq<Site>>, seen: Seen, largest: nat): Estimate
    decreases StructsLeft(w, seen), EnumsLeft(w, seen), VariantsSize(variants) + 1
  {
    if variants == [] then Exact(SaturatingAdd(ENUM_TAG_BYTES, largest))
    else
      var payload := PayloadFold(w, variants[0], seen, Exact(0));
      if payload == ENDLESS then ENDLESS
      else if payload.Exact? then EnumFold(w, variants[1..], seen, Max(largest, payload.bytes))
      else Unknown(UnsupportedType)
  }

  /** Sizing a declared name goes on inside it. */
  function Inside(w: World, name: string, seen: Seen): Seen {
    if Resolve(w, name).StructDef? then InStruct(seen, name) else InEnum(seen, name)
  }

  // ---- parts are smaller than the whole

  lemma {:induction false} SizeAt(tys: seq<Type>, i: nat)
    requires i < |tys|
    ensures TypeSize(tys[i]) < TypesSize(tys)
  {
    if i > 0 {
      SizeAt(tys[1..], i - 1);
    }
  }

  lemma {:induction false} SiteSizeAt(sites: seq<Site>, i: nat)
    requires i < |sites|
    ensures TypeSize(sites[i].ty) < SitesSize(sites)
  {
    if i > 0 {
      SiteSizeAt(sites[1..], i - 1);
    }
  }

  lemma {:induction false} VariantSizeAt(variants: seq<seq<Site>>, i: nat)
    requires i < |variants|
    ensures SitesSize(variants[i]) < VariantsSize(variants)
  {
    if i > 0 {
      VariantSizeAt(variants[1..], i - 1);
    }
  }
}
