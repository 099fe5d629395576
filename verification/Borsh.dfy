/**
 What the estimator is about: values, their Borsh encoding (borsh.io, "Specification" table)
 and which values a Rust type admits when String and Vec lengths respect `max_len`. The main
 results say that a known estimate is the largest encoded length, for every reading of the
 names in its formula.
 */
module Borsh {
  import opened ByteOrder
  import opened LengthText
  import opened AccountSpace

  type Bytes = seq<byte>

  /** A number is the pattern of its bits, and a float is one too. */
  datatype Value =
    | Bool(b: bool)
    | Bits(bits: nat, pattern: nat)
    | Key(bytes: Bytes)
    | Str(bytes: Bytes)
    | Absent
    | Present(value: Value)
    | Items(items: seq<Value>)
    | Row(items: seq<Value>)
    | Record(items: seq<Value>)
    | Variant(tag: nat, items: seq<Value>)

  /** A little-endian u32. */
  function Prefix(n: nat): Bytes {
    LittleEndian(n, 4)
  }

  function Encode(v: Value): Bytes {
    match v
    case Bool(b) => [if b then 1 else 0]
    case Bits(bits, pattern) => LittleEndian(pattern, bits / 8)
    case Key(bytes) => bytes
    case Str(bytes) => Prefix(|bytes|) + bytes
    case Absent => [0]
    case Present(x) => [1] + Encode(x)
    case Items(items) => Prefix(|items|) + EncodeAll(items)
    case Row(items) => EncodeAll(items)
    case Record(items) => EncodeAll(items)
    case Variant(tag, items) => [tag % 256] + EncodeAll(items)
  }

  function EncodeAll(vs: seq<Value>): Bytes {
    if vs == [] then [] else Encode(vs[0]) + EncodeAll(vs[1..])
  }

  // ---- the values of a type

  /** The text of the next `max_len` argument, or the name that stands for a missing one. */
  function SlotText(args: seq<string>): string {
    if args == [] then "max_len" else args[0]
  }

  function SlotValue(args: seq<string>, env: Valuation): nat {
    match ParseU64(SlotText(args))
    case Some(n) => n
    case None => Count(SlotText(args), env)
  }

  function ArrayValue(length: ArrayLength, env: Valuation): nat {
    if length.literal.Some? && length.literal.value <= MAX_U64 then length.literal.value
    else Count(length.text, env)
  }

  /** The values of the types without parts. */
  predicate IsScalarOf(name: string, v: Value) {
    match v
    case Bool(_) => name == "bool"
    case Bits(bits, pattern) => IsNumberName(name, bits) && pattern < Pow2(bits)
    case Key(bytes) => name == "Pubkey" && |bytes| == 32
    case _ => false
  }

  predicate Inhabits(w: World, s: Site, env: Valuation, v: Value)
    decreases v
  {
    match s.ty
    case ArrayT(elem, length) =>
      v.Row? && |v.items| == ArrayValue(length, env) &&
      forall x | x in v.items :: Inhabits(w, s.(ty := elem), env, x)
    case TupleT(elems) => v.Record? && InhabitAll(w, TupleSites(elems, s.owner, s.args), env, v.items)
    case PathT(name, params) =>
      (match KindOf(name)
       case Primitive(_) => IsScalarOf(name, v)
       case StringPath => v.Str? && |v.bytes| <= SlotValue(s.args, env)
       case OptionPath =>
         params != [] && (v.Absent? || (v.Present? && Inhabits(w, s.(ty := params[0]), env, v.value)))
       case VecPath =>
         params != [] && v.Items? && |v.items| <= SlotValue(s.args, env) &&
         forall x | x in v.items :: Inhabits(w, s.(ty := params[0], args := Drop(s.args, 1)), env, x)
       case NamedPath =>
         match Resolve(w, name)
         case StructDef(strukt) => v.Record? && InhabitAll(w, strukt.fields, env, v.items)
         case EnumDef(variants) =>
           v.Variant? && v.tag < |variants| && InhabitAll(w, variants[v.tag], env, v.items)
         case NoDef => false)
    case OtherT => false
  }

  predicate InhabitAll(w: World, sites: seq<Site>, env: Valuation, vs: seq<Value>)
    decreases vs
  {
    if sites == [] || vs == [] then sites == [] && vs == []
    else Inhabits(w, sites[0], env, vs[0]) && InhabitAll(w, sites[1..], env, vs[1..])
  }

  /** `size` is the length of the longest encoding of a value of the site's type. */
  ghost predicate IsLargest(w: World, s: Site, env: Valuation, size: int) {
    && (forall v | Inhabits(w, s, env, v) :: |Encode(v)| <= size)
    && (exists v :: Inhabits(w, s, env, v) && |Encode(v)| == size)
  }

  // ---- what an estimate says

  function PartsValue(parts: seq<SymbolicPart>, env: Valuation): int {
    if parts == [] then 0 else TextValue(parts[0].expr, env) + PartsValue(parts[1..], env)
  }

  /** The number of bytes a known estimate stands for once its names have values. */
  function Meaning(e: Estimate, env: Valuation): int
    requires !e.Unknown?
  {
    match e
    case Exact(bytes) => bytes
    case Formula(fixed, symbolic) => fixed + PartsValue(symbolic, env)
  }

  predicate PartsReadable(parts: seq<SymbolicPart>, env: Valuation) {
    forall p | p in parts :: IsSumText(p.expr, env)
  }

  /** Every symbolic part of the estimate is a well-formed formula. */
  predicate WellPrinted(e: Estimate, env: Valuation) {
    e.Formula? ==> PartsReadable(e.symbolic, env)
  }
}
