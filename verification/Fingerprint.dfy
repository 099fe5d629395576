/**
 FNV-1a over 64 bits, as the generator uses it to notice changed sources: every step can be
 undone, so a single changed byte always changes the fingerprint.
 */
module Fingerprint {
  import opened ByteOrder

  const TWO64: nat := 0x1_0000_0000_0000_0000
  const FNV_OFFSET: u64 := 0xcbf2_9ce4_8422_2325
  const FNV_PRIME: u64 := 0x100_0000_01b3

  /** The inverse of the prime modulo 2^64. */
  const PRIME_INVERSE: u64 := 0xce96_5057_aff6_957b

  type u64 = x: nat | x < 0x1_0000_0000_0000_0000

  function LowBit(a: nat, b: nat): nat {
    if a % 2 == b % 2 then 0 else 1
  }

  /** Exclusive or, bit by bit from the lowest. */
  function Xor(a: nat, b: nat): nat
    decreases a + b
  {
    if a + b == 0 then 0 else LowBit(a, b) + 2 * Xor(a / 2, b / 2)
  }

  lemma {:induction false} XorBounded(a: nat, b: nat, bits: nat)
    requires a < Pow2(bits) && b < Pow2(bits)
    ensures Xor(a, b) < Pow2(bits)
  {
    if bits > 0 && a + b > 0 {
      XorBounded(a / 2, b / 2, bits - 1);
    }
  }

  lemma Halved(bit: nat, rest: nat)
    requires bit < 2
    ensures (bit + 2 * rest) % 2 == bit && (bit + 2 * rest) / 2 == rest
  {
  }

  lemma XorUnfolds(a: nat, b: nat)
    ensures Xor(a, b) == LowBit(a, b) + 2 * Xor(a / 2, b / 2)
  {
    if a + b == 0 {
      assert Xor(0, 0) == 0;
    }
  }

  /** The lowest bit and the other bits of an exclusive or. */
  lemma XorBits(a: nat, b: nat)
    ensures Xor(a, b) % 2 == LowBit(a, b)
    ensures Xor(a, b) / 2 == Xor(a / 2, b / 2)
  {
    XorUnfolds(a, b);
    Halved(LowBit(a, b), Xor(a / 2, b / 2));
  }

  lemma {:induction false} XorUndoes(a: nat, b: nat)
    ensures Xor(Xor(a, b), b) == a
    decreases a + b
  {
    if a + b > 0 {
      XorUndoes(a / 2, b / 2);
      XorBits(a, b);
      XorBits(Xor(a, b), b);
      SameHalves(Xor(Xor(a, b), b), a);
    }
  }

  lemma SameHalves(x: nat, y: nat)
    requires x % 2 == y % 2 && x / 2 == y / 2
    ensures x == y
  {
  }

  /** The bits above those of `b` stay as they are. */
  lemma {:induction false} XorHigh(high: nat, low: nat, b: nat, bits: nat)
    requires low < Pow2(bits) && b < Pow2(bits)
    ensures Xor(high * Pow2(bits) + low, b) == high * Pow2(bits) + Xor(low, b)
  {
    if bits == 0 {
      XorZero(high);
    } else {
      var shifted := high * Pow2(bits - 1);
      Double(Pow2(bits - 1), high);
      assert high * Pow2(bits) == 2 * shifted;
      XorOneBit(shifted, low, b);
      XorHigh(high, low / 2, b / 2, bits - 1);
    }
  }

  lemma XorOneBit(high: nat, low: nat, b: nat)
    ensures Xor(2 * high + low, b) == LowBit(low, b) + 2 * Xor(high + low / 2, b / 2)
    ensures Xor(low, b) == LowBit(low, b) + 2 * Xor(low / 2, b / 2)
  {
    XorUnfolds(2 * high + low, b);
    XorUnfolds(low, b);
    assert (2 * high + low) / 2 == high + low / 2 && (2 * high + low) % 2 == low % 2;
  }

  lemma {:induction false} XorCommutes(a: nat, b: nat)
    ensures Xor(a, b) == Xor(b, a)
    decreases a + b
  {
    if a + b > 0 {
      XorCommutes(a / 2, b / 2);
    }
  }

  lemma Pow64()
    ensures Pow2(64) == TWO64
  {
    assert Pow2(8) == 256;
    PowSum(8, 8);
    assert Pow2(16) == 0x1_0000;
    PowSum(16, 16);
    assert Pow2(32) == 0x1_0000_0000;
    PowSum(32, 32);
  }

  function XorWord(hash: u64, b: u64): u64 {
    Pow64();
    XorBounded(hash, b, 64);
    Xor(hash, b)
  }

  function WrappingMul(a: u64, b: u64): u64 {
    (a * b) % TWO64
  }

  function Step(hash: u64, b: byte): u64 {
    WrappingMul(XorWord(hash, b), FNV_PRIME)
  }

  /** The hash before a step that read `b` and ended in `after`. */
  function Unstep(after: u64, b: byte): u64 {
    XorWord(WrappingMul(after, PRIME_INVERSE), b)
  }

  lemma WholeTurns(x: u64, turns: int)
    ensures (x + TWO64 * turns) % TWO64 == x
  {
  }

  /** The prime times its inverse is one more than a multiple of 2^64. */
  lemma MultiplyUndone(x: u64)
    ensures WrappingMul(WrappingMul(x, FNV_PRIME), PRIME_INVERSE) == x
    ensures WrappingMul(WrappingMul(x, PRIME_INVERSE), FNV_PRIME) == x
  {
    var k := 887285111055;
    assert FNV_PRIME * PRIME_INVERSE == 1 + k * TWO64;
    var q := x * FNV_PRIME / TWO64;
    assert WrappingMul(x, FNV_PRIME) * PRIME_INVERSE == x + TWO64 * (k * x - q * PRIME_INVERSE);
    WholeTurns(x, k * x - q * PRIME_INVERSE);
    var p := x * PRIME_INVERSE / TWO64;
    assert WrappingMul(x, PRIME_INVERSE) * FNV_PRIME == x + TWO64 * (k * x - p * FNV_PRIME);
    WholeTurns(x, k * x - p * FNV_PRIME);
  }

  /** A step is a bijection on hashes, and `Unstep` is its inverse. */
  lemma StepUndone(hash: u64, b: byte)
    ensures Unstep(Step(hash, b), b) == hash
    ensures Step(Unstep(hash, b), b) == hash
  {
    MultiplyUndone(XorWord(hash, b));
    XorUndoes(hash, b);
    XorUndoes(WrappingMul(hash, PRIME_INVERSE), b);
    MultiplyUndone(hash);
  }

  /** From the same hash, different bytes lead to different hashes. */
  lemma StepSeparates(hash: u64, b: byte, c: byte)
    requires Step(hash, b) == Step(hash, c)
    ensures b == c
  {
    MultiplyUndone(XorWord(hash, b));
    MultiplyUndone(XorWord(hash, c));
    XorCommutes(hash, b);
    XorCommutes(hash, c);
    XorUndoes(b, hash);
    XorUndoes(c, hash);
  }

  function Fnv(hash: u64, bytes: seq<byte>): u64
    decreases |bytes|
  {
    if bytes == [] then hash else Fnv(Step(hash, bytes[0]), bytes[1..])
  }

  function FingerprintOf(source: seq<byte>): u64 {
    Fnv(FNV_OFFSET, source)
  }

  lemma {:induction false} XorZero(a: nat)
    ensures Xor(a, 0) == a
  {
    if a > 0 {
      XorZero(a / 2);
    }
  }

  lemma FirstStep()
    ensures XorWord(FNV_OFFSET, 0x61) == 0xcbf2_9ce4_8422_2344
  {
    assert Pow2(8) == 256;
    assert Xor(0x25, 0x61) == 0x44;
    XorHigh(0xcb_f29c_e484_2223, 0x25, 0x61, 8);
  }

  lemma OneByte(hash: u64, source: seq<byte>)
    requires |source| == 1
    ensures Fnv(hash, source) == WrappingMul(XorWord(hash, source[0]), FNV_PRIME)
  {
    assert source[1..] == [];
  }

  /** The published FNV-1a test vector for the one-letter text "a". */
  lemma TestVector(source: seq<byte>)
    requires source == [0x61]
    ensures FingerprintOf(source) == 0xaf63_dc4c_8601_ec8c
  {
    FirstStep();
    OneByte(FNV_OFFSET, source);
    Product(XorWord(FNV_OFFSET, source[0]));
  }

  lemma Product(x: u64)
    requires x == 0xcbf2_9ce4_8422_2344
    ensures WrappingMul(x, FNV_PRIME) == 0xaf63_dc4c_8601_ec8c
  {
  }

  method FnvUpdate(hash: u64, bytes: seq<byte>) returns (updated: u64)
    ensures updated == Fnv(hash, bytes)
  {
    updated := hash;
    for i := 0 to |bytes|
      invariant Fnv(updated, bytes[i..]) == Fnv(hash, bytes)
    {
      assert bytes[i..][1..] == bytes[i + 1..];
      updated := XorWord(updated, bytes[i]);
      updated := WrappingMul(updated, FNV_PRIME);
    }
  }

  /** Hashing in pieces is hashing the whole. */
  lemma {:induction false} FnvConcat(hash: u64, a: seq<byte>, b: seq<byte>)
    ensures Fnv(hash, a + b) == Fnv(Fnv(hash, a), b)
    decreases |a|
  {
    if a == [] {
      assert a + b == b;
    } else {
      assert (a + b)[1..] == a[1..] + b;
      FnvConcat(Step(hash, a[0]), a[1..], b);
    }
  }

  /** Reading the same bytes keeps different hashes apart. */
  lemma {:induction false} FnvInjective(h: u64, g: u64, bytes: seq<byte>)
    requires Fnv(h, bytes) == Fnv(g, bytes)
    ensures h == g
    decreases |bytes|
  {
    if bytes != [] {
      FnvInjective(Step(h, bytes[0]), Step(g, bytes[0]), bytes[1..]);
      StepUndone(h, bytes[0]);
      StepUndone(g, bytes[0]);
    }
  }

  /** Equally long sources that differ in exactly one byte have different fingerprints. */
  lemma OneByteChangesFingerprint(a: seq<byte>, b: seq<byte>, at: nat)
    requires |a| == |b| && at < |a|
    requires forall i | 0 <= i < |a| :: a[i] == b[i] <==> i != at
    ensures FingerprintOf(a) != FingerprintOf(b)
  {
    var head, tail := a[..at], a[at + 1..];
    assert a == head + ([a[at]] + tail);
    assert b == head + ([b[at]] + tail);
    FnvConcat(FNV_OFFSET, head, [a[at]] + tail);
    FnvConcat(FNV_OFFSET, head, [b[at]] + tail);
    var before := Fnv(FNV_OFFSET, head);
    assert ([a[at]] + tail)[1..] == tail && ([b[at]] + tail)[1..] == tail;
    if FingerprintOf(a) == FingerprintOf(b) {
      FnvInjective(Step(before, a[at]), Step(before, b[at]), tail);
      StepSeparates(before, a[at], b[at]);
      assert false;
    }
  }

  // ---- fingerprints of several files

  function AllBytes(parts: seq<u64>): seq<byte> {
    if parts == [] then [] else LittleEndian(parts[0], 8) + AllBytes(parts[1..])
  }

  /** `combined_fingerprint`: every part's eight bytes in turn. */
  function CombinedFrom(hash: u64, parts: seq<u64>): u64
    decreases |parts|
  {
    if parts == [] then hash else CombinedFrom(Fnv(hash, LittleEndian(parts[0], 8)), parts[1..])
  }

  /** A combined fingerprint is the fingerprint of all the parts' bytes after one another. */
  lemma {:induction false} CombinedIsFingerprint(hash: u64, parts: seq<u64>)
    ensures CombinedFrom(hash, parts) == Fnv(hash, AllBytes(parts))
    decreases |parts|
  {
    if parts != [] {
      CombinedIsFingerprint(Fnv(hash, LittleEndian(parts[0], 8)), parts[1..]);
      FnvConcat(hash, LittleEndian(parts[0], 8), AllBytes(parts[1..]));
    }
  }

  /** The parts' bytes determine the parts, so a combined fingerprint separates all that its bytes separate. */
  lemma {:induction false} BytesDetermineParts(a: seq<u64>, b: seq<u64>)
    requires AllBytes(a) == AllBytes(b)
    ensures a == b
    decreases |a|
  {
    if a != [] && b != [] {
      var x, y := LittleEndian(a[0], 8), LittleEndian(b[0], 8);
      assert x == AllBytes(a)[..8] && y == AllBytes(b)[..8];
      assert AllBytes(a[1..]) == AllBytes(a)[8..] && AllBytes(b[1..]) == AllBytes(b)[8..];
      Pow64();
      LittleEndianRoundTrip(a[0], 8);
      LittleEndianRoundTrip(b[0], 8);
      BytesDetermineParts(a[1..], b[1..]);
      assert a == [a[0]] + a[1..] && b == [b[0]] + b[1..];
    }
  }
}
