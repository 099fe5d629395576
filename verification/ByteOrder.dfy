/** Numbers as bytes, the lowest byte first. */
module ByteOrder {
  type byte = x: nat | x < 256

  function Pow2(n: nat): (p: nat)
    ensures p > 0
  {
    if n == 0 then 1 else 2 * Pow2(n - 1)
  }

  lemma {:induction false} PowSum(m: nat, n: nat)
    ensures Pow2(m + n) == Pow2(m) * Pow2(n)
  {
    if m > 0 {
      PowSum(m - 1, n);
      Double(Pow2(m - 1), Pow2(n));
    }
  }

  lemma Double(a: nat, b: nat)
    ensures (2 * a) * b == 2 * (a * b)
  {
  }

  /** `to_le_bytes`, the lowest `count` bytes. */
  function LittleEndian(x: nat, count: nat): (bytes: seq<byte>)
    ensures |bytes| == count
  {
    if count == 0 then [] else [x % 256] + LittleEndian(x / 256, count - 1)
  }

  /** The byte at `k` counts 256 to the power of `k`. */
  function FromLittleEndian(bytes: seq<byte>): nat {
    if bytes == [] then 0 else bytes[0] + 256 * FromLittleEndian(bytes[1..])
  }

  lemma {:induction false} LittleEndianRoundTrip(x: nat, count: nat)
    requires x < Pow2(8 * count)
    ensures FromLittleEndian(LittleEndian(x, count)) == x
  {
    if count > 0 {
      PowSum(8, 8 * (count - 1));
      assert Pow2(8) == 256;
      LittleEndianRoundTrip(x / 256, count - 1);
      var rest := LittleEndian(x / 256, count - 1);
      assert ([x % 256] + rest)[1..] == rest;
    }
  }
}
