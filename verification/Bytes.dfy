/** Machine integers of the firmware, as ranges of `int`. Bits are read and written by arithmetic, so
    every truncation of the C code is visible. */
module Bytes {
  type byte = b: int | 0 <= b < 0x100
  type word = w: int | 0 <= w < 0x1_0000
  type long = l: int | 0 <= l < 0x1_0000_0000

  /** Whether the bit of the given weight (a power of two) is set. */
  predicate Has(v: nat, weight: nat)
    requires weight > 0
  {
    (v / weight) % 2 == 1
  }

  function Bit(b: bool): nat {
    if b then 1 else 0
  }

  /** `v | weight` for a weight that is a single bit. */
  function SetBit(v: nat, weight: nat): nat
    requires weight > 0
  {
    if Has(v, weight) then v else v + weight
  }

  /** `v & ~weight` for a weight that is a single bit. */
  function ClearBit(v: nat, weight: nat): nat
    requires weight > 0
  {
    if Has(v, weight) && weight <= v then v - weight else v
  }

  /** `v ^ weight` for a weight that is a single bit. */
  function ToggleBit(v: nat, weight: nat): nat
    requires weight > 0
  {
    if Has(v, weight) then ClearBit(v, weight) else v + weight
  }

  function Low(w: nat): byte {
    w % 0x100
  }

  function High(w: nat): byte {
    (w / 0x100) % 0x100
  }

  function Join(hi: nat, lo: nat): nat {
    hi * 0x100 + lo
  }

  lemma Residue(x: nat, k: nat, r: nat)
    requires r < 0x1_0000 && x == k * 0x1_0000 + r
    ensures x % 0x1_0000 == r
  {
  }

  /** The two bytes of the low 16 bits make them up again. */
  lemma JoinWord(a: nat)
    ensures Join(High(a), Low(a)) == a % 0x1_0000
  {
    var q, l := a / 0x100, a % 0x100;
    var h, m := q / 0x100, q % 0x100;
    Residue(a, h, m * 0x100 + l);
  }

  /** Bitwise AND, bit by bit. */
  function And(a: nat, b: nat): (r: nat)
    ensures r <= a && r <= b
    decreases a
  {
    if a == 0 || b == 0 then 0 else 2 * And(a / 2, b / 2) + (a % 2) * (b % 2)
  }

  /** An erased cell takes any byte, and a byte of ones leaves any cell alone. */
  lemma {:induction false} AndOnes(k: nat, ones: nat, limit: nat, b: nat)
    requires ones + 1 == limit == Pow2(k)
    requires b < limit
    ensures And(ones, b) == b && And(b, ones) == b
    decreases k
  {
    if k > 0 && b > 0 {
      assert ones == 2 * (ones / 2) + 1;
      AndOnes(k - 1, ones / 2, limit / 2, b / 2);
    }
  }

  function Pow2(k: nat): (p: nat)
    ensures p > 0
  {
    if k == 0 then 1 else 2 * Pow2(k - 1)
  }

  lemma AndErased(b: byte)
    ensures And(0xFF, b) == b && And(b, 0xFF) == b
  {
    assert Pow2(8) == 256 by {
      assert Pow2(4) == 16;
    }
    AndOnes(8, 0xFF, 0x100, b);
  }

  /** Concatenation of a sequence of packets. */
  function Concat<T>(parts: seq<seq<T>>): seq<T> {
    if parts == [] then [] else Concat(parts[..|parts| - 1]) + parts[|parts| - 1]
  }

  function Zeros(n: nat): (r: seq<byte>)
    ensures |r| == n && forall i | 0 <= i < n :: r[i] == 0
  {
    if n == 0 then [] else Zeros(n - 1) + [0]
  }
}
