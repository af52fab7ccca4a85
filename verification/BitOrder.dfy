/** Bytes as bit sequences, most significant bit first, as they go over a wire. */
module BitOrder {
  import opened Bytes

  /** Weight of the bit that is sent as number `i`. */
  function Weight(i: nat): nat
    requires i < 8
  {
    Pow2(7 - i)
  }

  /** The leading bits of a byte. */
  function Bits(b: byte, n: nat): (r: seq<bool>)
    requires n <= 8
    ensures |r| == n
  {
    if n == 0 then [] else Bits(b, n - 1) + [Has(b, Weight(n - 1))]
  }

  lemma {:induction false} BitsPrefix(b: byte, n: nat, m: nat)
    requires n <= m <= 8
    ensures Bits(b, m)[..n] == Bits(b, n)
    decreases m
  {
    if n < m {
      BitsPrefix(b, n, m - 1);
    }
  }

  lemma {:induction false} BitsAt(b: byte, n: nat, i: nat)
    requires i < n <= 8
    ensures Bits(b, n)[i] == Has(b, Weight(i))
  {
    if i < n - 1 {
      BitsAt(b, n - 1, i);
    }
  }

  /** `b <<= 1` on a byte. */
  function Doubled(b: byte): byte {
    (2 * b) % 0x100
  }

  /** What that leaves after `i` turns. */
  function Shifted(b: byte, i: nat): byte {
    if i == 0 then b else Doubled(Shifted(b, i - 1))
  }

  lemma WeightValue(i: nat)
    requires i < 8
    ensures Weight(i) == [128, 64, 32, 16, 8, 4, 2, 1][i]
  {
    assert Pow2(1) == 2 && Pow2(2) == 4 && Pow2(3) == 8;
    assert Pow2(4) == 16 && Pow2(5) == 32;
    assert Pow2(6) == 64 && Pow2(7) == 128;
  }

  /** Shifting in a bit moves the others up by one. */
  lemma MovedUp(v: nat, bit: bool, w: nat)
    requires w in {1, 2, 4, 8, 16, 32, 64}
    ensures Has(2 * v + Bit(bit), 2 * w) == Has(v, w)
    ensures Has(2 * v + Bit(bit), 1) == bit
  {
    var x := 2 * v + Bit(bit);
    assert x / 2 == v;
    assert x / (2 * w) == v / w by {
      if w == 1 { assert x / 2 == v / 1; }
      else if w == 2 { assert x / 4 == v / 2; }
      else if w == 4 { assert x / 8 == v / 4; }
      else if w == 8 { assert x / 16 == v / 8; }
      else if w == 16 { assert x / 32 == v / 16; }
      else if w == 32 { assert x / 64 == v / 32; }
      else { assert x / 128 == v / 64; }
    }
  }

  /** The top bit does not show in the others. */
  lemma DropTop(x: byte, w: nat)
    requires w in {1, 2, 4, 8, 16, 32, 64} && x >= 0x80
    ensures Has(x - 0x80, w) == Has(x, w)
  {
    if w == 1 { assert (x - 0x80) / 1 == x / 1 - 128; }
    else if w == 2 { assert (x - 0x80) / 2 == x / 2 - 64; }
    else if w == 4 { assert (x - 0x80) / 4 == x / 4 - 32; }
    else if w == 8 { assert (x - 0x80) / 8 == x / 8 - 16; }
    else if w == 16 { assert (x - 0x80) / 16 == x / 16 - 8; }
    else if w == 32 { assert (x - 0x80) / 32 == x / 32 - 4; }
    else { assert (x - 0x80) / 64 == x / 64 - 2; }
  }

  lemma DoubledBit(x: byte, j: nat)
    requires j < 7
    ensures Has(Doubled(x), Weight(j)) == Has(x, Weight(j + 1))
  {
    WeightValue(j);
    WeightValue(j + 1);
    hide Weight, Pow2, Has;
    var y := if x >= 0x80 then x - 0x80 else x;
    assert Doubled(x) == 2 * y;
    MovedUp(y, false, Weight(j + 1));
    if x >= 0x80 {
      DropTop(x, Weight(j + 1));
    }
  }

  /** The top bit of the register is the next bit to send. */
  lemma {:induction false} ShiftedBit(b: byte, i: nat, j: nat)
    requires i + j < 8
    ensures Has(Shifted(b, i), Weight(j)) == Has(b, Weight(i + j))
    decreases i
  {
    if i > 0 {
      DoubledBit(Shifted(b, i - 1), j);
      ShiftedBit(b, i - 1, j + 1);
    }
  }

  lemma TopBit(b: byte, i: nat)
    requires i < 8
    ensures Shifted(b, i) >= 0x80 <==> Has(b, Weight(i))
    ensures Bits(b, i + 1) == Bits(b, i) + [Shifted(b, i) >= 0x80]
  {
    ShiftedBit(b, i, 0);
    WeightValue(0);
    hide Weight;
  }

  /** What shifting received bits in from the right makes of them. */
  function Value(bits: seq<bool>): (v: nat)
    ensures v < Pow2(|bits|)
  {
    if bits == [] then 0 else 2 * Value(bits[..|bits| - 1]) + Bit(bits[|bits| - 1])
  }

  lemma {:induction false} ValueBit(bits: seq<bool>, i: nat)
    requires i < |bits| <= 8
    ensures Has(Value(bits), Weight(8 - |bits| + i)) == bits[i]
  {
    var n := |bits| - 1;
    var w := 8 - |bits| + i;
    WeightValue(w);
    if i < n {
      ValueBit(bits[..n], i);
      WeightValue(w + 1);
      hide Weight;
      MovedUp(Value(bits[..n]), bits[n], Weight(w + 1));
    } else {
      hide Weight;
      MovedUp(Value(bits[..n]), bits[n], 1);
    }
  }

  /** The received byte has the received bits. */
  lemma BitsOfValue(bits: seq<bool>)
    requires |bits| == 8
    ensures Value(bits) < 0x100 && Bits(Value(bits), 8) == bits
  {
    assert Pow2(8) == 0x100 by {
      assert Pow2(4) == 16;
    }
    forall i | 0 <= i < 8
      ensures Bits(Value(bits), 8)[i] == bits[i]
    {
      ValueBit(bits, i);
      BitsAt(Value(bits), 8, i);
    }
  }

  /** ... and sending a byte and shifting the bits in again gives the byte. */
  lemma ValueOfBits(x: byte)
    ensures Value(Bits(x, 8)) == x
  {
    ValueOfLeadingBits(x, 8);
    assert Pow2(0) == 1;
  }

  lemma {:induction false} ValueOfLeadingBits(x: byte, n: nat)
    requires n <= 8
    ensures Value(Bits(x, n)) == x / Pow2(8 - n)
  {
    if n > 0 {
      ValueOfLeadingBits(x, n - 1);
      assert Bits(x, n)[..n - 1] == Bits(x, n - 1);
      var w := Pow2(8 - n);
      WeightValue(n - 1);
      assert w == Weight(n - 1);
      hide Pow2, Weight;
      assert x / (2 * w) == (x / w) / 2 by {
        HalfDiv(x, w);
      }
    } else {
      assert Pow2(8) == 0x100 by {
        assert Pow2(4) == 16;
      }
    }
  }

  lemma HalfDiv(x: nat, w: nat)
    requires w in {1, 2, 4, 8, 16, 32, 64, 128}
    ensures x / (2 * w) == (x / w) / 2
  {
    if w == 1 { assert x / 2 == (x / 1) / 2; }
    else if w == 2 { assert x / 4 == (x / 2) / 2; }
    else if w == 4 { assert x / 8 == (x / 4) / 2; }
    else if w == 8 { assert x / 16 == (x / 8) / 2; }
    else if w == 16 { assert x / 32 == (x / 16) / 2; }
    else if w == 32 { assert x / 64 == (x / 32) / 2; }
    else if w == 64 { assert x / 128 == (x / 64) / 2; }
    else { assert x / 256 == (x / 128) / 2; }
  }
}
