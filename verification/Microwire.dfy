/** Sending bits to a MicroWire memory (microwire.cpp): the leading bits of a byte, one clock each. */
module Microwire {
  import opened Bytes
  import opened BitOrder

  /** The pins; the memory takes the data line when the clock rises. */
  class Port {
    var mosi: bool
    var sck: bool
    ghost var taken: seq<bool>

    constructor ()
      ensures taken == [] && !sck && !mosi
    {
      mosi, sck, taken := false, false, [];
    }

    method DigitalWriteSck(level: bool)
      modifies this`sck, this`taken
      ensures sck == level
      ensures taken == if level && !old(sck) then old(taken) + [mosi] else old(taken)
    {
      if level && !sck {
        taken := taken + [mosi];
      }
      sck := level;
    }

    /** The memory gets exactly the first `n` bits, most significant first, and the clock ends low. */
    method SendData(data: byte, n: byte)
      requires !sck && n <= 8
      modifies this
      ensures !sck && taken == old(taken) + Bits(data, n)
    {
      for i := 0 to n
        invariant !sck && taken == old(taken) + Bits(data, i)
      {
        mosi := Has(data, Weight(i));
        DigitalWriteSck(true);
        DigitalWriteSck(false);
      }
    }
  }
}
