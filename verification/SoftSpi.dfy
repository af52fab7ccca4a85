/** Two software SPI transmitters and the byte exchange they both carry out: the interrupt-driven one of the AVRISP
    programmer (ISPTarget.c), whose shift register is shared with the interrupt routine, and USBasp's bit loop
    (isp.c). */
module SoftSpi {
  import opened Bytes
  import opened BitOrder
  import opened Timeout

  /** The levels a device puts on MISO, from its clock number `at` on. */
  function Received(miso: nat -> bool, at: nat, n: nat): (r: seq<bool>)
    ensures |r| == n
  {
    if n == 0 then [] else Received(miso, at, n - 1) + [miso(at + n - 1)]
  }

  /** Shifting a received bit into the register from the right drops the bit that was sent. */
  lemma ShiftRegister(d: byte, bit: bool)
    ensures Doubled(d) + Bit(bit) < 0x100
    ensures Bits(Doubled(d) + Bit(bit), 8) == Bits(d, 8)[1..] + [bit]
  {
    var y := if d >= 0x80 then d - 0x80 else d;
    assert Doubled(d) == 2 * y;
    var r := Doubled(d) + Bit(bit);
    forall j | 0 <= j < 8
      ensures Bits(r, 8)[j] == (Bits(d, 8)[1..] + [bit])[j]
    {
      BitsAt(r, 8, j);
      ShiftedIn(d, y, bit, j);
      if j < 7 {
        BitsAt(d, 8, j + 1);
      }
    }
  }

  lemma ShiftedIn(d: byte, y: nat, bit: bool, j: nat)
    requires j < 8 && y == if d >= 0x80 then d - 0x80 else d
    ensures Has(2 * y + Bit(bit), Weight(j)) == if j < 7 then Has(d, Weight(j + 1)) else bit
  {
    WeightValue(j);
    if j < 7 {
      WeightValue(j + 1);
      hide Weight, Has;
      MovedUp(y, bit, Weight(j + 1));
      if d >= 0x80 {
        DropTop(d, Weight(j + 1));
      }
    } else {
      hide Weight, Has;
      MovedUp(y, bit, 1);
    }
  }

  lemma FirstBit(d: byte)
    ensures Bits(d, 8)[0] == (d >= 0x80)
  {
    BitsAt(d, 8, 0);
    WeightValue(0);
  }

  lemma NextBitOut(d: byte, all: seq<bool>, received: seq<bool>, k: nat, first: nat)
    requires |all| == 8 && first <= k < 8 && Bits(d, 8) == all[k..] + received
    ensures all[first..k] + [d >= 0x80] == all[first..k + 1]
  {
    FirstBit(d);
    assert (all[k..] + received)[0] == all[k];
  }

  lemma NextBitIn(d: byte, all: seq<bool>, received: seq<bool>, k: nat, bit: bool)
    requires |all| == 8 && k < 8 && Bits(d, 8) == all[k..] + received
    ensures Doubled(d) + Bit(bit) < 0x100
    ensures Bits(Doubled(d) + Bit(bit), 8) == all[k + 1..] + (received + [bit])
  {
    hide Bits;
    ShiftRegister(d, bit);
    assert (all[k..] + received)[1..] == all[k + 1..] + received;
  }

  /** The pins, the shift register and its bit count. The device samples MOSI when SCK rises and changes MISO when SCK
      falls; `sampled` is what it has taken, `falls` the number of its clocks. */
  class Port {
    var SoftSPI_Data: byte
    var SoftSPI_BitsRemaining: byte
    var timerRuns: bool
    var sck: bool
    var mosi: bool
    var falls: nat
    ghost var sampled: seq<bool>
    const miso: nat -> bool
    const timeout: Timer

    constructor (device: nat -> bool)
      ensures !sck && !mosi && !timerRuns && SoftSPI_Data == SoftSPI_BitsRemaining == 0
      ensures sampled == [] && falls == 0 && miso == device && fresh(timeout)
    {
      SoftSPI_Data, SoftSPI_BitsRemaining, timerRuns, sck, mosi, falls, sampled := 0, 0, false, false, false, 0, [];
      miso := device;
      timeout := new Timer([]);
    }

    /** The clock pin: on a rising edge the device takes the data line. */
    method SetSck(level: bool)
      modifies this`sck, this`sampled, this`falls
      ensures sck == level
      ensures sampled == old(sampled) + if level && !old(sck) then [mosi] else []
      ensures falls == old(falls) + Bit(!level && old(sck))
    {
      if level && !sck {
        sampled := sampled + [mosi];
      } else if !level && sck {
        falls := falls + 1;
      }
      sck := level;
    }

    /** One full-duplex byte, most significant bit first, as a device sees it. */
    twostate predicate Exchanged(b: byte, r: byte)
      reads this
    {
      && !sck && falls == old(falls) + 8
      && sampled == old(sampled) + Bits(b, 8)
      && Bits(r, 8) == Received(miso, old(falls), 8)
    }

    /** After `k` bits of `b` the register holds the unsent bits above the received ones. A clock that was high at
        the start (`skipped`) costs the device the first bit. */
    ghost predicate Midway(b: byte, k: nat, skipped: bool, start: nat, taken: seq<bool>)
      requires k <= 8
      reads this
    {
      var n := k + Bit(sck);
      && Bits(SoftSPI_Data, 8) == Bits(b, 8)[k..] + Received(miso, start, k)
      && SoftSPI_BitsRemaining == 8 - k && timerRuns == (k < 8) && falls == start + k
      && Bit(skipped) <= n <= 8 && sampled == taken + Bits(b, 8)[Bit(skipped)..n]
    }

    /** The compare interrupt, which the waiting loop can only see as a whole. */
    method TimerInterrupt(ghost b: byte, ghost k: nat, ghost skipped: bool, ghost start: nat, ghost taken: seq<bool>)
      requires timerRuns && k < 8 && Midway(b, k, skipped, start, taken)
      modifies this
      ensures sck == !old(sck)
      ensures Midway(b, k + Bit(old(sck)), skipped, start, taken)
    {
      hide Bits, Doubled;
      if !sck {
        NextBitOut(SoftSPI_Data, Bits(b, 8), Received(miso, start, k), k, Bit(skipped));
        mosi := SoftSPI_Data >= 0x80;
      } else {
        NextBitIn(SoftSPI_Data, Bits(b, 8), Received(miso, start, k), k, miso(falls));
        SoftSPI_Data := Doubled(SoftSPI_Data);
        SoftSPI_BitsRemaining := SoftSPI_BitsRemaining - 1;
        if SoftSPI_BitsRemaining == 0 {
          timerRuns := false;
        }
        if miso(falls) {
          SoftSPI_Data := SoftSPI_Data + 1;
        }
      }
      SetSck(!sck);
    }

    /** ISPTarget_TransferSoftSPIByte, with the interrupt coming at any time, and the timeout too. A byte that
        completes is exchanged as a whole if the clock was low at the start; otherwise the device has got only seven
        of its bits. */
    method TransferSoftSPIByte(b: byte) returns (r: byte, ghost k: nat)
      modifies this, timeout
      ensures k <= 8 && (timeout.ticks > 0 ==> k == 8)
      ensures k == 8 ==> !sck && Bits(r, 8) == Received(miso, old(falls), 8)
      ensures k == 8 ==> sampled == old(sampled) + Bits(b, 8)[Bit(old(sck))..]
      ensures k == 8 ==> (Exchanged(b, r) <==> !old(sck))
      ensures falls == old(falls) + k && !timerRuns
      ensures k == 0 && sck == old(sck) ==> mosi == (b >= 0x80)
    {
      hide Bits;
      ghost var start, taken, skipped := falls, sampled, sck;
      SoftSPI_Data := b;
      SoftSPI_BitsRemaining := 8;
      mosi := SoftSPI_Data >= 0x80;
      timerRuns := true;
      k := 0;
      while SoftSPI_BitsRemaining > 0 && timeout.ticks > 0
        invariant k <= 8 && Midway(b, k, skipped, start, taken)
        invariant k == 0 && sck == skipped ==> mosi == (b >= 0x80)
        invariant k == 8 ==> !sck
        decreases timeout.ticks, timeout.UntilTick()
      {
        timeout.Elapse();
        var fires: bool := *;
        if fires {
          ghost var clocked := sck;
          TimerInterrupt(b, k, skipped, start, taken);
          k := k + Bit(clocked);
        }
      }
      var late: bool := *;
      if timerRuns && late {
        ghost var clocked := sck;
        TimerInterrupt(b, k, skipped, start, taken);
        k := k + Bit(clocked);
      }
      timerRuns := false;
      r := SoftSPI_Data;
    }

    /** ispTransmit_sw: MISO is read before the clock rises, and the same byte is exchanged. */
    method IspTransmitSw(sendByte: byte) returns (recByte: byte)
      requires !sck
      modifies this`sck, this`mosi, this`falls, this`sampled
      ensures Exchanged(sendByte, recByte)
    {
      hide Bits, Weight;
      var send := sendByte;
      recByte := 0;
      ghost var zeros := Bits(0, 8);
      for i := 0 to 8
        invariant !sck && falls == old(falls) + i && send == Shifted(sendByte, i)
        invariant sampled == old(sampled) + Bits(sendByte, i)
        invariant Bits(recByte, 8) == zeros[i..] + Received(miso, old(falls), i)
      {
        TopBit(sendByte, i);
        ShiftRegister(recByte, miso(falls));
        mosi := send >= 0x80;
        send := Doubled(send);
        recByte := Doubled(recByte);
        if miso(falls) {
          recByte := recByte + 1;
        }
        assert (zeros[i..] + Received(miso, old(falls), i))[1..] == zeros[i + 1..] + Received(miso, old(falls), i);
        SetSck(true);
        SetSck(false);
      }
    }
  }
}
