/** The functions of i2c.c as they run: direction bits switched one at a time, each switch visible on the wires. */
module I2cMaster {
  import opened Bytes
  import opened BitOrder
  import opened I2cWave

  const I2C_ACK: byte := 0
  const I2C_READ: byte := 1

  lemma {:induction false} ClockSteps(m: Monitor, op: Op, slave: Slave, k: nat, sda: bool, n: nat)
    requires n > 0
    ensures var before := if n == 1 then sda else Driven(op, n - 2);
            var pull := slave(k + n - 1);
            var level := Driven(op, n - 1) && !pull;
            m.SeeAll(ClockWave(op, slave, k, sda, n)) ==
            m.SeeAll(ClockWave(op, slave, k, sda, n - 1))
            .See(Line(false, before && !pull)).See(Line(false, level)).See(Line(true, level))
  {
    hide Monitor.SeeAll, Monitor.See;
    var before := if n == 1 then sda else Driven(op, n - 2);
    var pull := slave(k + n - 1);
    var level := Driven(op, n - 1) && !pull;
    var front := ClockWave(op, slave, k, sda, n - 1);
    SeeSnoc(m, front, Line(false, before && !pull));
    SeeSnoc(m, front + [Line(false, before && !pull)], Line(false, level));
    SeeSnoc(m, front + [Line(false, before && !pull)] + [Line(false, level)], Line(true, level));
    assert ClockWave(op, slave, k, sda, n) ==
           front + [Line(false, before && !pull)] + [Line(false, level)] + [Line(true, level)];
  }

  /** Looking twice at the same levels changes nothing. */
  lemma SeeAgain(m: Monitor, l: Line)
    ensures m.See(l).See(l) == m.See(l)
  {
  }

  lemma WaveEnd(m: Monitor, op: Op, slave: Slave, k: nat, sda: bool)
    ensures var t := m.SeeAll(ClockWave(op, slave, k, sda, Clocks(op)));
            m.SeeAll(Wave(op, slave, k, sda)) ==
            match op
            case SendStart => t.See(Line(true, false))
            case SendStop => t.See(Line(true, !slave(k)))
            case _ => t
  {
    hide Monitor.SeeAll, Monitor.See, ClockWave;
    var front := ClockWave(op, slave, k, sda, Clocks(op));
    if op.SendStart? {
      SeeSnoc(m, front, Line(true, false));
    } else if op.SendStop? {
      SeeSnoc(m, front, Line(true, !slave(k)));
    } else {
      assert front + [] == front;
    }
  }

  class Master {
    /** The direction bits: an output drives the wire low, an input releases it. */
    var sdaLow: bool
    var sclLow: bool

    const slave: Slave
    var pull: bool
    var clocks: nat
    ghost var seen: Monitor

    constructor (device: Slave)
      ensures slave == device && Free() && seen.log == [] && clocks == 0 && Level()
    {
      slave := device;
      sdaLow, sclLow, pull, clocks, seen := false, false, false, 0, Monitor(Line(true, true), [], []);
    }

    function Level(): bool
      reads this
    {
      !sdaLow && !pull
    }

    /** SCL is released at every call boundary, and the monitor is between two bytes. */
    ghost predicate Free()
      reads this
    {
      !sclLow && seen.AtRest()
    }

    /** The operation is what the monitor saw. */
    twostate predicate Performed(op: Op)
      reads this
    {
      && clocks == old(clocks) + Clocks(op)
      && seen == old(seen).SeeAll(Wave(op, slave, old(clocks), !old(sdaLow)))
      && sdaLow == !Leaves(op) && !sclLow
    }

    method SclLow()
      requires !sclLow
      modifies this
      ensures sclLow && sdaLow == old(sdaLow) && clocks == old(clocks) + 1 && pull == slave(old(clocks))
      ensures seen == old(seen).See(Line(false, Level()))
    {
      sclLow := true;
      pull := slave(clocks);
      clocks := clocks + 1;
      seen := seen.See(Line(false, Level()));
    }

    method SclHigh()
      modifies this`sclLow, this`seen
      ensures !sclLow && seen == old(seen).See(Line(true, Level()))
    {
      sclLow := false;
      seen := seen.See(Line(true, Level()));
    }

    method SdaLow()
      modifies this`sdaLow, this`seen
      ensures sdaLow && seen == old(seen).See(Line(!sclLow, false))
    {
      sdaLow := true;
      seen := seen.See(Line(!sclLow, Level()));
    }

    method SdaHigh()
      modifies this`sdaLow, this`seen
      ensures !sdaLow && seen == old(seen).See(Line(!sclLow, !pull))
    {
      sdaLow := false;
      seen := seen.See(Line(!sclLow, Level()));
    }

    /** A START condition, unless the device holds SDA low. */
    method StartCondition()
      requires Free()
      modifies this
      ensures Performed(SendStart)
      ensures !slave(old(clocks)) <==> Free() && seen.log == old(seen).log + [Start]
    {
      hide Monitor.See, Monitor.SeeAll, Wave;
      ClockSteps(seen, SendStart, slave, clocks, !sdaLow, 1);
      NoClocks(seen, SendStart, slave, clocks, !sdaLow);
      WaveEnd(seen, SendStart, slave, clocks, !sdaLow);
      ConditionSeen(seen, SendStart, slave, clocks, !sdaLow);
      SclLow();
      SdaHigh();
      SclHigh();
      SdaLow();
    }

    method StopCondition()
      requires Free()
      modifies this
      ensures Performed(SendStop)
      ensures !slave(old(clocks)) <==> Free() && seen.log == old(seen).log + [Stop]
    {
      hide Monitor.See, Monitor.SeeAll, Wave;
      ClockSteps(seen, SendStop, slave, clocks, !sdaLow, 1);
      NoClocks(seen, SendStop, slave, clocks, !sdaLow);
      WaveEnd(seen, SendStop, slave, clocks, !sdaLow);
      ConditionSeen(seen, SendStop, slave, clocks, !sdaLow);
      SclLow();
      SdaLow();
      SclHigh();
      SdaHigh();
    }

    /** One bit out. */
    method PutBit(bit: bool)
      requires !sclLow
      modifies this
      ensures !sclLow && sdaLow == !bit && clocks == old(clocks) + 1 && pull == slave(old(clocks))
      ensures var level := bit && !pull;
              seen == old(seen).See(Line(false, !old(sdaLow) && !pull)).See(Line(false, level)).See(Line(true, level))
    {
      hide Monitor.See;
      SclLow();
      if bit {
        SdaHigh();
      } else {
        SdaLow();
      }
      SclHigh();
    }

    /** The loop over the data bits of a byte to send. */
    method ShiftOut(b: byte)
      requires Free()
      modifies this
      ensures !sclLow && clocks == old(clocks) + 8 && sdaLow == !Driven(Send(b), 7)
      ensures seen == old(seen).SeeAll(ClockWave(Send(b), slave, old(clocks), !old(sdaLow), 8))
    {
      hide Monitor.See, Monitor.SeeAll, ClockWave, Weight, Doubled;
      ghost var m, k, sda := seen, clocks, !sdaLow;
      NoClocks(m, Send(b), slave, k, sda);
      var shifted := b;
      for i := 0 to 8
        invariant !sclLow && clocks == k + i && shifted == Shifted(b, i)
        invariant seen == m.SeeAll(ClockWave(Send(b), slave, k, sda, i))
        invariant !sdaLow == if i == 0 then sda else Driven(Send(b), i - 1)
      {
        TopBit(b, i);
        ClockSteps(m, Send(b), slave, k, sda, i + 1);
        PutBit(shifted >= 0x80);
        shifted := Doubled(shifted);
      }
    }

    /** A byte and its acknowledge. */
    method SendByte(b: byte) returns (acked: byte)
      requires Free()
      modifies this
      ensures Performed(Send(b)) && Free()
      ensures seen.log == old(seen).log + [Meaning(Send(b), slave, old(clocks))]
      ensures acked == if slave(old(clocks) + 8) then 1 else 0
    {
      hide Monitor.See, Monitor.SeeAll, Wave, ClockWave, Meaning, Weight;
      ClockSteps(seen, Send(b), slave, clocks, !sdaLow, 9);
      WaveEnd(seen, Send(b), slave, clocks, !sdaLow);
      ByteSeen(seen, Send(b), slave, clocks, !sdaLow);
      ShiftOut(b);
      PutBit(true);
      acked := if Level() then 0 else 1;
    }

    /** The device's eight bits. */
    method ShiftIn(ghost ack: bool) returns (result: byte)
      requires Free()
      modifies this
      ensures !sclLow && clocks == old(clocks) + 8 && !sdaLow
      ensures seen == old(seen).SeeAll(ClockWave(Receive(ack), slave, old(clocks), !old(sdaLow), 8))
      ensures result == Value(SlaveBits(slave, old(clocks), 8))
    {
      hide Monitor.See, Monitor.SeeAll, ClockWave, Value, SlaveBits, Pow2;
      ghost var m, k, sda, op := seen, clocks, !sdaLow, Receive(ack);
      NoClocks(m, op, slave, k, sda);
      ClockSteps(m, op, slave, k, sda, 1);
      PutBit(true);
      result := Bit(Level());
      NextBit(slave, k, 0);
      for i := 0 to 7
        invariant !sclLow && !sdaLow && clocks == k + i + 1
        invariant seen == m.SeeAll(ClockWave(op, slave, k, sda, i + 1))
        invariant result == Value(SlaveBits(slave, k, i + 1))
      {
        ClockSteps(m, op, slave, k, sda, i + 2);
        NextBit(slave, k, i + 1);
        ghost var before := seen;
        SclLow();
        SeeAgain(before, Line(false, Level()));
        SclHigh();
        result := 2 * result + Bit(Level());
      }
    }

    method ReadByte(ack: byte) returns (result: byte)
      requires Free()
      modifies this
      ensures Performed(Receive(ack == I2C_ACK)) && Free()
      ensures seen.log == old(seen).log + [Meaning(Receive(ack == I2C_ACK), slave, old(clocks))]
      ensures Bits(result, 8) == SlaveBits(slave, old(clocks), 8)
    {
      hide Monitor.See, Monitor.SeeAll, Wave, ClockWave, Meaning, Value, Bits;
      ghost var op := Receive(ack == I2C_ACK);
      ClockSteps(seen, op, slave, clocks, !sdaLow, 9);
      WaveEnd(seen, op, slave, clocks, !sdaLow);
      ByteSeen(seen, op, slave, clocks, !sdaLow);
      BitsOfValue(SlaveBits(slave, clocks, 8));
      result := ShiftIn(ack == I2C_ACK);
      PutBit(ack != I2C_ACK);
    }

    /** The address byte, with the direction in its lowest bit. */
    method Address(address: byte, rw: byte) returns (acked: byte)
      requires Free()
      modifies this
      ensures var b: byte := if rw == I2C_READ then SetBit(address, 1) else ClearBit(address, 1);
              && Performed(Send(b)) && Free()
              && seen.log == old(seen).log + [Meaning(Send(b), slave, old(clocks))]
    {
      acked := SendByte(if rw == I2C_READ then SetBit(address, 1) else ClearBit(address, 1));
    }
  }

  /** Shifting in one more received bit does not overflow the byte. */
  lemma NextBit(slave: Slave, k: nat, n: nat)
    requires n < 8
    ensures Value(SlaveBits(slave, k, n)) < 0x80
    ensures Value(SlaveBits(slave, k, n + 1)) == 2 * Value(SlaveBits(slave, k, n)) + Bit(!slave(k + n))
    ensures n == 0 ==> Value(SlaveBits(slave, k, n)) == 0
  {
    assert SlaveBits(slave, k, n + 1)[..n] == SlaveBits(slave, k, n);
    Pow2Grows(n, 7);
    assert Pow2(7) == 0x80 by {
      assert Pow2(4) == 16;
    }
  }

  lemma {:induction false} Pow2Grows(n: nat, m: nat)
    requires n <= m
    ensures Pow2(n) <= Pow2(m)
    decreases m - n
  {
    if n < m {
      Pow2Grows(n + 1, m);
    }
  }

  lemma NoClocks(m: Monitor, op: Op, slave: Slave, k: nat, sda: bool)
    ensures m.SeeAll(ClockWave(op, slave, k, sda, 0)) == m
  {
  }
}
