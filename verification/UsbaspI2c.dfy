/** The I2C requests of the USBasp application on the wires: what a bus monitor reports for a random read, which is an
    I2C_WRITE of the memory address, a repeated START and an I2C_READ (main.c, i2c.c). */
module UsbaspI2c {
  import opened Bytes
  import opened BitOrder
  import opened UsbaspApp
  import I2cWave

  type Op = I2cWave.Op

  /** The bus function behind one of the application's I2C events. */
  function OpOf(e: Bus): seq<Op> {
    match e
    case Start => [I2cWave.SendStart]
    case Stop => [I2cWave.SendStop]
    case Tx(b) => [I2cWave.Send(b)]
    case Rx(_, ack) => [I2cWave.Receive(ack)]
    case _ => []
  }

  function OpsOf(bus: seq<Bus>): seq<Op> {
    if bus == [] then [] else OpsOf(bus[..|bus| - 1]) + OpOf(bus[|bus| - 1])
  }

  lemma {:induction false} OpsOfAppend(x: seq<Bus>, y: seq<Bus>)
    ensures OpsOf(x + y) == OpsOf(x) + OpsOf(y)
    decreases |y|
  {
    hide OpOf;
    if y == [] {
      assert x + y == x;
    } else {
      var z := y[..|y| - 1];
      OpsOfAppend(x, z);
      assert (x + y)[..|x + y| - 1] == x + z;
    }
  }

  /** `k` of `n` receptions: the last of the `n` is not acknowledged. */
  function Receptions(k: nat, n: nat): (r: seq<Op>)
    ensures |r| == k
    ensures forall i | 0 <= i < k :: r[i] == I2cWave.Receive(i != n - 1)
  {
    if k == 0 then [] else Receptions(k - 1, n) + [I2cWave.Receive(k != n)]
  }

  lemma {:induction false} SentOps(a: App, data: seq<byte>)
    requires a.prog.I2cWrite? && |data| <= a.nbytes
    ensures OpsOf(a.Sent(data).bus) == OpsOf(a.bus) + I2cWave.Sends(data)
  {
    hide OpsOf, App.Closing;
    if data != [] {
      var t := a.Sent(data[..|data| - 1]);
      SentOps(a, data[..|data| - 1]);
      OpsOfAppend(t.bus, [Tx(data[|data| - 1])]);
      OneOp(Tx(data[|data| - 1]));
    }
  }

  lemma OneOp(e: Bus)
    ensures OpsOf([e]) == OpOf(e)
  {
    assert [e][..0] == [];
  }

  lemma {:induction false} PulledOps(a: App, k: nat)
    requires a.prog.I2cRead? && k <= a.nbytes
    ensures OpsOf(a.Pulled(k).bus) == OpsOf(a.bus) + Receptions(k, a.nbytes)
  {
    hide OpsOf, App.Closing;
    if k > 0 {
      var t := a.Pulled(k - 1);
      PulledOps(a, k - 1);
      var e := Rx(t.Next(), t.nbytes != 1);
      assert t.ReadOne().bus == t.bus + [e];
      OpsOfAppend(t.bus, [e]);
      OneOp(e);
    }
  }

  function SingleOp(r: Request): seq<Op> {
    match r[1]
    case 73 => [I2cWave.SendStart]
    case 74 => [I2cWave.SendStop]
    case 75 => [I2cWave.Receive(r[2] == 0)]
    case 76 => [I2cWave.Send(r[2])]
    case _ => []
  }

  /** The single I2C requests do one bus operation each, and no other request without a data stage does any. */
  lemma SingleOps(a: App, r: Request)
    requires StreamOf(r[1]).Idle?
    ensures OpsOf(a.Setup(r).bus) == OpsOf(a.bus) + SingleOp(r)
  {
    PlainSteps(a, r);
    hide OpsOf, App.Setup, App.Shifted;
    var t := a.Setup(r);
    if r[1] == 3 {
      ExchangeOps(a, r[2]);
      ExchangeOps(a.Shifted(r[2]), r[3]);
      ExchangeOps(a.Shifted(r[2]).Shifted(r[3]), r[4]);
      ExchangeOps(a.Shifted(r[2]).Shifted(r[3]).Shifted(r[4]), r[5]);
    } else if r[1] == 94 {
      EventOps(a.bus, Cs(true));
      EventOps(a.bus + [Cs(true)], Cs(false));
    } else if t.bus != a.bus {
      EventOps(a.bus, t.bus[|a.bus|]);
      assert a.bus + [t.bus[|a.bus|]] == t.bus;
    }
  }

  lemma EventOps(bus: seq<Bus>, e: Bus)
    ensures OpsOf(bus + [e]) == OpsOf(bus) + OpOf(e)
  {
    OpsOfAppend(bus, [e]);
    OneOp(e);
  }

  lemma ExchangeOps(a: App, b: byte)
    ensures OpsOf(a.Shifted(b).bus) == OpsOf(a.bus)
  {
    EventOps(a.bus, Spi(b, a.Next()));
  }

  /** The two requests of a random read. */
  predicate RandomRead(w: Request, payload: seq<byte>, r: Request) {
    && w[1] == 72 && w[4] != 1 && 0 < |payload| == Length(w)
    && r[1] == 71 && 0 < Length(r)
  }

  function AfterWrite(a: App, w: Request, payload: seq<byte>): App
    requires StreamOf(w[1]).I2cWrite? && |payload| <= Length(w)
  {
    a.Setup(w).Sent(payload).Closed()
  }

  function ReadOps(w: Request, payload: seq<byte>, r: Request): seq<Op> {
    [I2cWave.SendStart, I2cWave.Send(ClearBit(w[2], 1))] + I2cWave.Sends(payload)
    + [I2cWave.SendStart, I2cWave.Send(SetBit(r[2], 1))] + Receptions(Length(r), Length(r)) + [I2cWave.SendStop]
  }

  lemma WriteOpening(a: App, w: Request)
    requires w[1] == 72 && w[4] != 1
    ensures a.Setup(w).bus == a.bus + [Start] + [Tx(ClearBit(w[2], 1))] && a.Setup(w).Closing() == [Start]
  {
  }

  lemma StartOps(b: byte)
    ensures OpOf(Start) == [I2cWave.SendStart] && OpOf(Tx(b)) == [I2cWave.Send(b)]
  {
  }

  lemma WriteSetupOps(a: App, w: Request)
    requires w[1] == 72 && w[4] != 1
    ensures OpsOf(a.Setup(w).bus) == OpsOf(a.bus) + [I2cWave.SendStart, I2cWave.Send(ClearBit(w[2], 1))]
    ensures a.Setup(w).Closing() == [Start]
  {
    WriteOpening(a, w);
    hide *;
    EventOps(a.bus, Start);
    EventOps(a.bus + [Start], Tx(ClearBit(w[2], 1)));
    StartOps(ClearBit(w[2], 1));
  }

  lemma WriteOps(a: App, w: Request, payload: seq<byte>)
    requires w[1] == 72 && w[4] != 1 && 0 < |payload| == Length(w)
    ensures OpsOf(AfterWrite(a, w, payload).bus) ==
            OpsOf(a.bus) + [I2cWave.SendStart, I2cWave.Send(ClearBit(w[2], 1))]
            + I2cWave.Sends(payload) + [I2cWave.SendStart]
  {
    var t := a.Setup(w);
    WriteSetupOps(a, w);
    OneOp(Start);
    hide OpsOf, App.Sent, App.Setup, App.Closing, I2cWave.Sends;
    SentOps(t, payload);
    SentKeeps(t, payload);
    OpsOfAppend(t.Sent(payload).bus, [Start]);
  }

  /** START, address and write bit, the payload, repeated START, address and read bit, all bytes but the last
      acknowledged, STOP. */
  lemma TransactionOps(a: App, w: Request, payload: seq<byte>, r: Request)
    requires RandomRead(w, payload, r)
    ensures OpsOf(AfterWrite(a, w, payload).Setup(r).Read(Length(r)).bus) == OpsOf(a.bus) + ReadOps(w, payload, r)
  {
    hide OpsOf, App.Sent, App.Pulled, I2cWave.Sends, Receptions, AfterWrite;
    var t := AfterWrite(a, w, payload);
    var u := t.Setup(r);
    WriteOps(a, w, payload);
    OpsOfAppend(t.bus, [Tx(SetBit(r[2], 1))]);
    OneOp(Tx(SetBit(r[2], 1)));
    PulledOps(u, Length(r));
    PulledKeeps(u, Length(r));
    OpsOfAppend(u.Pulled(Length(r)).bus, [Stop]);
    OneOp(Stop);
  }

  lemma {:induction false} PoliteLetsGo(ops: seq<Op>, slave: I2cWave.Slave, k: nat)
    requires AllPolite(ops, slave, k)
    ensures I2cWave.AllLetGo(ops, slave, k)
  {
    if ops != [] {
      PoliteLetsGo(ops[..|ops| - 1], slave, k);
    }
  }

  predicate AllPolite(ops: seq<Op>, slave: I2cWave.Slave, k: nat) {
    ops != [] ==>
      var init := ops[..|ops| - 1];
      AllPolite(init, slave, k) && I2cWave.Polite(ops[|ops| - 1], slave, k + I2cWave.TotalClocks(init))
  }

  /** A report that fits an operation, whatever the slave answers. */
  predicate Fits(op: Op, e: I2cWave.Event) {
    match op
    case SendStart => e.Start?
    case SendStop => e.Stop?
    case Send(b) => e.Byte? && e.b == b
    case Receive(ack) => e.Byte? && e.acked == ack
  }

  lemma {:induction false} PoliteFits(ops: seq<Op>, slave: I2cWave.Slave, k: nat)
    requires AllPolite(ops, slave, k)
    ensures var r := I2cWave.Meanings(ops, slave, k);
            |r| == |ops| && forall i | 0 <= i < |ops| :: Fits(ops[i], r[i])
  {
    hide I2cWave.Meaning, I2cWave.Polite;
    if ops != [] {
      var init, last := ops[..|ops| - 1], ops[|ops| - 1];
      var at := k + I2cWave.TotalClocks(init);
      PoliteFits(init, slave, k);
      assert Fits(last, I2cWave.Meaning(last, slave, at)) by {
        FitsOne(last, slave, at);
      }
      var front := I2cWave.Meanings(init, slave, k);
      var r := I2cWave.Meanings(ops, slave, k);
      forall i | 0 <= i < |ops|
        ensures Fits(ops[i], r[i])
      {
        if i < |init| {
          assert init[i] == ops[i] && front[i] == r[i];
        }
      }
    }
  }

  lemma FitsOne(op: Op, slave: I2cWave.Slave, k: nat)
    requires I2cWave.Polite(op, slave, k)
    ensures Fits(op, I2cWave.Meaning(op, slave, k))
  {
    match op {
      case Send(b) => I2cWave.SendMeaning(b, slave, k);
      case Receive(ack) => I2cWave.ReceiveMeaning(ack, slave, k);
      case _ => {}
    }
  }

  lemma {:induction false} TotalAppend(x: seq<Op>, y: seq<Op>)
    ensures I2cWave.TotalClocks(x + y) == I2cWave.TotalClocks(x) + I2cWave.TotalClocks(y)
    decreases |y|
  {
    if y == [] {
      assert x + y == x;
    } else {
      TotalAppend(x, y[..|y| - 1]);
      assert (x + y)[..|x + y| - 1] == x + y[..|y| - 1];
    }
  }

  lemma {:induction false} MeaningsAt(ops: seq<Op>, slave: I2cWave.Slave, k: nat, i: nat)
    requires i < |ops|
    ensures |I2cWave.Meanings(ops, slave, k)| == |ops|
    ensures I2cWave.Meanings(ops, slave, k)[i] ==
            I2cWave.Meaning(ops[i], slave, k + I2cWave.TotalClocks(ops[..i]))
  {
    hide I2cWave.Meaning;
    var n := |ops| - 1;
    if i < n {
      MeaningsAt(ops[..n], slave, k, i);
      assert ops[..n][..i] == ops[..i];
    } else if n > 0 {
      MeaningsAt(ops[..n], slave, k, 0);
    }
  }

  lemma {:induction false} PoliteAt(ops: seq<Op>, slave: I2cWave.Slave, k: nat, i: nat)
    requires AllPolite(ops, slave, k) && i < |ops|
    ensures I2cWave.Polite(ops[i], slave, k + I2cWave.TotalClocks(ops[..i]))
  {
    hide I2cWave.Polite;
    var n := |ops| - 1;
    if i < n {
      PoliteAt(ops[..n], slave, k, i);
      assert ops[..n][..i] == ops[..i];
    }
  }

  lemma {:induction false} PayloadAt(a: App, k: nat, i: nat)
    requires i < k <= a.nbytes
    ensures a.Payload(k)[i] == a.Pulled(i).Next()
  {
    if i < k - 1 {
      PayloadAt(a, k - 1, i);
    }
  }

  /** The byte the application gets after a history is the one the device puts on the wires in the clocks that follow
      it; `base` is the clock at which the history began. */
  ghost predicate Wired(answers: seq<Bus> -> byte, slave: I2cWave.Slave, base: nat) {
    forall bus: seq<Bus> ::
      Bits(answers(bus), 8) == I2cWave.SlaveBits(slave, base + I2cWave.TotalClocks(OpsOf(bus)), 8)
  }

  /** The clock at which the wires are after what the application has done. */
  function Time(a: App, base: nat): nat {
    base + I2cWave.TotalClocks(OpsOf(a.bus))
  }

  /** The bytes that a random read delivers to the host. */
  function ReadOut(a: App, w: Request, payload: seq<byte>, r: Request): (data: seq<byte>)
    requires RandomRead(w, payload, r)
    ensures |data| == Length(r)
  {
    AfterWrite(a, w, payload).Setup(r).Payload(Length(r))
  }

  lemma AfterWriteKeeps(a: App, w: Request, payload: seq<byte>, r: Request)
    requires RandomRead(w, payload, r)
    ensures AfterWrite(a, w, payload).Setup(r).slave == a.slave
  {
    SentKeeps(a.Setup(w), payload);
    hide App.Sent;
  }

  /** Received byte number `i` of a transaction: what the application delivers is what is on the wires. */
  lemma ReceivedByte(a: App, w: Request, payload: seq<byte>, r: Request, slave: I2cWave.Slave, base: nat, i: nat)
    requires RandomRead(w, payload, r) && i < Length(r) && Wired(a.slave, slave, base)
    requires AllPolite(ReadOps(w, payload, r), slave, Time(a, base))
    ensures var events := I2cWave.Meanings(ReadOps(w, payload, r), slave, Time(a, base));
            var q := 4 + |payload| + i;
            && q < |events|
            && events[q] == I2cWave.Byte(ReadOut(a, w, payload, r)[i], i != Length(r) - 1)
  {
    hide OpsOf, App.Sent, App.Pulled, AfterWrite, AllPolite, App.Payload, I2cWave.Meaning, I2cWave.SlaveBits, Bits,
         I2cWave.Meanings, I2cWave.TotalClocks;
    var n := Length(r);
    var k := Time(a, base);
    var ops := ReadOps(w, payload, r);
    var q := 4 + |payload| + i;
    var t := AfterWrite(a, w, payload).Setup(r);
    AfterWriteKeeps(a, w, payload, r);
    OpsBefore(a, w, payload, r, i);
    TotalAppend(OpsOf(a.bus), ops[..q]);
    PayloadAt(t, n, i);
    PulledKeeps(t, i);
    assert ops[q] == I2cWave.Receive(i != n - 1);
    var data := t.Payload(n)[i];
    assert data == a.slave(t.Pulled(i).bus);
    var at := k + I2cWave.TotalClocks(ops[..q]);
    assert Bits(data, 8) == I2cWave.SlaveBits(slave, at, 8);
    MeaningsAt(ops, slave, k, q);
    PoliteAt(ops, slave, k, q);
    ReceiveIs(i != n - 1, slave, at, data);
  }

  lemma ReceiveIs(ack: bool, slave: I2cWave.Slave, k: nat, data: byte)
    requires I2cWave.Polite(I2cWave.Receive(ack), slave, k) && Bits(data, 8) == I2cWave.SlaveBits(slave, k, 8)
    ensures I2cWave.Meaning(I2cWave.Receive(ack), slave, k) == I2cWave.Byte(data, ack)
  {
    I2cWave.ReceiveMeaning(ack, slave, k);
    ByteMeaning(I2cWave.Receive(ack), slave, k);
    hide I2cWave.Meaning, Bits, I2cWave.SlaveBits, Value;
    ValueOfBits(data);
    ValueOfBits(I2cWave.Meaning(I2cWave.Receive(ack), slave, k).b);
  }

  lemma ByteMeaning(op: Op, slave: I2cWave.Slave, k: nat)
    requires op.Receive?
    ensures I2cWave.Meaning(op, slave, k).Byte?
  {
  }

  /** What has been done on the bus when byte `i` is read. */
  lemma OpsBefore(a: App, w: Request, payload: seq<byte>, r: Request, i: nat)
    requires RandomRead(w, payload, r) && i < Length(r)
    ensures var ops := ReadOps(w, payload, r);
            var t := AfterWrite(a, w, payload).Setup(r);
            OpsOf(t.Pulled(i).bus) == OpsOf(a.bus) + ops[..4 + |payload| + i]
  {
    hide OpsOf, App.Sent, App.Pulled, AfterWrite;
    var n := Length(r);
    var u := AfterWrite(a, w, payload);
    WriteOps(a, w, payload);
    OpsOfAppend(u.bus, [Tx(SetBit(r[2], 1))]);
    OneOp(Tx(SetBit(r[2], 1)));
    PulledOps(u.Setup(r), i);
    ReceptionsPrefix(i, n, n);
    var head := [I2cWave.SendStart, I2cWave.Send(ClearBit(w[2], 1))] + I2cWave.Sends(payload)
                + [I2cWave.SendStart, I2cWave.Send(SetBit(r[2], 1))];
    assert ReadOps(w, payload, r)[..4 + |payload| + i] == head + Receptions(n, n)[..i];
  }

  lemma {:induction false} ReceptionsPrefix(i: nat, k: nat, n: nat)
    requires i <= k
    ensures Receptions(k, n)[..i] == Receptions(i, n)
    decreases k
  {
    if i < k {
      ReceptionsPrefix(i, k - 1, n);
    }
  }

  /** A report with an entry for every operation, showing the bytes sent and the acknowledges given. */
  ghost predicate Matches(events: seq<I2cWave.Event>, ops: seq<Op>) {
    |events| == |ops| && forall q | 0 <= q < |ops| :: Fits(ops[q], events[q])
  }

  /** The entries from number `at` on are the bytes `data`, all acknowledged but the last. */
  ghost predicate Shows(events: seq<I2cWave.Event>, at: nat, data: seq<byte>) {
    && at + |data| <= |events|
    && forall i | 0 <= i < |data| :: events[at + i] == I2cWave.Byte(data[i], i != |data| - 1)
  }

  lemma TransactionBytes(a: App, w: Request, payload: seq<byte>, r: Request, slave: I2cWave.Slave, base: nat)
    requires RandomRead(w, payload, r) && Wired(a.slave, slave, base)
    requires AllPolite(ReadOps(w, payload, r), slave, Time(a, base))
    ensures Shows(I2cWave.Meanings(ReadOps(w, payload, r), slave, Time(a, base)), 4 + |payload|,
                  ReadOut(a, w, payload, r))
  {
    assert Length(r) > 0;
    hide *;
    var events := I2cWave.Meanings(ReadOps(w, payload, r), slave, Time(a, base));
    var data := ReadOut(a, w, payload, r);
    var at := 4 + |payload|;
    ReceivedByte(a, w, payload, r, slave, base, |data| - 1);
    forall i | 0 <= i < |data|
      ensures events[at + i] == I2cWave.Byte(data[i], i != |data| - 1)
    {
      ReceivedByte(a, w, payload, r, slave, base, i);
    }
    ShowsAll(events, at, data);
  }

  lemma ShowsAll(events: seq<I2cWave.Event>, at: nat, data: seq<byte>)
    requires at + |data| <= |events|
    requires forall i | 0 <= i < |data| :: events[at + i] == I2cWave.Byte(data[i], i != |data| - 1)
    ensures Shows(events, at, data)
  {
  }

  /** With a device that keeps to the protocol, the monitor reports the random read, event by event, and the bytes it
      sees the device send are those the application delivers to the host. */
  lemma TransactionSeen(m: I2cWave.Monitor, a: App, w: Request, payload: seq<byte>, r: Request, slave: I2cWave.Slave,
                        base: nat, sda: bool)
    requires RandomRead(w, payload, r) && m.AtRest() && Wired(a.slave, slave, base)
    requires AllPolite(ReadOps(w, payload, r), slave, Time(a, base))
    ensures var log := m.SeeAll(I2cWave.OpsWave(ReadOps(w, payload, r), slave, Time(a, base), sda)).log;
            && m.log <= log
            && Matches(log[|m.log|..], ReadOps(w, payload, r))
            && Shows(log[|m.log|..], 4 + |payload|, ReadOut(a, w, payload, r))
  {
    hide *;
    var ops := ReadOps(w, payload, r);
    var k := Time(a, base);
    PoliteLetsGo(ops, slave, k);
    I2cWave.MonitorRecovers(m, ops, slave, k, sda);
    PoliteMatches(ops, slave, k);
    TransactionBytes(a, w, payload, r, slave, base);
    assert (m.log + I2cWave.Meanings(ops, slave, k))[|m.log|..] == I2cWave.Meanings(ops, slave, k);
  }

  lemma PoliteMatches(ops: seq<Op>, slave: I2cWave.Slave, k: nat)
    requires AllPolite(ops, slave, k)
    ensures Matches(I2cWave.Meanings(ops, slave, k), ops)
  {
    hide I2cWave.Meanings, Fits;
    PoliteFits(ops, slave, k);
  }
}
