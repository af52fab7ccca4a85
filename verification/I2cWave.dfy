/** The bit-banged I2C master (i2c.c), and a bus monitor that reads its waveform back (sections 3.1.3 to 3.1.6 of NXP
    UM10204). */
module I2cWave {
  import opened Bytes
  import opened BitOrder

  /** Levels of the two wires. */
  datatype Line = Line(scl: bool, sda: bool)

  /** What a monitor on the wires reports. */
  datatype Event = Start | Stop | Byte(b: byte, acked: bool)

  datatype Op = SendStart | SendStop | Send(b: byte) | Receive(ack: bool)

  function Sends(data: seq<byte>): (r: seq<Op>)
    ensures |r| == |data|
    ensures forall i | 0 <= i < |data| :: r[i] == Send(data[i])
  {
    if data == [] then [] else Sends(data[..|data| - 1]) + [Send(data[|data| - 1])]
  }

  /** A monitor: the level it saw last, the bits of the byte in progress, and its report. */
  datatype Monitor = Monitor(line: Line, bits: seq<bool>, log: seq<Event>) {

    /** SDA is a bit when SCL rises, and a condition when it changes while SCL stays high. */
    function See(l: Line): Monitor {
      if !line.scl && l.scl then Rising(l)
      else if line.scl && l.scl && line.sda && !l.sda then Monitor(l, [], log + [Start])
      else if line.scl && l.scl && !line.sda && l.sda then Monitor(l, [], log + [Stop])
      else this.(line := l)
    }

    function Rising(l: Line): Monitor {
      var all := bits + [l.sda];
      if |all| < 9 then Monitor(l, all, log)
      else Monitor(l, [], log + [Byte(Value(all[..|all| - 1]) % 0x100, !l.sda)])
    }

    function SeeAll(wave: seq<Line>): Monitor {
      if wave == [] then this else SeeAll(wave[..|wave| - 1]).See(wave[|wave| - 1])
    }

    /** Between two operations: SCL high, and no byte half done. */
    predicate AtRest() {
      line.scl && bits == []
    }
  }

  lemma {:induction false} SeeAllAppend(m: Monitor, x: seq<Line>, y: seq<Line>)
    ensures m.SeeAll(x).SeeAll(y) == m.SeeAll(x + y)
    decreases |y|
  {
    if y == [] {
      assert x + y == x;
    } else {
      SeeAllAppend(m, x, y[..|y| - 1]);
      assert (x + y)[..|x + y| - 1] == x + y[..|y| - 1];
    }
  }

  /** One clock: SCL falls, the wire settles to the next level while it is low, SCL rises. */
  function Clock(before: bool, level: bool): seq<Line> {
    [Line(false, before), Line(false, level), Line(true, level)]
  }

  lemma SeeSnoc(m: Monitor, x: seq<Line>, l: Line)
    ensures m.SeeAll(x + [l]) == m.SeeAll(x).See(l)
  {
    assert (x + [l])[..|x|] == x;
  }

  lemma ClockSeen(m: Monitor, before: bool, level: bool)
    requires m.line.scl
    ensures m.SeeAll(Clock(before, level)) == m.Rising(Line(true, level))
  {
    hide Monitor.SeeAll, Monitor.Rising;
    var low := [Line(false, before)];
    SeeSnoc(m, low + [Line(false, level)], Line(true, level));
    SeeSnoc(m, low, Line(false, level));
    SeeSnoc(m, [], Line(false, before));
    SeeNone(m);
    assert [] + low == low;
    assert Clock(before, level) == low + [Line(false, level)] + [Line(true, level)];
    RisesOnce(m, before, level);
  }

  lemma SeeNone(m: Monitor)
    ensures m.SeeAll([]) == m
  {
  }

  lemma RisesOnce(m: Monitor, before: bool, level: bool)
    requires m.line.scl
    ensures m.See(Line(false, before)).See(Line(false, level)).See(Line(true, level)) == m.Rising(Line(true, level))
  {
  }

  /** The other side of the wires: whether it pulls SDA low during clock number `k`. */
  type Slave = nat -> bool

  function Clocks(op: Op): nat {
    if op.SendStart? || op.SendStop? then 1 else 9
  }

  /** What the master puts on SDA in clock `i` of an operation; `true` releases the wire. */
  function Driven(op: Op, i: nat): bool {
    match op
    case SendStart => true
    case SendStop => false
    case Send(b) => if i < 8 then Has(b, Weight(i)) else true
    case Receive(ack) => if i < 8 then true else !ack
  }

  /** The levels of the first `n` clocks, for a slave at clock `k`. */
  function Levels(op: Op, slave: Slave, k: nat, n: nat): (r: seq<bool>)
    ensures |r| == n
  {
    if n == 0 then [] else Levels(op, slave, k, n - 1) + [Driven(op, n - 1) && !slave(k + n - 1)]
  }

  /** What the operation means on the wires, for whatever the slave does. */
  function Meaning(op: Op, slave: Slave, k: nat): Event {
    match op
    case SendStart => Start
    case SendStop => Stop
    case _ => Byte(Value(Levels(op, slave, k, 8)) % 0x100, !Levels(op, slave, k, 9)[8])
  }

  /** The slave leaves SDA alone during `n` clocks. */
  predicate KeepsOff(slave: Slave, k: nat, n: nat) {
    n > 0 ==> KeepsOff(slave, k, n - 1) && !slave(k + n - 1)
  }

  /** A slave that keeps off the wire when it is not its turn. */
  predicate Polite(op: Op, slave: Slave, k: nat) {
    match op
    case Send(_) => KeepsOff(slave, k, 8)
    case Receive(_) => !slave(k + 8)
    case _ => !slave(k)
  }

  /** The bits a slave sends by pulling the wire low for zeros. */
  function SlaveBits(slave: Slave, k: nat, n: nat): (r: seq<bool>)
    ensures |r| == n
  {
    if n == 0 then [] else SlaveBits(slave, k, n - 1) + [!slave(k + n - 1)]
  }

  lemma {:induction false} SendLevels(b: byte, slave: Slave, k: nat, n: nat)
    requires n <= 8 && KeepsOff(slave, k, n)
    ensures Levels(Send(b), slave, k, n) == Bits(b, n)
  {
    if n > 0 {
      SendLevels(b, slave, k, n - 1);
    }
  }

  lemma {:induction false} ReceiveLevels(ack: bool, slave: Slave, k: nat, n: nat)
    requires n <= 8
    ensures Levels(Receive(ack), slave, k, n) == SlaveBits(slave, k, n)
  {
    if n > 0 {
      ReceiveLevels(ack, slave, k, n - 1);
    }
  }

  /** With a polite slave the byte on the wires is the one sent, with the slave's acknowledge ... */
  lemma SendMeaning(b: byte, slave: Slave, k: nat)
    requires Polite(Send(b), slave, k)
    ensures Meaning(Send(b), slave, k) == Byte(b, slave(k + 8))
  {
    hide Weight, Bits, Value;
    SendLevels(b, slave, k, 8);
    ValueOfBits(b);
  }

  /** ... or the one the slave sends, with the master's acknowledge. */
  lemma ReceiveMeaning(ack: bool, slave: Slave, k: nat)
    requires Polite(Receive(ack), slave, k)
    ensures Meaning(Receive(ack), slave, k).acked == ack
    ensures Bits(Meaning(Receive(ack), slave, k).b, 8) == SlaveBits(slave, k, 8)
  {
    hide Weight, Bits, Value;
    ReceiveLevels(ack, slave, k, 8);
    BitsOfValue(SlaveBits(slave, k, 8));
  }

  /** The waveform of the first `n` clocks of an operation. The slave lets its new level show as soon as SCL is low. */
  function ClockWave(op: Op, slave: Slave, k: nat, sda: bool, n: nat): seq<Line> {
    if n == 0 then []
    else
      var before := if n == 1 then sda else Driven(op, n - 2);
      var pull := slave(k + n - 1);
      ClockWave(op, slave, k, sda, n - 1) + Clock(before && !pull, Driven(op, n - 1) && !pull)
  }

  /** The waveform of an operation, for a master that last drove `sda`. */
  function Wave(op: Op, slave: Slave, k: nat, sda: bool): seq<Line> {
    ClockWave(op, slave, k, sda, Clocks(op)) +
    match op
    case SendStart => [Line(true, false)]
    case SendStop => [Line(true, !slave(k))]
    case _ => []
  }

  /** What the master drives on SDA after an operation. */
  function Leaves(op: Op): bool {
    match op
    case SendStart => false
    case SendStop => true
    case Send(_) => true
    case Receive(ack) => !ack
  }

  function OpsWave(ops: seq<Op>, slave: Slave, k: nat, sda: bool): seq<Line> {
    if ops == [] then []
    else
      var init := ops[..|ops| - 1];
      OpsWave(init, slave, k, sda)
      + Wave(ops[|ops| - 1], slave, k + TotalClocks(init), LastDriven(init, sda))
  }

  function TotalClocks(ops: seq<Op>): nat {
    if ops == [] then 0 else TotalClocks(ops[..|ops| - 1]) + Clocks(ops[|ops| - 1])
  }

  function LastDriven(ops: seq<Op>, sda: bool): bool {
    if ops == [] then sda else Leaves(ops[|ops| - 1])
  }

  function Meanings(ops: seq<Op>, slave: Slave, k: nat): seq<Event> {
    if ops == [] then []
    else
      var init := ops[..|ops| - 1];
      Meanings(init, slave, k) + [Meaning(ops[|ops| - 1], slave, k + TotalClocks(init))]
  }

  /** The slave is not pulling during a START or STOP; otherwise it may do as it likes. */
  predicate LetsGo(op: Op, slave: Slave, k: nat) {
    op.SendStart? || op.SendStop? ==> !slave(k)
  }

  predicate AllLetGo(ops: seq<Op>, slave: Slave, k: nat) {
    ops != [] ==>
      var init := ops[..|ops| - 1];
      AllLetGo(init, slave, k) && LetsGo(ops[|ops| - 1], slave, k + TotalClocks(init))
  }

  lemma RisingLevel(m: Monitor, level: bool)
    requires |m.bits| < 8
    ensures m.Rising(Line(true, level)) == Monitor(Line(true, level), m.bits + [level], m.log)
  {
  }

  /** During the first eight clocks the monitor collects the levels. */
  lemma {:induction false} BitsSeen(m: Monitor, op: Op, slave: Slave, k: nat, sda: bool, n: nat)
    requires m.AtRest() && 0 < n <= 8 && n <= Clocks(op)
    ensures m.SeeAll(ClockWave(op, slave, k, sda, n)) ==
            Monitor(Line(true, Driven(op, n - 1) && !slave(k + n - 1)), Levels(op, slave, k, n), m.log)
  {
    hide Clock, Driven, Monitor.SeeAll, Monitor.Rising;
    var before := if n == 1 then sda else Driven(op, n - 2);
    var pull := slave(k + n - 1);
    var level := Driven(op, n - 1) && !pull;
    var front := ClockWave(op, slave, k, sda, n - 1);
    SeeAllAppend(m, front, Clock(before && !pull, level));
    if n == 1 {
      SeeNone(m);
      assert Levels(op, slave, k, 0) == [];
    } else {
      BitsSeen(m, op, slave, k, sda, n - 1);
    }
    ClockSeen(m.SeeAll(front), before && !pull, level);
    RisingLevel(m.SeeAll(front), level);
  }

  lemma NinthLevel(m: Monitor, level: bool)
    requires |m.bits| == 8
    ensures m.Rising(Line(true, level)) ==
            Monitor(Line(true, level), [], m.log + [Byte(Value(m.bits) % 0x100, !level)])
  {
    assert (m.bits + [level])[..8] == m.bits;
  }

  lemma ByteSeen(m: Monitor, op: Op, slave: Slave, k: nat, sda: bool)
    requires m.AtRest() && Clocks(op) == 9
    ensures var t := m.SeeAll(Wave(op, slave, k, sda));
            t.AtRest() && t.log == m.log + [Meaning(op, slave, k)]
  {
    hide Clock, Driven, Monitor.SeeAll, Monitor.Rising, Value;
    BitsSeen(m, op, slave, k, sda, 8);
    var front := ClockWave(op, slave, k, sda, 8);
    var pull := slave(k + 8);
    var level := Driven(op, 8) && !pull;
    var last := Clock(Driven(op, 7) && !pull, level);
    SeeAllAppend(m, front, last);
    assert Wave(op, slave, k, sda) == front + last;
    ClockSeen(m.SeeAll(front), Driven(op, 7) && !pull, level);
    NinthLevel(m.SeeAll(front), level);
    assert Levels(op, slave, k, 9)[8] == level;
  }

  /** A START or STOP is seen exactly when the slave lets go of SDA. */
  lemma ConditionSeen(m: Monitor, op: Op, slave: Slave, k: nat, sda: bool)
    requires m.AtRest() && Clocks(op) == 1
    ensures var t := m.SeeAll(Wave(op, slave, k, sda));
            (t.AtRest() && t.log == m.log + [Meaning(op, slave, k)]) <==> !slave(k)
  {
    hide Clock, Monitor.SeeAll;
    BitsSeen(m, op, slave, k, sda, 1);
    var front := ClockWave(op, slave, k, sda, 1);
    SeeSnoc(m, front, Line(true, if op.SendStart? then false else !slave(k)));
    assert |Levels(op, slave, k, 1)| == 1;
  }

  /** One operation, read back. */
  lemma OpSeen(m: Monitor, op: Op, slave: Slave, k: nat, sda: bool)
    requires m.AtRest() && LetsGo(op, slave, k)
    ensures var t := m.SeeAll(Wave(op, slave, k, sda));
            t.AtRest() && t.log == m.log + [Meaning(op, slave, k)]
  {
    if Clocks(op) == 1 {
      ConditionSeen(m, op, slave, k, sda);
    } else {
      ByteSeen(m, op, slave, k, sda);
    }
  }

  /** The monitor recovers exactly the operations that were called for, in order, and nothing else. */
  lemma {:induction false} MonitorRecovers(m: Monitor, ops: seq<Op>, slave: Slave, k: nat, sda: bool)
    requires m.AtRest() && AllLetGo(ops, slave, k)
    ensures var t := m.SeeAll(OpsWave(ops, slave, k, sda));
            t.AtRest() && t.log == m.log + Meanings(ops, slave, k)
  {
    hide Wave, Monitor.SeeAll, Meaning;
    if ops == [] {
      SeeNone(m);
    } else {
      var init := ops[..|ops| - 1];
      MonitorRecovers(m, init, slave, k, sda);
      var wave := Wave(ops[|ops| - 1], slave, k + TotalClocks(init), LastDriven(init, sda));
      SeeAllAppend(m, OpsWave(init, slave, k, sda), wave);
      OpSeen(m.SeeAll(OpsWave(init, slave, k, sda)), ops[|ops| - 1], slave, k + TotalClocks(init),
             LastDriven(init, sda));
    }
  }
}
