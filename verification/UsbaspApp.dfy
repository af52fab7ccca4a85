/** The USBasp application (main.c): the serial bus requests, and the two functions the USB driver calls for the data
    stage of a control transfer. */
module UsbaspApp {
  import opened Bytes
  import opened BitOrder

  const I2C_ACK: byte := 0

  datatype Prog = Idle | SpiRead | SpiWrite | I2cRead | I2cWrite | MwRead | MwWrite

  /** What happens on the pins. `MwTx` clocks out the leading bits of a byte; `Target` stands for all that a request
      does to an AVR or TPI target. */
  datatype Bus =
    | Cs(high: bool)
    | Spi(mosi: byte, miso: byte)
    | Start
    | Stop
    | Tx(b: byte)
    | Rx(b: byte, ack: bool)
    | MwTx(b: byte, bits: nat)
    | MwRx(b: byte)
    | MwEnd
    | Target(request: seq<byte>)

  function Min(a: nat, b: nat): nat {
    if a < b then a else b
  }

  type Request = d: seq<byte> | |d| == 8 witness [0, 0, 0, 0, 0, 0, 0, 0]

  /** wLength, low byte first. */
  function Length(d: Request): (n: word)
    ensures var lo: nat, hi: nat := d[6], d[7];
            n == lo + 0x100 * hi
  {
    Join(d[7], d[6])
  }

  /** The state a request leaves behind when its data stage goes through the read and write functions. */
  function StreamOf(code: byte): Prog {
    match code
    case 51 => SpiRead
    case 52 => SpiWrite
    case 71 => I2cRead
    case 72 => I2cWrite
    case 92 => MwRead
    case 93 => MwWrite
    case _ => Idle
  }

  /** The block transfers to and from AVR and TPI targets are not part of this module. */
  predicate Modelled(code: byte) {
    code !in {4, 6, 7, 8, 15, 16}
  }

  /** `slave` is the device on the bus: the next byte it sends, or its acknowledge or ready bit, after a history. */
  datatype App = App(prog: Prog, nbytes: word, csHi: byte, mwCsLo: byte, mwBits: byte, stopAw: byte,
                     bus: seq<Bus>, slave: seq<Bus> -> byte) {

    function On(e: Bus): App {
      this.(bus := bus + [e])
    }

    function Next(): byte {
      slave(bus)
    }

    predicate Reading() {
      prog.SpiRead? || prog.I2cRead? || prog.MwRead?
    }

    predicate Writing() {
      prog.SpiWrite? || prog.I2cWrite? || prog.MwWrite?
    }

    function Shifted(b: byte): App {
      On(Spi(b, Next()))
    }

    /** usbFunctionSetup. */
    function Setup(d: Request): (t: App)
      ensures !StreamOf(d[1]).Idle? ==> t.prog == StreamOf(d[1]) && t.nbytes == Length(d)
    {
      var n := Length(d);
      match d[1]
      case 1 => On(Target(d))
      case 2 => On(Target(d))
      case 3 => Shifted(d[2]).Shifted(d[3]).Shifted(d[4]).Shifted(d[5])
      case 5 => On(Target(d))
      case 11 => On(Target(d))
      case 12 => On(Target(d))
      case 13 => On(Target(d))
      case 14 => On(Target(d))
      case 50 => On(Cs(true))
      case 51 => On(Cs(false)).(csHi := d[2], nbytes := n, prog := SpiRead)
      case 52 => On(Cs(false)).(csHi := d[2], nbytes := n, prog := SpiWrite)
      case 71 => On(Tx(SetBit(d[2], 1))).(nbytes := n, prog := I2cRead)
      case 72 => On(Start).On(Tx(ClearBit(d[2], 1))).(stopAw := d[4], nbytes := n, prog := I2cWrite)
      case 73 => On(Start)
      case 74 => On(Stop)
      case 75 => On(Rx(Next(), d[2] == I2C_ACK))
      case 76 => On(Tx(d[2]))
      case 94 => On(Cs(true)).On(Cs(false))
      case 92 => this.(mwCsLo := d[2], nbytes := n, prog := MwRead)
      case 93 => On(Cs(true)).(mwCsLo := d[2], mwBits := d[4], nbytes := n, prog := MwWrite)
      case _ => this
    }

    /** What the request leaves in `replyBuffer` for the driver to send. */
    function Reply(d: Request): (r: seq<byte>)
      ensures |r| <= 4
    {
      match d[1]
      case 3 =>
        var t := Shifted(d[2]);
        var u := t.Shifted(d[3]);
        [Next(), t.Next(), u.Next(), u.Shifted(d[4]).Next()]
      case 5 => [Next()]
      case 10 => [0]
      case 13 => [Next()]
      case 127 => [1, 0, 0, 1]
      case 75 => [Next()]
      case 76 => [On(Tx(d[2])).Next()]
      case 94 => [if On(Cs(true)).Next() != 0 then 0 else 1]
      case _ => []
    }

    function ReadEvent(b: byte, last: bool): Bus {
      match prog
      case SpiRead => Spi(0, b)
      case I2cRead => Rx(b, !last)
      case _ => MwRx(b)
    }

    /** What the end of a transfer does on the bus, as its request asked. */
    function Closing(): seq<Bus> {
      match prog
      case SpiRead => if csHi != 0 then [Cs(true)] else []
      case SpiWrite => if csHi != 0 then [Cs(true)] else []
      case I2cRead => [Stop]
      case I2cWrite => if stopAw == 1 then [Stop] else [Start]
      case MwRead => if mwCsLo != 0 then [MwEnd] else []
      case MwWrite => if mwCsLo != 0 then [MwEnd] else []
      case Idle => []
    }

    /** The closing events; only an SPI write does not return to the idle state. */
    function Closed(): App {
      this.(bus := bus + Closing(), prog := if prog.SpiWrite? then SpiWrite else Idle)
    }

    /** One byte of a transfer from the device. */
    function ReadOne(): App
      requires nbytes > 0
    {
      On(ReadEvent(Next(), nbytes == 1)).(nbytes := nbytes - 1)
    }

    /** The transfer after `k` of its bytes, however they were asked for. */
    function Pulled(k: nat): (t: App)
      requires k <= nbytes
      ensures t.nbytes == nbytes - k && t.prog == prog
    {
      if k == 0 then this else Pulled(k - 1).ReadOne()
    }

    function Payload(k: nat): (r: seq<byte>)
      requires k <= nbytes
      ensures |r| == k
    {
      if k == 0 then [] else Payload(k - 1) + [Pulled(k - 1).Next()]
    }

    /** usbFunctionRead, called for `len` bytes. */
    function Read(len: nat): App {
      if !Reading() then this
      else
        var t := Pulled(Min(len, nbytes));
        if t.nbytes == 0 && (nbytes > 0 || !prog.I2cRead?) then t.Closed() else t
    }

    function ReadBytes(len: nat): seq<byte> {
      Payload(Min(len, nbytes))
    }

    /** One byte of a transfer to the device. */
    function WriteOne(b: byte): App
      requires nbytes > 0
    {
      var t := this.(nbytes := nbytes - 1);
      match prog
      case SpiWrite => t.On(Spi(b, Next()))
      case I2cWrite => t.On(Tx(b))
      case _ =>
        if mwBits == 0 then t
        else t.On(MwTx(b, Min(mwBits, 8))).(mwBits := if mwBits < 8 then 0 else mwBits - 8)
    }

    function Sent(data: seq<byte>): (t: App)
      requires |data| <= nbytes
      ensures t.nbytes == nbytes - |data| && t.prog == prog
    {
      if data == [] then this else Sent(data[..|data| - 1]).WriteOne(data[|data| - 1])
    }

    /** usbFunctionWrite, called with one packet. */
    function Write(data: seq<byte>): App {
      if !Writing() then this
      else
        var t := Sent(data[..Min(|data|, nbytes)]);
        if t.nbytes == 0 then t.Closed() else t
    }

    function WriteStatus(data: seq<byte>): byte {
      if !Writing() then 0xFF else if |data| >= nbytes then 1 else 0
    }
  }

  /** Asking for bytes in two portions is asking for them at once. */
  lemma {:induction false} PulledAdd(a: App, j: nat, k: nat)
    requires j + k <= a.nbytes
    ensures a.Pulled(j).Pulled(k) == a.Pulled(j + k)
    ensures a.Payload(j) + a.Pulled(j).Payload(k) == a.Payload(j + k)
    decreases k
  {
    if k > 0 {
      PulledAdd(a, j, k - 1);
    }
  }

  /** A transfer in progress still ends the way its request asked. */
  lemma {:induction false} PulledKeeps(a: App, k: nat)
    requires k <= a.nbytes
    ensures a.Pulled(k) == a.(bus := a.Pulled(k).bus, nbytes := a.nbytes - k)
    ensures a.Pulled(k).Closing() == a.Closing()
  {
    hide App.ReadEvent;
    if k > 0 {
      PulledKeeps(a, k - 1);
    }
  }

  lemma {:induction false} SentKeeps(a: App, data: seq<byte>)
    requires |data| <= a.nbytes
    ensures a.Sent(data).Closing() == a.Closing()
    ensures a.Sent(data).slave == a.slave
  {
    if data != [] {
      SentKeeps(a, data[..|data| - 1]);
    }
  }

  lemma {:induction false} SentAdd(a: App, x: seq<byte>, y: seq<byte>)
    requires |x| + |y| <= a.nbytes
    ensures a.Sent(x).Sent(y) == a.Sent(x + y)
    decreases |y|
  {
    if y == [] {
      assert x + y == x;
    } else {
      var z := y[..|y| - 1];
      SentAdd(a, x, z);
      assert (x + y)[..|x + y| - 1] == x + z;
    }
  }

  /** The bus events of a read of these bytes: I2C acknowledges all but the last. */
  function ReadTrace(a: App, data: seq<byte>): (r: seq<Bus>)
    requires |data| <= a.nbytes
    ensures |r| == |data|
    ensures forall i | 0 <= i < |data| :: r[i] == a.ReadEvent(data[i], i == a.nbytes - 1)
  {
    if data == [] then []
    else ReadTrace(a, data[..|data| - 1]) + [a.ReadEvent(data[|data| - 1], |data| == a.nbytes)]
  }

  lemma {:induction false} PulledTrace(a: App, k: nat)
    requires k <= a.nbytes
    ensures a.Pulled(k).bus == a.bus + ReadTrace(a, a.Payload(k))
  {
    hide App.Closing, App.ReadEvent;
    if k > 0 {
      PulledTrace(a, k - 1);
      PulledKeeps(a, k - 1);
      assert a.Payload(k)[..k - 1] == a.Payload(k - 1);
      ReadEventKeeps(a, a.Pulled(k - 1));
    }
  }

  lemma ReadEventKeeps(a: App, t: App)
    requires t.prog == a.prog
    ensures forall b, last :: t.ReadEvent(b, last) == a.ReadEvent(b, last)
  {
  }

  /** A whole read on the bus: its bytes in order, then the closing events its request asked for, once. */
  lemma WholeRead(a: App)
    requires a.Reading() && a.nbytes > 0
    ensures a.Read(a.nbytes).bus == a.bus + ReadTrace(a, a.Payload(a.nbytes)) + a.Closing()
    ensures a.Read(a.nbytes).prog == Idle
  {
    hide App.Pulled, App.Payload;
    PulledTrace(a, a.nbytes);
    PulledKeeps(a, a.nbytes);
  }

  /** The bytes an SPI write or an I2C write puts on the bus. */
  function Outgoing(bus: seq<Bus>): seq<byte> {
    if bus == [] then []
    else
      var e := bus[|bus| - 1];
      var rest := Outgoing(bus[..|bus| - 1]);
      if e.Spi? then rest + [e.mosi] else if e.Tx? then rest + [e.b] else rest
  }

  lemma OutgoingSnoc(bus: seq<Bus>, e: Bus)
    ensures Outgoing(bus + [e]) ==
            Outgoing(bus) + (if e.Spi? then [e.mosi] else if e.Tx? then [e.b] else [])
  {
    assert (bus + [e])[..|bus|] == bus;
  }

  /** Every payload byte is sent, in order, and the closing events follow. */
  lemma {:induction false} SentBytes(a: App, data: seq<byte>)
    requires a.Writing() && !a.prog.MwWrite? && |data| <= a.nbytes
    ensures Outgoing(a.Sent(data).bus) == Outgoing(a.bus) + data
    ensures |a.Sent(data).bus| == |a.bus| + |data| && a.bus <= a.Sent(data).bus
  {
    hide Outgoing, App.Closing;
    if data == [] {
    } else {
      var init := a.Sent(data[..|data| - 1]);
      SentBytes(a, data[..|data| - 1]);
      var b := data[|data| - 1];
      OutgoingSnoc(init.bus, if a.prog.SpiWrite? then Spi(b, init.Next()) else Tx(b));
    }
  }

  function AllBits(data: seq<byte>): (r: seq<bool>)
    ensures |r| == 8 * |data|
  {
    if data == [] then [] else AllBits(data[..|data| - 1]) + Bits(data[|data| - 1], 8)
  }

  /** Bits clocked out on the MicroWire data line. */
  function Clocked(bus: seq<Bus>): seq<bool> {
    if bus == [] then []
    else
      var e := bus[|bus| - 1];
      Clocked(bus[..|bus| - 1]) + (if e.MwTx? && e.bits <= 8 then Bits(e.b, e.bits) else [])
  }

  lemma ClockedSnoc(bus: seq<Bus>, e: Bus)
    ensures Clocked(bus + [e]) == Clocked(bus) + (if e.MwTx? && e.bits <= 8 then Bits(e.b, e.bits) else [])
  {
    assert (bus + [e])[..|bus|] == bus;
  }

  /** The bits of one byte that are among the first `limit` bits of the transfer. */
  lemma AllBitsSnoc(data: seq<byte>, limit: nat)
    requires data != []
    ensures var n := |data| - 1;
            && (limit <= 8 * n ==> AllBits(data)[..limit] == AllBits(data[..n])[..limit])
            && (8 * n <= limit ==>
                  AllBits(data)[..Min(limit, 8 * |data|)] == AllBits(data[..n]) + Bits(data[n], Min(limit - 8 * n, 8)))
  {
    hide Bits;
    var n := |data| - 1;
    if 8 * n <= limit {
      BitsPrefix(data[n], Min(limit - 8 * n, 8), 8);
    }
  }

  lemma BitsOfOne(t: App, b: byte)
    requires t.prog.MwWrite? && t.nbytes > 0
    ensures var m := Min(t.mwBits, 8);
            && t.WriteOne(b).mwBits == t.mwBits - m
            && Clocked(t.WriteOne(b).bus) == Clocked(t.bus) + Bits(b, m)
  {
    ClockedSnoc(t.bus, MwTx(b, Min(t.mwBits, 8)));
  }

  /** A MicroWire write clocks out exactly the requested number of leading bits, or all there are. */
  lemma {:induction false} SentBits(a: App, data: seq<byte>)
    requires a.prog.MwWrite? && |data| <= a.nbytes
    ensures Clocked(a.Sent(data).bus) == Clocked(a.bus) + AllBits(data)[..Min(a.mwBits, 8 * |data|)]
    ensures a.Sent(data).mwBits == a.mwBits - Min(a.mwBits, 8 * |data|)
  {
    hide AllBits, Bits, Clocked, App.WriteOne, App.Closing;
    if data == [] {
      assert AllBits(data)[..0] == [];
    } else {
      var n := |data| - 1;
      SentBits(a, data[..n]);
      BitsOfOne(a.Sent(data[..n]), data[n]);
      AllBitsSnoc(data, a.mwBits);
      assert |Bits(data[n], 0)| == 0;
      assert AllBits(data[..n])[..8 * n] == AllBits(data[..n]);
    }
  }

  /** The write function called for one packet after the other. */
  function WriteAll(a: App, packets: seq<seq<byte>>): App {
    if packets == [] then a else WriteAll(a, packets[..|packets| - 1]).Write(packets[|packets| - 1])
  }

  lemma SentNothing(a: App)
    ensures a.Sent([]) == a
  {
  }

  /** How the payload is cut into packets makes no difference: while bytes are missing every call returns 0, and the
      call that brings the last one returns 1 and closes the transfer. */
  lemma {:induction false} Packetisation(a: App, packets: seq<seq<byte>>)
    requires a.Writing() && packets != []
    requires var n := |packets| - 1;
             |Concat(packets[..n])| < a.nbytes && |Concat(packets)| <= a.nbytes
    ensures var n := |packets| - 1;
            && WriteAll(a, packets[..n]) == a.Sent(Concat(packets[..n]))
            && WriteAll(a, packets[..n]).WriteStatus(packets[n]) == (if |Concat(packets)| == a.nbytes then 1 else 0)
            && WriteAll(a, packets) == if |Concat(packets)| == a.nbytes then a.Sent(Concat(packets)).Closed()
                                       else a.Sent(Concat(packets))
  {
    hide App.Sent, App.Closed;
    var n := |packets| - 1;
    var init := packets[..n];
    if n == 0 {
      SentNothing(a);
    } else {
      assert init[..n - 1] == packets[..n - 1];
      assert |Concat(init)| == |Concat(init[..n - 1])| + |init[n - 1]|;
      Packetisation(a, init);
    }
    SentAdd(a, Concat(init), packets[n]);
    assert packets[n][..|packets[n]|] == packets[n];
  }

  /** Only the SPI write keeps its state: one packet too many is answered like the last one, and releases the device
      once more; the other write requests refuse it. */
  lemma ExtraPacket(a: App, payload: seq<byte>, extra: seq<byte>)
    requires a.Writing() && |payload| == a.nbytes
    ensures var t := a.Sent(payload).Closed();
            && (t.WriteStatus(extra) == 0xFF <==> !a.prog.SpiWrite?)
            && (t.Write(extra) == t <==> !a.prog.SpiWrite? || a.Closing() == [])
  {
    var t := a.Sent(payload).Closed();
    SentKeeps(a, payload);
    if a.prog.SpiWrite? {
      assert extra[..0] == [];
      assert t.Write(extra) == t.Closed();
      if a.Closing() == [] {
        assert t.bus + [] == t.bus;
      } else {
        assert |t.Closed().bus| > |t.bus|;
      }
    }
  }

  lemma I2cCloses(t: App)
    requires t.prog.I2cRead?
    ensures t.Closed() == t.On(Stop).(prog := Idle)
  {
  }

  /** What a request asks for on the bus before and after its data. */
  function Opening(r: Request): seq<Bus> {
    match r[1]
    case 51 => [Cs(false)]
    case 52 => [Cs(false)]
    case 71 => [Tx(2 * (r[2] / 2) + 1)]
    case 72 => [Start, Tx(2 * (r[2] / 2))]
    case 93 => [Cs(true)]
    case _ => []
  }

  function Ending(r: Request): seq<Bus> {
    match r[1]
    case 71 => [Stop]
    case 72 => if r[4] == 1 then [Stop] else [Start]
    case 92 => if r[2] != 0 then [MwEnd] else []
    case 93 => if r[2] != 0 then [MwEnd] else []
    case _ => if r[2] != 0 then [Cs(true)] else []
  }

  lemma SetupOpens(a: App, r: Request)
    requires !StreamOf(r[1]).Idle?
    ensures a.Setup(r).bus == a.bus + Opening(r) && a.Setup(r).Closing() == Ending(r)
  {
  }

  /** A read from request to end: opened, every byte, and ended as the request's bytes say. */
  lemma ReadOnBus(a: App, r: Request)
    requires a.Setup(r).Reading() && !StreamOf(r[1]).Idle? && Length(r) > 0
    ensures var t := a.Setup(r);
            t.Read(Length(r)).bus == a.bus + Opening(r) + ReadTrace(t, t.Payload(Length(r))) + Ending(r)
  {
    SetupOpens(a, r);
    hide App.Setup, App.Pulled, App.Payload, ReadTrace;
    WholeRead(a.Setup(r));
  }

  /** A write from request to end; in between, SPI and I2C carry exactly the payload, and MicroWire the first of its
      bits, as many as the request announces. */
  lemma WriteOnBus(a: App, r: Request, data: seq<byte>)
    requires a.Setup(r).Writing() && !StreamOf(r[1]).Idle? && |data| == Length(r)
    ensures var start := a.bus + Opening(r);
            var t := a.Setup(r).Sent(data);
            && t.Closed().bus == t.bus + Ending(r)
            && (r[1] != 93 ==> Outgoing(t.bus) == Outgoing(start) + data)
            && (r[1] == 93 ==> Clocked(t.bus) == Clocked(start) + AllBits(data)[..Min(r[4], 8 * |data|)])
  {
    SetupOpens(a, r);
    assert r[1] == 93 ==> a.Setup(r).mwBits == r[4];
    hide App.Setup, App.Sent, Outgoing, Clocked, AllBits;
    SentKeeps(a.Setup(r), data);
    if r[1] == 93 {
      SentBits(a.Setup(r), data);
    } else {
      SentBytes(a.Setup(r), data);
    }
  }

  /** The bytes that arrive from the device. */
  function Incoming(bus: seq<Bus>): seq<byte> {
    if bus == [] then []
    else
      var e := bus[|bus| - 1];
      var rest := Incoming(bus[..|bus| - 1]);
      if e.Spi? then rest + [e.miso] else if e.Rx? || e.MwRx? then rest + [e.b] else rest
  }

  lemma IncomingSnoc(bus: seq<Bus>, e: Bus)
    ensures Incoming(bus + [e]) ==
            Incoming(bus) + (if e.Spi? then [e.miso] else if e.Rx? || e.MwRx? then [e.b] else [])
  {
    assert (bus + [e])[..|bus|] == bus;
  }

  /** The levels a request puts on the chip select line. */
  function Selected(bus: seq<Bus>): seq<bool> {
    if bus == [] then []
    else Selected(bus[..|bus| - 1]) + if bus[|bus| - 1].Cs? then [bus[|bus| - 1].high] else []
  }

  lemma SelectedSnoc(bus: seq<Bus>, e: Bus)
    ensures Selected(bus + [e]) == Selected(bus) + if e.Cs? then [e.high] else []
  {
    assert (bus + [e])[..|bus|] == bus;
  }

  /** A read delivers to the host exactly what has arrived; on SPI it sends zeros meanwhile. */
  lemma {:induction false} PulledIncoming(a: App, k: nat)
    requires a.Reading() && k <= a.nbytes
    ensures Incoming(a.Pulled(k).bus) == Incoming(a.bus) + a.Payload(k)
    ensures Outgoing(a.Pulled(k).bus) == Outgoing(a.bus) + if a.prog.SpiRead? then Zeros(k) else []
  {
    hide Incoming, Outgoing, App.Closing;
    if k > 0 {
      PulledIncoming(a, k - 1);
      var t := a.Pulled(k - 1);
      IncomingSnoc(t.bus, t.ReadEvent(t.Next(), t.nbytes == 1));
      OutgoingSnoc(t.bus, t.ReadEvent(t.Next(), t.nbytes == 1));
    }
  }

  /** The requests passed on to an AVR or TPI target. */
  function Passed(bus: seq<Bus>): seq<seq<byte>> {
    if bus == [] then []
    else Passed(bus[..|bus| - 1]) + if bus[|bus| - 1].Target? then [bus[|bus| - 1].request] else []
  }

  lemma PassedSnoc(bus: seq<Bus>, e: Bus)
    ensures Passed(bus + [e]) == Passed(bus) + if e.Target? then [e.request] else []
  {
    assert (bus + [e])[..|bus|] == bus;
  }

  /** CONNECT, DISCONNECT, ENABLEPROG and the TPI requests are passed on, and no others. */
  lemma PlainPassed(a: App, r: Request)
    requires StreamOf(r[1]).Idle?
    ensures Passed(a.Setup(r).bus) == Passed(a.bus) + if r[1] in {1, 2, 5, 11, 12, 13, 14} then [r] else []
    ensures (a.Setup(r).bus == a.bus <==> r[1] !in {1, 2, 3, 5, 11, 12, 13, 14, 50, 73, 74, 75, 76, 94})
  {
    hide Passed;
    var t := a.Setup(r);
    if r[1] == 3 {
      PassedSnoc(a.bus, Spi(r[2], a.Next()));
      PassedSnoc(a.Shifted(r[2]).bus, Spi(r[3], a.Shifted(r[2]).Next()));
      PassedSnoc(a.Shifted(r[2]).Shifted(r[3]).bus, Spi(r[4], a.Shifted(r[2]).Shifted(r[3]).Next()));
      var u := a.Shifted(r[2]).Shifted(r[3]).Shifted(r[4]);
      PassedSnoc(u.bus, Spi(r[5], u.Next()));
      assert |t.bus| == |a.bus| + 4;
    } else if r[1] == 94 {
      PassedSnoc(a.bus, Cs(true));
      PassedSnoc(a.bus + [Cs(true)], Cs(false));
      assert |t.bus| == |a.bus| + 2;
    } else if r[1] in {1, 2, 5, 11, 12, 13, 14, 50, 73, 74, 75, 76} {
      assert |t.bus| == |a.bus| + 1;
      assert t.bus == a.bus + [t.bus[|a.bus|]];
      PassedSnoc(a.bus, t.bus[|a.bus|]);
    }
  }

  /** What the requests without a data stage send and select: TRANSMIT its four bytes, I2C_WRITEBYTE its one,
      SPI_CONNECT raises chip select, MW_BUSY raises and lowers it. Their transfer state stays as it is. */
  lemma PlainBus(a: App, r: Request)
    requires StreamOf(r[1]).Idle?
    ensures var t := a.Setup(r);
            && Outgoing(t.bus) == Outgoing(a.bus) + (if r[1] == 3 then r[2..6] else if r[1] == 76 then [r[2]] else [])
            && Selected(t.bus) ==
               Selected(a.bus) + (if r[1] == 50 then [true] else if r[1] == 94 then [true, false] else [])
            && t == a.(bus := t.bus)
  {
    PlainSteps(a, r);
    hide Outgoing, Selected, App.Setup;
    var t := a.Setup(r);
    if r[1] == 3 {
      FourOut(a, r[2], r[3], r[4], r[5]);
      assert r[2..6] == [r[2], r[3], r[4], r[5]];
    } else if t.bus != a.bus {
      var n := |t.bus| - 1;
      OutgoingSnoc(t.bus[..n], t.bus[n]);
      SelectedSnoc(t.bus[..n], t.bus[n]);
      assert t.bus[..n] + [t.bus[n]] == t.bus;
      if r[1] == 94 {
        OutgoingSnoc(a.bus, Cs(true));
        SelectedSnoc(a.bus, Cs(true));
      }
    }
  }

  /** At most one event, but for the two requests with more. */
  lemma PlainSteps(a: App, r: Request)
    requires StreamOf(r[1]).Idle?
    ensures var t := a.Setup(r);
            && t == a.(bus := t.bus)
            && (r[1] == 3 ==> t == a.Shifted(r[2]).Shifted(r[3]).Shifted(r[4]).Shifted(r[5]))
            && (r[1] == 94 ==> t.bus == a.bus + [Cs(true)] + [Cs(false)])
            && (r[1] !in {3, 94} ==>
                  t.bus == a.bus
                  || (|t.bus| == |a.bus| + 1 && t.bus[..|a.bus|] == a.bus && PlainEvent(a, r, t.bus[|a.bus|])))
            && (r[1] in {50, 73, 74, 75, 76} ==> t.bus != a.bus)
  {
  }

  predicate PlainEvent(a: App, r: Request, e: Bus) {
    match r[1]
    case 50 => e == Cs(true)
    case 73 => e == Start
    case 74 => e == Stop
    case 75 => e == Rx(a.Next(), r[2] == I2C_ACK)
    case 76 => e == Tx(r[2])
    case _ => e == Target(r)
  }

  lemma FourOut(a: App, b: byte, c: byte, d: byte, e: byte)
    ensures var t := a.Shifted(b).Shifted(c).Shifted(d).Shifted(e);
            && Outgoing(t.bus) == Outgoing(a.bus) + [b, c, d, e]
            && Selected(t.bus) == Selected(a.bus)
            && Incoming(t.bus) == Incoming(a.bus) + [a.Next(), a.Shifted(b).Next(), a.Shifted(b).Shifted(c).Next(),
                                                     a.Shifted(b).Shifted(c).Shifted(d).Next()]
  {
    hide Outgoing, Selected, Incoming;
    var t1 := a.Shifted(b);
    var t2 := t1.Shifted(c);
    var t3 := t2.Shifted(d);
    OneOut(a, b);
    OneOut(t1, c);
    OneOut(t2, d);
    OneOut(t3, e);
  }

  lemma OneOut(a: App, b: byte)
    ensures var t := a.Shifted(b);
            && Outgoing(t.bus) == Outgoing(a.bus) + [b] && Selected(t.bus) == Selected(a.bus)
            && Incoming(t.bus) == Incoming(a.bus) + [a.Next()]
  {
    hide Outgoing, Selected, Incoming;
    OutgoingSnoc(a.bus, Spi(b, a.Next()));
    SelectedSnoc(a.bus, Spi(b, a.Next()));
    IncomingSnoc(a.bus, Spi(b, a.Next()));
  }

  /** What they answer: TRANSMIT and I2C_READBYTE what has arrived, in order; I2C_WRITEBYTE what the device says after
      the byte, MW_BUSY whether it keeps its line low while selected; the rest answers a value from the target, a fixed
      one, or nothing. */
  lemma PlainReply(a: App, r: Request)
    requires StreamOf(r[1]).Idle?
    ensures Incoming(a.Setup(r).bus) == Incoming(a.bus) + (if r[1] in {3, 75} then a.Reply(r) else [])
    ensures r[1] in {3, 75} ==> a.Reply(r) != []
    ensures r[1] == 76 ==> a.Reply(r) == [a.Setup(r).Next()]
    ensures r[1] in {5, 13} ==> a.Reply(r) == [a.Next()]
    ensures r[1] !in {3, 5, 10, 13, 75, 76, 94, 127} ==> a.Reply(r) == []
    ensures r[1] == 10 ==> a.Reply(r) == [0]
    ensures r[1] == 127 ==> a.Reply(r) == [1, 0, 0, 1]
    ensures r[1] == 94 ==> a.Reply(r) == [if a.slave(a.bus + [Cs(true)]) == 0 then 1 else 0]
  {
    PlainSteps(a, r);
    if r[1] == 3 {
      FourOut(a, r[2], r[3], r[4], r[5]);
    } else if r[1] == 94 {
      hide Incoming;
      IncomingSnoc(a.bus, Cs(true));
      IncomingSnoc(a.bus + [Cs(true)], Cs(false));
    } else {
      hide Incoming;
      var t := a.Setup(r);
      if t.bus != a.bus {
        var n := |a.bus|;
        IncomingSnoc(a.bus, t.bus[n]);
        assert a.bus + [t.bus[n]] == t.bus;
      }
    }
  }

  /** The firmware's globals and the functions the driver calls. */
  class Usbasp {
    var progState: Prog
    var progNbytes: word
    var spiCsHi: byte
    var mwCsLo: byte
    var mwBitnum: byte
    var i2cStopAw: byte
    var replyBuffer: seq<byte>
    var bus: seq<Bus>
    const slave: seq<Bus> -> byte

    constructor (device: seq<Bus> -> byte)
      ensures State() == App(Idle, 0, 1, 1, 0, 0, [], device)
    {
      progState, progNbytes, spiCsHi, mwCsLo, mwBitnum, i2cStopAw := Idle, 0, 1, 1, 0, 0;
      replyBuffer, bus, slave := [], [], device;
    }

    function State(): App
      reads this
    {
      App(progState, progNbytes, spiCsHi, mwCsLo, mwBitnum, i2cStopAw, bus, slave)
    }

    method Drive(e: Bus)
      modifies this`bus
      ensures State() == old(State().On(e))
    {
      bus := bus + [e];
    }

    method IspTransmit(b: byte) returns (r: byte)
      modifies this`bus
      ensures r == old(State().Next()) && State() == old(State().Shifted(b))
    {
      r := slave(bus);
      bus := bus + [Spi(b, r)];
    }

    method I2cReadByte(ack: byte) returns (r: byte)
      modifies this`bus
      ensures r == old(State().Next()) && State() == old(State().On(Rx(State().Next(), ack == I2C_ACK)))
    {
      r := slave(bus);
      bus := bus + [Rx(r, ack == I2C_ACK)];
    }

    /** The result tells whether the data stage goes through the read and write functions; if not, `replyBuffer` holds
        the reply. */
    method FunctionSetup(data: Request) returns (stream: bool)
      requires Modelled(data[1])
      modifies this
      ensures State() == old(State()).Setup(data)
      ensures stream == !StreamOf(data[1]).Idle?
      ensures !stream ==> replyBuffer == old(State()).Reply(data)
    {
      stream := false;
      replyBuffer := [];
      var n := Join(data[7], data[6]);
      match data[1] {
        case 1 => Drive(Target(data));
        case 2 => Drive(Target(data));
        case 5 => {
          replyBuffer := [slave(bus)];
          Drive(Target(data));
        }
        case 10 => replyBuffer := [0];
        case 11 => Drive(Target(data));
        case 12 => Drive(Target(data));
        case 13 => {
          replyBuffer := [slave(bus)];
          Drive(Target(data));
        }
        case 14 => Drive(Target(data));
        case 127 => replyBuffer := [1, 0, 0, 1];
        case 3 => {
          var a := IspTransmit(data[2]);
          var b := IspTransmit(data[3]);
          var c := IspTransmit(data[4]);
          var d := IspTransmit(data[5]);
          replyBuffer := [a, b, c, d];
        }
        case 50 => Drive(Cs(true));
        case 51 => {
          Drive(Cs(false));
          spiCsHi, progNbytes, progState, stream := data[2], n, SpiRead, true;
        }
        case 52 => {
          Drive(Cs(false));
          spiCsHi, progNbytes, progState, stream := data[2], n, SpiWrite, true;
        }
        case 71 => {
          Drive(Tx(SetBit(data[2], 1)));
          progNbytes, progState, stream := n, I2cRead, true;
        }
        case 72 => {
          Drive(Start);
          Drive(Tx(ClearBit(data[2], 1)));
          i2cStopAw, progNbytes, progState, stream := data[4], n, I2cWrite, true;
        }
        case 73 => Drive(Start);
        case 74 => Drive(Stop);
        case 75 => {
          var a := I2cReadByte(data[2]);
          replyBuffer := [a];
        }
        case 76 => {
          Drive(Tx(data[2]));
          replyBuffer := [slave(bus)];
        }
        case 92 => {
          mwCsLo, progNbytes, progState, stream := data[2], n, MwRead, true;
        }
        case 93 => {
          Drive(Cs(true));
          mwCsLo, mwBitnum, progNbytes, progState, stream := data[2], data[4], n, MwWrite, true;
        }
        case 94 => {
          Drive(Cs(true));
          var level := slave(bus);
          Drive(Cs(false));
          replyBuffer := [if level != 0 then 0 else 1];
        }
        case _ => {}
      }
    }

    /** The loop of an SPI or MicroWire read. */
    method Collect(len: byte) returns (data: seq<byte>)
      requires (progState == SpiRead || progState == MwRead) && len <= progNbytes
      modifies this`bus, this`progNbytes
      ensures State() == old(State().Pulled(len)) && data == old(State().Payload(len))
    {
      hide App.Closing;
      data := [];
      for i := 0 to len
        invariant State() == old(State()).Pulled(i) && data == old(State()).Payload(i)
      {
        var b: byte;
        if progState == SpiRead {
          b := IspTransmit(0);
        } else {
          b := slave(bus);
          bus := bus + [MwRx(b)];
        }
        data := data + [b];
        progNbytes := progNbytes - 1;
      }
    }

    method CollectI2c(len: byte) returns (data: seq<byte>)
      requires progState == I2cRead && len <= progNbytes
      modifies this`bus, this`progNbytes, this`progState
      ensures State() == var t := old(State().Pulled(len)); if 0 < len && len == old(progNbytes) then t.Closed() else t
      ensures data == old(State().Payload(len))
    {
      hide App.Closing, App.Closed;
      data := [];
      ghost var start := State();
      for i := 0 to len
        invariant State() == if 0 < i && i == start.nbytes then start.Pulled(i).Closed() else start.Pulled(i)
        invariant data == start.Payload(i)
      {
        progNbytes := progNbytes - 1;
        var b: byte;
        if progNbytes == 0 {
          b := I2cReadByte(1);
          I2cCloses(State());
          Drive(Stop);
          progState := Idle;
        } else {
          b := I2cReadByte(I2C_ACK);
        }
        data := data + [b];
      }
    }

    method FunctionRead(wanted: byte) returns (len: byte, data: seq<byte>)
      requires wanted <= 8
      modifies this`bus, this`progNbytes, this`progState
      ensures State() == old(State()).Read(wanted)
      ensures len == 0xFF <==> !old(State()).Reading()
      ensures len != 0xFF ==> data == old(State()).ReadBytes(wanted) && |data| == len
    {
      hide App.Pulled, App.Payload;
      data := [];
      if progState != SpiRead && progState != MwRead && progState != I2cRead {
        return 0xFF, data;
      }
      len := if wanted > progNbytes then progNbytes else wanted;
      if progState == I2cRead {
        data := CollectI2c(len);
        return;
      }
      data := Collect(len);
      if progNbytes == 0 {
        if progState == SpiRead && spiCsHi != 0 {
          Drive(Cs(true));
        } else if progState == MwRead && mwCsLo != 0 {
          Drive(MwEnd);
        }
        progState := Idle;
      }
    }

    /** The loop over the bytes of a packet. */
    method Emit(data: seq<byte>)
      requires State().Writing() && |data| <= progNbytes
      modifies this`bus, this`progNbytes, this`mwBitnum
      ensures State() == old(State()).Sent(data)
    {
      hide App.Closing;
      for i := 0 to |data|
        invariant State() == old(State()).Sent(data[..i])
      {
        assert data[..i + 1][..i] == data[..i];
        EmitOne(data[i]);
      }
      assert data[..|data|] == data;
    }

    method EmitOne(b: byte)
      requires State().Writing() && progNbytes > 0
      modifies this`bus, this`progNbytes, this`mwBitnum
      ensures State() == old(State()).WriteOne(b)
    {
      if progState == I2cWrite {
        Drive(Tx(b));
      } else if progState == SpiWrite {
        var r := IspTransmit(b);
      } else if mwBitnum > 0 {
        if mwBitnum < 8 {
          Drive(MwTx(b, mwBitnum));
          mwBitnum := 0;
        } else {
          Drive(MwTx(b, 8));
          mwBitnum := mwBitnum - 8;
        }
      }
      progNbytes := progNbytes - 1;
    }

    method FunctionWrite(data: seq<byte>) returns (status: byte)
      modifies this`bus, this`progNbytes, this`mwBitnum, this`progState
      ensures State() == old(State()).Write(data)
      ensures status == old(State()).WriteStatus(data)
    {
      hide App.Sent, App.WriteOne;
      if progState != SpiWrite && progState != MwWrite && progState != I2cWrite {
        return 0xFF;
      }
      var len := if |data| > progNbytes then progNbytes else |data|;
      Emit(data[..len]);
      if progNbytes > 0 {
        return 0;
      }
      if progState == I2cWrite {
        Drive(if i2cStopAw == 1 then Stop else Start);
        progState := Idle;
      } else if progState == SpiWrite {
        if spiCsHi != 0 {
          Drive(Cs(true));
        }
      } else {
        if mwCsLo != 0 {
          Drive(MwEnd);
        }
        progState := Idle;
      }
      return 1;
    }
  }
}
