/** The control pipe of the V-USB driver (usbdrv.c): transfers cut into packets of 8 bytes with alternating data
    PIDs, run against the application under any order of host events. */
module UsbPipe {
  import opened Bytes
  import opened UsbaspApp

  const USB_NO_MSG: word := 0xFFFF

  datatype Packet = Packet(data1: bool, bytes: seq<byte>)

  /** `usbTxLen` with `usbTxBuf`: a handshake, or a packet the host has not taken yet. */
  datatype Tx = Nak | Stall | Data(packet: Packet)

  /** What the interrupt routine left in the receive buffer. */
  datatype Rx = Quiet | Setup(data: seq<byte>) | Out(data: seq<byte>)

  /** A step of the device: the main loop polls, or the host takes the packet on offer. */
  datatype Event = Poll(rx: Rx) | In

  predicate IsStandard(d: Request) {
    (d[0] / 0x20) % 4 == 0
  }

  predicate IsIn(d: Request) {
    d[0] >= 0x80
  }

  /** Requests the model covers: the driver's own, and those of the application module. */
  predicate Supported(rx: Rx) {
    rx.Setup? && |rx.data| == 8 && !IsStandard(rx.data) ==> Modelled(rx.data[1])
  }

  /** A descriptor or status value; never as long as the driver's marker for "no message". */
  type Message = m: seq<byte> | |m| < USB_NO_MSG witness []

  /** `standard` gives the answers to standard requests, `log` is what the host has taken. `data1` is the PID in
      `usbTxBuf`, and `msg` the memory from `usbMsgPtr` on. */
  datatype Dev = Dev(app: App, msgLen: word, userRw: bool, msg: seq<byte>, data1: bool, tx: Tx,
                     log: seq<Packet>, standard: seq<byte> -> Message) {

    predicate Valid() {
      !userRw && msgLen != USB_NO_MSG ==> msgLen <= |msg|
    }

    predicate Idle() {
      !tx.Data?
    }

    /** An accepted SETUP: whatever was going on is forgotten. */
    function Accept(d: Request): (t: Dev)
      ensures t.Valid()
    {
      var t := this.(data1 := false, tx := Nak);
      if IsStandard(d) then t.Answering(standard(d), Length(d))
      else if StreamOf(d[1]).Idle? then
        t.(app := app.Setup(d)).Answering(app.Reply(d), Length(d))
      else t.(app := app.Setup(d), userRw := true, msgLen := if IsIn(d) then Length(d) else USB_NO_MSG)
    }

    function Answering(reply: Message, limit: word): Dev {
      this.(userRw := false, msg := reply, msgLen := Min(|reply|, limit))
    }

    /** usbProcessRx. */
    function Process(rx: Rx): Dev {
      match rx
      case Quiet => this
      case Setup(d) => if |d| == 8 then Accept(d) else this
      case Out(d) =>
        if !userRw then this
        else
          var t := this.(app := app.Write(d));
          var status := app.WriteStatus(d);
          if status == 0xFF then t.(tx := Stall) else if status != 0 then t.(msgLen := 0) else t
    }

    /** usbBuildTxBlock, with usbDeviceRead. */
    function Build(): Dev
      requires Valid() && msgLen != USB_NO_MSG
    {
      var want := Min(msgLen, 8);
      var t := this.(data1 := !data1, msgLen := msgLen - want);
      if want == 0 then t.Offer([])
      else if !userRw then t.(msg := msg[want..]).Offer(msg[..want])
      else if app.Reading() then t.(app := app.Read(want)).Offer(app.ReadBytes(want))
      else t.(tx := Stall, msgLen := USB_NO_MSG)
    }

    /** A packet that is not full ends the message. */
    function Offer(bytes: seq<byte>): Dev {
      this.(tx := Data(Packet(data1, bytes)), msgLen := if |bytes| < 8 then USB_NO_MSG else msgLen)
    }

    /** usbPoll. */
    function Polled(rx: Rx): Dev
      requires Valid()
    {
      var t := Process(rx);
      if t.Idle() && t.msgLen != USB_NO_MSG then t.Build() else t
    }

    /** The interrupt routine's answer to an IN token. */
    function Taken(): Dev {
      if tx.Data? then this.(tx := Nak, log := log + [tx.packet]) else this
    }

    function Step(e: Event): (t: Dev)
      requires Valid()
      ensures t.Valid()
    {
      match e
      case Poll(rx) => Polled(rx)
      case In => Taken()
    }

    function Run(es: seq<Event>): (t: Dev)
      requires Valid()
      ensures t.Valid()
    {
      if es == [] then this else Run(es[..|es| - 1]).Step(es[|es| - 1])
    }

    /** Packets handed to the interrupt routine, taken by the host or not. */
    function Built(): seq<Packet> {
      log + (if tx.Data? then [tx.packet] else [])
    }
  }

  /** How a message is cut: packet `i`. */
  function Chunk(p: seq<byte>, i: nat): seq<byte> {
    p[Min(8 * i, |p|)..Min(8 * i + 8, |p|)]
  }

  /** The first `j` packets of a message; the first one is a DATA1 packet. */
  function Packets(p: seq<byte>, j: nat): (r: seq<Packet>)
    ensures |r| == j
    ensures forall i | 0 <= i < j :: r[i] == Packet(i % 2 == 0, Chunk(p, i))
  {
    if j == 0 then [] else Packets(p, j - 1) + [Packet((j - 1) % 2 == 0, Chunk(p, j - 1))]
  }

  function PacketCount(p: seq<byte>): nat {
    |p| / 8 + 1
  }

  function BytesOf(packets: seq<Packet>): seq<byte> {
    if packets == [] then [] else BytesOf(packets[..|packets| - 1]) + packets[|packets| - 1].bytes
  }

  lemma ChunkExtends(p: seq<byte>, i: nat)
    ensures p[..Min(8 * i, |p|)] + Chunk(p, i) == p[..Min(8 * (i + 1), |p|)]
  {
  }

  lemma {:induction false} PacketsContent(p: seq<byte>, j: nat)
    ensures BytesOf(Packets(p, j)) == p[..Min(8 * j, |p|)]
  {
    hide Chunk;
    if j > 0 {
      PacketsContent(p, j - 1);
      assert Packets(p, j)[..j - 1] == Packets(p, j - 1);
      ChunkExtends(p, j - 1);
    }
  }

  /** A message arrives whole: 8 bytes in every packet but the last, which is shorter (and may be empty), and PIDs that
      alternate starting with DATA1 (sections 5.5.3 and 8.5.3 of the USB 2.0 specification). */
  lemma MessageWhole(p: seq<byte>)
    ensures var r := Packets(p, PacketCount(p));
            && BytesOf(r) == p
            && (forall i | 0 <= i < |r| - 1 :: |r[i].bytes| == 8)
            && |r[|r| - 1].bytes| < 8
            && (forall i | 0 <= i < |r| :: r[i].data1 == (i % 2 == 0))
  {
    hide BytesOf;
    PacketsContent(p, PacketCount(p));
    assert p[..|p|] == p;
  }

  /** Where the data of a control-IN transfer comes from: the bus, or a reply in memory. */
  datatype Source = Stream(a0: App) | Memory(a0: App, reply: Message, limit: word) {

    predicate Served() {
      Stream? ==> a0.Reading() && 0 < a0.nbytes < USB_NO_MSG
    }

    function Content(): (p: seq<byte>)
      requires Served()
      ensures |p| < USB_NO_MSG
    {
      if Stream? then a0.Payload(a0.nbytes) else reply[..Min(|reply|, limit)]
    }

    /** The application after `k` bytes: a stream ends on the bus exactly with its last byte. */
    function After(k: nat): App {
      if Memory? then a0 else a0.Read(k)
    }
  }

  /** Bytes the driver still has to send after `j` packets. */
  function Left(p: seq<byte>, j: nat): nat {
    if j < PacketCount(p) then |p| - 8 * j else USB_NO_MSG
  }

  function Sofar(p: seq<byte>, j: nat): nat {
    Min(8 * j, |p|)
  }

  /** The driver has cut `j` packets of the message, and driver and application agree on what is left. */
  ghost predicate Serving(d: Dev, src: Source, j: nat)
    requires src.Served()
  {
    var p := src.Content();
    && j <= PacketCount(p)
    && d.data1 == (j % 2 == 1)
    && d.msgLen == Left(p, j)
    && d.app == src.After(Sofar(p, j))
    && d.userRw == src.Stream?
    && (src.Memory? ==> d.msg == src.reply[Sofar(p, j)..])
    && (d.tx.Data? ==> j > 0 && d.tx.packet == Packet((j - 1) % 2 == 0, Chunk(p, j - 1)))
  }

  lemma CountsAgree(d: Dev, src: Source, j: nat)
    requires src.Served() && src.Stream? && Serving(d, src, j) && j < PacketCount(src.Content())
    ensures d.msgLen == d.app.nbytes
  {
  }

  lemma ReadAdd(a: App, j: nat, k: nat)
    requires a.Reading() && j < a.nbytes && j + k <= a.nbytes
    ensures a.Read(j) == a.Pulled(j)
    ensures a.Read(j).Read(k) == a.Read(j + k)
    ensures a.Read(j).ReadBytes(k) == a.Payload(j + k)[j..]
    ensures a.Read(j).Reading()
  {
    hide App.Payload, App.Pulled, App.Closed;
    PulledAdd(a, j, k);
  }

  lemma {:induction false} PayloadPrefix(a: App, j: nat, k: nat)
    requires j <= k <= a.nbytes
    ensures a.Payload(k)[..j] == a.Payload(j)
    decreases k
  {
    if j < k {
      PayloadPrefix(a, j, k - 1);
    }
  }

  /** One portion of a stream is the next packet of the message. */
  lemma StreamPart(a: App, j: nat)
    requires a.Reading() && 8 * j < a.nbytes
    ensures var want := Min(a.nbytes - 8 * j, 8);
            && a.Read(8 * j).Reading()
            && a.Read(8 * j).Read(want) == a.Read(8 * j + want)
            && a.Read(8 * j).ReadBytes(want) == Chunk(a.Payload(a.nbytes), j)
  {
    hide App.Read, App.Payload, App.ReadBytes, App.Reading;
    var want := Min(a.nbytes - 8 * j, 8);
    ReadAdd(a, 8 * j, want);
    PayloadPrefix(a, 8 * j + want, a.nbytes);
  }

  lemma BuildStream(d: Dev, src: Source, j: nat)
    requires src.Served() && src.Stream? && Serving(d, src, j) && d.Valid() && d.msgLen != USB_NO_MSG
    ensures Serving(d.Build(), src, j + 1)
    ensures d.Build().tx == Data(Packet(j % 2 == 0, Chunk(src.Content(), j)))
    ensures d.Build().log == d.log
  {
    hide App.Read, App.Payload, App.ReadBytes, App.Reading;
    if 8 * j < |src.Content()| {
      StreamPart(src.a0, j);
    }
  }

  lemma MemoryPart(reply: seq<byte>, n: nat, j: nat)
    requires 8 * j <= n <= |reply|
    ensures var p := reply[..n];
            var want := Min(n - 8 * j, 8);
            && Sofar(p, j) == 8 * j && Sofar(p, j + 1) == 8 * j + want
            && reply[8 * j..][want..] == reply[8 * j + want..]
            && reply[8 * j..][..want] == Chunk(p, j)
  {
    DropSum(reply, 8 * j, Min(n - 8 * j, 8));
  }

  lemma DropSum<T>(s: seq<T>, a: nat, b: nat)
    requires a + b <= |s|
    ensures s[a..][b..] == s[a + b..] && s[a..][..b] == s[a..a + b]
  {
  }

  lemma BuildMemory(d: Dev, src: Source, j: nat)
    requires src.Served() && src.Memory? && Serving(d, src, j) && d.Valid() && d.msgLen != USB_NO_MSG
    ensures Serving(d.Build(), src, j + 1)
    ensures d.Build().tx == Data(Packet(j % 2 == 0, Chunk(src.Content(), j)))
    ensures d.Build().log == d.log
  {
    hide App.Read, App.Payload, App.ReadBytes, App.Reading, Chunk, Sofar;
    var p := src.Content();
    var n := Min(|src.reply|, src.limit);
    assert p == src.reply[..n];
    MemoryPart(src.reply, n, j);
  }

  lemma BuildServes(d: Dev, src: Source, j: nat)
    requires src.Served() && Serving(d, src, j) && d.Valid() && j < PacketCount(src.Content())
    ensures d.msgLen != USB_NO_MSG
    ensures Serving(d.Build(), src, j + 1)
    ensures d.Build().tx == Data(Packet(j % 2 == 0, Chunk(src.Content(), j)))
    ensures d.Build().log == d.log
  {
    LeftMarker(d, src, j);
    hide Serving;
    if src.Stream? {
      BuildStream(d, src, j);
    } else {
      BuildMemory(d, src, j);
    }
  }

  lemma LeftMarker(d: Dev, src: Source, j: nat)
    requires src.Served() && Serving(d, src, j)
    ensures d.msgLen == USB_NO_MSG <==> j == PacketCount(src.Content())
    ensures j <= PacketCount(src.Content())
  {
  }

  /** A packet from the host that does not start a new transfer. */
  predicate Unclaimed(e: Event) {
    e.Poll? && e.rx.Setup? ==> |e.rx.data| != 8
  }

  lemma OutServes(d: Dev, src: Source, j: nat, rx: Rx)
    requires src.Served() && Serving(d, src, j) && d.Valid() && Unclaimed(Poll(rx))
    ensures d.Process(rx) == if rx.Out? && src.Stream? then d.(tx := Stall) else d
    ensures Serving(d.Process(rx), src, j)
  {
    hide App.Payload, App.Pulled;
    if rx.Out? && src.Stream? {
      var k := Sofar(src.Content(), j);
      assert !src.a0.Read(k).Writing();
    }
  }

  /** Whatever the host does short of a new SETUP, the transfer goes on in order. */
  lemma StepServes(d: Dev, src: Source, j: nat, e: Event)
    requires src.Served() && Serving(d, src, j) && d.Valid() && Unclaimed(e)
    ensures var more := e.Poll? && d.Process(e.rx).Idle() && j < PacketCount(src.Content());
            Serving(d.Step(e), src, if more then j + 1 else j)
  {
    if e.Poll? {
      hide Serving;
      OutServes(d, src, j, e.rx);
      var t := d.Process(e.rx);
      LeftMarker(t, src, j);
      if t.Idle() && j < PacketCount(src.Content()) {
        BuildServes(t, src, j);
      }
    }
  }

  /** Polls without anything received, and IN tokens. */
  predicate Calm(e: Event) {
    e == In || e == Poll(Quiet)
  }

  /** ... and then no packet is lost. */
  lemma CalmServes(d: Dev, src: Source, j: nat, e: Event, log0: seq<Packet>)
    requires src.Served() && Serving(d, src, j) && d.Valid() && Calm(e)
    requires d.Built() == log0 + Packets(src.Content(), j)
    ensures var j' := if e.Poll? && d.Idle() && j < PacketCount(src.Content()) then j + 1 else j;
            Serving(d.Step(e), src, j') && d.Step(e).Built() == log0 + Packets(src.Content(), j')
  {
    hide Serving, Source.Content, Source.Served;
    StepServes(d, src, j, e);
    LeftMarker(d, src, j);
    var p := src.Content();
    if e.Poll? && d.Idle() && j < PacketCount(p) {
      BuildServes(d, src, j);
      assert log0 + Packets(p, j + 1) == (log0 + Packets(p, j)) + [Packet(j % 2 == 0, Chunk(p, j))];
    }
  }

  /** What a request starts. */
  function SourceOf(d: Dev, r: Request): Source {
    if IsStandard(r) then Memory(d.app, d.standard(r), Length(r))
    else if StreamOf(r[1]).Idle? then Memory(d.app.Setup(r), d.app.Reply(r), Length(r))
    else Stream(d.app.Setup(r))
  }

  /** Requests with an answer: those the model covers that reply from memory, and reads of up to 65534 bytes that
      declare the direction they have. */
  predicate Readable(r: Request) {
    || IsStandard(r)
    || (Modelled(r[1]) && StreamOf(r[1]).Idle?)
    || (IsIn(r) && ReadKind(r) && 0 < Length(r) < USB_NO_MSG)
  }

  predicate ReadKind(r: Request) {
    StreamOf(r[1]).SpiRead? || StreamOf(r[1]).I2cRead? || StreamOf(r[1]).MwRead?
  }

  lemma AcceptMemory(d: Dev, a: App, reply: Message, limit: word)
    ensures var src := Memory(a, reply, limit);
            && src.Served()
            && Serving(d.(app := a, data1 := false, tx := Nak).Answering(reply, limit), src, 0)
  {
    assert reply[0..] == reply;
  }

  lemma AcceptStream(d: Dev, r: Request)
    requires Readable(r) && !IsStandard(r) && !StreamOf(r[1]).Idle?
    ensures SourceOf(d, r).Served() && Serving(d.Accept(r), SourceOf(d, r), 0)
  {
    ReadNothing(d.app.Setup(r));
    hide App.Setup, App.Read;
  }

  lemma AcceptServes(d: Dev, r: Request)
    requires Readable(r)
    ensures SourceOf(d, r).Served() && Serving(d.Accept(r), SourceOf(d, r), 0)
    ensures d.Accept(r).Built() == d.log && d.Accept(r).tx == Nak
  {
    hide App.Setup, App.Reply, Serving, Source.Served;
    if IsStandard(r) {
      AcceptMemory(d, d.app, d.standard(r), Length(r));
    } else if StreamOf(r[1]).Idle? {
      AcceptMemory(d, d.app.Setup(r), d.app.Reply(r), Length(r));
    } else {
      AcceptStream(d, r);
    }
  }

  lemma ReadNothing(a: App)
    requires a.nbytes > 0
    ensures a.Read(0) == a
  {
  }

  /** The whole control-IN data stage, for any polling pattern: after any polls and IN tokens the packets cut so far
      are the first packets of the message, in order and none lost, and the counts agree. */
  lemma {:induction false} ControlIn(d: Dev, r: Request, es: seq<Event>)
    requires d.Valid() && Readable(r) && forall e | e in es :: Calm(e)
    ensures var src := SourceOf(d, r);
            var t := d.Accept(r).Run(es);
            var j := |t.Built()| - |d.log|;
            src.Served() && j >= 0 && Serving(t, src, j) && t.Built() == d.log + Packets(src.Content(), j)
  {
    hide Serving, Source.Content, Source.Served, Dev.Step, Dev.Accept, SourceOf, Readable;
    AcceptServes(d, r);
    var src := SourceOf(d, r);
    if es == [] {
      assert d.log + Packets(src.Content(), 0) == d.log;
    } else {
      var init := es[..|es| - 1];
      ControlIn(d, r, init);
      var t := d.Accept(r).Run(init);
      CalmServes(t, src, |t.Built()| - |d.log|, es[|es| - 1], d.log);
    }
  }

  /** The poll that receives a SETUP goes on like any other poll. */
  lemma SetupThenPoll(d: Dev, r: Request)
    requires d.Valid()
    ensures d.Step(Poll(Setup(r))) == d.Accept(r).Step(Poll(Quiet))
  {
  }

  /** How often in a run an IN token follows a poll. */
  function Turns(es: seq<Event>): nat {
    if es == [] then 0
    else Turns(es[..|es| - 1]) + Bit(es[|es| - 1].In? && Waiting(es[..|es| - 1]))
  }

  predicate Waiting(es: seq<Event>) {
    es != [] && es[|es| - 1].Poll?
  }

  lemma OneMore(d: Dev, src: Source, k: nat, log0: seq<Packet>)
    requires src.Served() && Serving(d, src, k) && d.Valid() && d.tx == Nak
    requires d.log == log0 + Packets(src.Content(), k) && k < PacketCount(src.Content())
    ensures var t := d.Step(Poll(Quiet));
            && Serving(t, src, k + 1) && t.tx.Data? && t.log == d.log
            && t.log + [t.tx.packet] == log0 + Packets(src.Content(), k + 1)
  {
    hide Serving, Source.Content, Source.Served;
    LeftMarker(d, src, k);
    BuildServes(d, src, k);
    assert d.Step(Poll(Quiet)) == d.Build();
  }

  /** What has been delivered after so many turns, and what is on offer. */
  ghost predicate Delivered(t: Dev, src: Source, log0: seq<Packet>, turns: nat, waiting: bool)
    requires src.Served()
  {
    var p := src.Content();
    var k := Min(turns, PacketCount(p));
    var offer := waiting && turns < PacketCount(p);
    && Serving(t, src, k + Bit(offer))
    && t.log == log0 + Packets(p, k)
    && (if offer then t.tx.Data? && t.log + [t.tx.packet] == log0 + Packets(p, k + 1) else t.tx == Nak)
  }

  lemma PollDelivers(t: Dev, src: Source, log0: seq<Packet>, turns: nat, waiting: bool)
    requires src.Served() && t.Valid() && Delivered(t, src, log0, turns, waiting)
    ensures Delivered(t.Step(Poll(Quiet)), src, log0, turns, true)
  {
    hide Serving, Source.Content, Source.Served, Dev.Step;
    var k := Min(turns, PacketCount(src.Content()));
    var offer := waiting && turns < PacketCount(src.Content());
    LeftMarker(t, src, k + Bit(offer));
    if !offer && k < PacketCount(src.Content()) {
      OneMore(t, src, k, log0);
    } else {
      QuietPoll(t);
    }
  }

  lemma InDelivers(t: Dev, src: Source, log0: seq<Packet>, turns: nat, waiting: bool)
    requires src.Served() && t.Valid() && Delivered(t, src, log0, turns, waiting)
    ensures Delivered(t.Step(In), src, log0, turns + Bit(waiting), false)
  {
    hide Serving, Source.Content, Source.Served;
    var k := Min(turns, PacketCount(src.Content()));
    var offer := waiting && turns < PacketCount(src.Content());
    StepServes(t, src, k + Bit(offer), In);
  }

  /** Progress, for any polling pattern: every IN token after a poll delivers one more packet, until the last one, and
      then the pipe is silent. */
  lemma {:induction false} Delivery(d: Dev, r: Request, es: seq<Event>)
    requires d.Valid() && Readable(r) && forall e | e in es :: Calm(e)
    ensures SourceOf(d, r).Served()
    ensures Delivered(d.Accept(r).Run(es), SourceOf(d, r), d.log, Turns(es), Waiting(es))
  {
    hide Serving, Source.Content, Source.Served, Dev.Step, Dev.Accept, SourceOf, Readable;
    AcceptServes(d, r);
    var src := SourceOf(d, r);
    if es == [] {
      assert d.log + Packets(src.Content(), 0) == d.log;
      assert d.Accept(r).Built() == d.Accept(r).log;
    } else {
      hide Delivered;
      var init := es[..|es| - 1];
      Delivery(d, r, init);
      var t := d.Accept(r).Run(init);
      if es[|es| - 1].In? {
        InDelivers(t, src, d.log, Turns(init), Waiting(init));
      } else {
        assert Calm(es[|es| - 1]);
        PollDelivers(t, src, d.log, Turns(init), Waiting(init));
      }
    }
  }

  lemma QuietPoll(d: Dev)
    requires d.Valid() && (d.tx.Data? || d.msgLen == USB_NO_MSG)
    ensures d.Step(Poll(Quiet)) == d
  {
  }

  /** What the host has after the data stage of a stream, once it has polled and asked often enough: the bytes of the
      bus in order, and the bus as it should be. */
  lemma StreamDelivered(d: Dev, r: Request, es: seq<Event>)
    requires d.Valid() && Readable(r) && !IsStandard(r) && ReadKind(r)
    requires (forall e | e in es :: Calm(e)) && Turns(es) > Length(r) / 8
    ensures var a0 := d.app.Setup(r);
            var data := a0.Payload(Length(r));
            var t := d.Accept(r).Run(es);
            && d.log <= t.log
            && BytesOf(t.log[|d.log|..]) == data
            && t.app.bus == a0.bus + ReadTrace(a0, data) + a0.Closing() && t.app.prog.Idle?
    ensures var lo: nat, hi: nat := r[6], r[7];
            |BytesOf(d.Accept(r).Run(es).log[|d.log|..])| == lo + 0x100 * hi
  {
    var src := SourceOf(d, r);
    Delivery(d, r, es);
    var p := src.Content();
    var k := PacketCount(p);
    var t := d.Accept(r).Run(es);
    hide Packets, BytesOf, App.Setup, Dev.Accept, Dev.Run, App.Closing, App.Payload, ReadTrace, Serving;
    Finished(t, src);
    MessageWhole(p);
    assert (d.log + Packets(p, k))[|d.log|..] == Packets(p, k);
  }

  /** There are such runs: a poll and an IN token, as often as wanted. */
  function Rounds(k: nat): (es: seq<Event>)
    ensures forall e | e in es :: Calm(e)
  {
    if k == 0 then [] else Rounds(k - 1) + [Poll(Quiet), In]
  }

  lemma {:induction false} RoundsTurns(k: nat)
    ensures Turns(Rounds(k)) == k
  {
    if k > 0 {
      RoundsTurns(k - 1);
      var es := Rounds(k);
      assert es[..|es| - 1] == Rounds(k - 1) + [Poll(Quiet)];
      assert es[..|es| - 1][..|es| - 2] == Rounds(k - 1);
    }
  }

  lemma Finished(t: Dev, src: Source)
    requires src.Served() && Serving(t, src, PacketCount(src.Content()))
    ensures t.msgLen == USB_NO_MSG
    ensures src.Stream? ==> t.app.prog.Idle?
    ensures src.Stream? ==> t.app.bus == src.a0.bus + ReadTrace(src.a0, src.Content()) + src.a0.Closing()
  {
    hide App.Pulled, App.Payload;
    if src.Stream? {
      WholeRead(src.a0);
    }
  }
}
