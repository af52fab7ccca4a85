/** The control pipe when the host sends whatever it likes: SETUP, OUT and IN in any order. */
module UsbRuns {
  import opened Bytes
  import opened BitOrder
  import opened UsbaspApp
  import opened UsbPipe

  lemma {:induction false} PulledCount(a: App, len: nat)
    ensures a.Read(len).nbytes <= a.nbytes
    ensures a.Read(len).prog == a.prog || a.Read(len).prog.Idle?
  {
  }

  lemma {:induction false} SentCount(a: App, data: seq<byte>)
    ensures a.Write(data).nbytes <= a.nbytes
    ensures a.Write(data).prog == a.prog || a.Write(data).prog.Idle?
  {
  }

  /** Packets of a message, in order, possibly with some missing. */
  ghost predicate InOrder(packets: seq<Packet>, p: seq<byte>, j: nat) {
    packets != [] ==>
      var last := packets[|packets| - 1];
      exists m: nat ::
        m < j && last == Packet(m % 2 == 0, Chunk(p, m)) && InOrder(packets[..|packets| - 1], p, m)
  }

  lemma {:induction false} InOrderMore(packets: seq<Packet>, p: seq<byte>, j: nat, k: nat)
    requires InOrder(packets, p, j) && j <= k
    ensures InOrder(packets, p, k)
  {
  }

  lemma InOrderSnoc(packets: seq<Packet>, p: seq<byte>, m: nat)
    requires InOrder(packets, p, m)
    ensures InOrder(packets + [Packet(m % 2 == 0, Chunk(p, m))], p, m + 1)
  {
    assert (packets + [Packet(m % 2 == 0, Chunk(p, m))])[..|packets|] == packets;
  }

  lemma InOrderInit(packets: seq<Packet>, last: Packet, p: seq<byte>, j: nat)
    requires InOrder(packets + [last], p, j)
    ensures InOrder(packets, p, j)
  {
    assert (packets + [last])[..|packets|] == packets;
    var m: nat :| m < j && InOrder((packets + [last])[..|packets|], p, m);
    InOrderMore(packets, p, m, j);
  }

  function Advance(d: Dev, src: Source, j: nat, e: Event): nat
    requires src.Served()
  {
    if e.Poll? && d.Process(e.rx).Idle() && j < PacketCount(src.Content()) then j + 1 else j
  }

  /** What a step that starts no new transfer does to the packets: an OUT takes back the one on offer, a poll may cut
      the next one. */
  lemma StepPackets(d: Dev, src: Source, j: nat, e: Event)
    requires src.Served() && Serving(d, src, j) && d.Valid() && Unclaimed(e)
    ensures var kept := if e.Poll? && e.rx.Out? && src.Stream? then d.log else d.Built();
            d.Step(e).Built() == if Advance(d, src, j, e) == j then kept
                                 else kept + [Packet(j % 2 == 0, Chunk(src.Content(), j))]
    ensures d.log <= d.Step(e).log
  {
    hide Serving, Source.Content, Source.Served;
    if e.Poll? {
      OutServes(d, src, j, e.rx);
      var t := d.Process(e.rx);
      LeftMarker(t, src, j);
      if t.Idle() && j < PacketCount(src.Content()) {
        BuildServes(t, src, j);
      }
    }
  }

  lemma StepInOrder(d: Dev, src: Source, j: nat, e: Event, start: nat)
    requires src.Served() && Serving(d, src, j) && d.Valid() && Unclaimed(e)
    requires start <= |d.log| && InOrder(d.Built()[start..], src.Content(), j)
    ensures start <= |d.Step(e).log|
    ensures InOrder(d.Step(e).Built()[start..], src.Content(), Advance(d, src, j, e))
  {
    hide Serving, Source.Content, Source.Served, InOrder, Advance, Dev.Step;
    StepPackets(d, src, j, e);
    var p := src.Content();
    var kept := if e.Poll? && e.rx.Out? && src.Stream? then d.log else d.Built();
    assert InOrder(kept[start..], p, j) by {
      if kept != d.Built() {
        assert d.Built()[start..] == d.log[start..] + [d.tx.packet];
        InOrderInit(d.log[start..], d.tx.packet, p, j);
      }
    }
    if Advance(d, src, j, e) != j {
      InOrderSnoc(kept[start..], p, j);
      var next := Packet(j % 2 == 0, Chunk(p, j));
      assert (kept + [next])[start..] == kept[start..] + [next];
      assert Advance(d, src, j, e) == j + 1 by {
        AdvanceBy(d, src, j, e);
      }
    }
  }

  lemma AdvanceBy(d: Dev, src: Source, j: nat, e: Event)
    requires src.Served()
    ensures j <= Advance(d, src, j, e) <= j + 1
  {
  }

  /** Between one accepted SETUP and the next, under any order of polls, IN and OUT: whatever reaches the host are
      packets of this request's message, in order, each at most once, and the application is where they say. */
  lemma {:induction false} ControlInAny(d: Dev, r: Request, es: seq<Event>) returns (j: nat)
    requires d.Valid() && Readable(r) && forall e | e in es :: Unclaimed(e)
    ensures var src := SourceOf(d, r);
            var t := d.Accept(r).Run(es);
            && src.Served() && Serving(t, src, j)
            && |d.log| <= |t.log| && InOrder(t.Built()[|d.log|..], src.Content(), j)
  {
    hide Serving, Source.Served, Source.Content;
    AcceptServes(d, r);
    var src := SourceOf(d, r);
    if es == [] {
      return 0;
    }
    var init := es[..|es| - 1];
    var i := ControlInAny(d, r, init);
    hide InOrder;
    var t := d.Accept(r).Run(init);
    StepServes(t, src, i, es[|es| - 1]);
    StepInOrder(t, src, i, es[|es| - 1], |d.log|);
    j := Advance(t, src, i, es[|es| - 1]);
  }

  /** An OUT packet during a stream is refused, and takes the packet on offer with it. */
  lemma OutDropsPacket(d: Dev, src: Source, j: nat, data: seq<byte>)
    requires src.Served() && src.Stream? && Serving(d, src, j) && d.Valid() && d.tx.Data?
    ensures d.Step(Poll(Out(data))).Built() ==
            d.log + (if j < PacketCount(src.Content()) then [Packet(j % 2 == 0, Chunk(src.Content(), j))] else [])
  {
    hide Serving, Source.Served, Source.Content;
    OutServes(d, src, j, Out(data));
    StepPackets(d, src, j, Poll(Out(data)));
  }

  /** How many OUT packets of a run arrive while a packet is on offer. */
  function Drops(d: Dev, es: seq<Event>): nat
    requires d.Valid()
  {
    if es == [] then 0
    else
      var e := es[|es| - 1];
      var t := d.Run(es[..|es| - 1]);
      Drops(d, es[..|es| - 1]) + Bit(e.Poll? && e.rx.Out? && t.userRw && t.tx.Data?)
  }

  lemma StepCounts(d: Dev, src: Source, j: nat, e: Event)
    requires src.Served() && Serving(d, src, j) && d.Valid() && Unclaimed(e)
    ensures var drop := e.Poll? && e.rx.Out? && d.userRw && d.tx.Data?;
            && |d.Step(e).Built()| + Bit(drop) == |d.Built()| + Advance(d, src, j, e) - j
            && (!drop ==> d.Step(e).Built() == if Advance(d, src, j, e) == j then d.Built()
                                               else d.Built() + [Packet(j % 2 == 0, Chunk(src.Content(), j))])
  {
    StepPackets(d, src, j, e);
    assert d.userRw == src.Stream?;
    hide Serving, Source.Content, Source.Served, Dev.Step;
  }

  /** Over every such run, exactly one packet is lost for every OUT packet that finds one on offer; so the packets are
      the first packets of the message, none missing, exactly when no OUT packet does. */
  lemma {:induction false} Losses(d: Dev, r: Request, es: seq<Event>) returns (j: nat)
    requires d.Valid() && Readable(r) && forall e | e in es :: Unclaimed(e)
    ensures SourceOf(d, r).Served()
    ensures var src := SourceOf(d, r);
            var t := d.Accept(r).Run(es);
            && Serving(t, src, j)
            && |t.Built()| + Drops(d.Accept(r), es) == |d.log| + j
            && (t.Built() == d.log + Packets(src.Content(), j) <==> Drops(d.Accept(r), es) == 0)
  {
    hide Serving, Source.Served, Source.Content, Dev.Step, Dev.Accept, SourceOf, Readable;
    AcceptServes(d, r);
    var src := SourceOf(d, r);
    var p := src.Content();
    if es == [] {
      assert d.log + Packets(p, 0) == d.log;
      return 0;
    }
    var init, e := es[..|es| - 1], es[|es| - 1];
    var i := Losses(d, r, init);
    var t := d.Accept(r).Run(init);
    hide Advance, Dev.Built;
    StepServes(t, src, i, e);
    StepCounts(t, src, i, e);
    AdvanceBy(t, src, i, e);
    AdvanceIs(t, src, i, e);
    j := Advance(t, src, i, e);
    assert d.log + Packets(p, i + 1) == (d.log + Packets(p, i)) + [Packet(i % 2 == 0, Chunk(p, i))];
  }

  lemma AdvanceIs(d: Dev, src: Source, j: nat, e: Event)
    requires src.Served()
    ensures Advance(d, src, j, e) ==
            if e.Poll? && d.Process(e.rx).Idle() && j < PacketCount(src.Content()) then j + 1 else j
  {
  }

  /** Throughout a read the driver's count and the application's are the same number, whatever else the host sends. */
  lemma Lockstep(d: Dev, r: Request, es: seq<Event>)
    requires d.Valid() && Readable(r) && !IsStandard(r) && ReadKind(r) && forall e | e in es :: Unclaimed(e)
    ensures var t := d.Accept(r).Run(es);
            t.msgLen != USB_NO_MSG ==> t.msgLen == t.app.nbytes
  {
    var src := SourceOf(d, r);
    var t := d.Accept(r).Run(es);
    var j := Losses(d, r, es);
    hide Serving, Source.Content;
    LeftMarker(t, src, j);
    if t.msgLen != USB_NO_MSG {
      CountsAgree(t, src, j);
    }
  }

  /** A request that declares an IN transfer for a write function, or an OUT transfer for a read function. */
  predicate Contradictory(r: Request) {
    !IsStandard(r) && !StreamOf(r[1]).Idle? && IsIn(r) != ReadKind(r)
  }

  lemma AcceptWrites(d: Dev, r: Request)
    requires !IsStandard(r) && !StreamOf(r[1]).Idle?
    ensures var a := d.app.Setup(r);
            && d.Accept(r).app == a && d.Accept(r).userRw && d.Accept(r).tx == Nak && !d.Accept(r).data1
            && d.Accept(r).msgLen == (if IsIn(r) then Length(r) else USB_NO_MSG) && d.Accept(r).log == d.log
            && a.nbytes == Length(r)
            && a.Reading() == ReadKind(r) && a.Writing() == !ReadKind(r)
  {
    hide App.Setup;
  }

  /** The data packets among the events. */
  function Outs(es: seq<Event>): seq<seq<byte>> {
    if es == [] then []
    else
      var e := es[|es| - 1];
      Outs(es[..|es| - 1]) + (if e.Poll? && e.rx.Out? then [e.rx.data] else [])
  }

  lemma OutsLast(es: seq<Event>)
    requires es != []
    ensures var init, e := es[..|es| - 1], es[|es| - 1];
            Outs(es) == if e.Poll? && e.rx.Out? then Outs(init) + [e.rx.data] else Outs(init)
  {
  }

  /** The driver never asks the application for data: it is in no reading state, or there is no message to send. */
  ghost predicate NotRead(t: Dev) {
    t.userRw && (t.app.Reading() ==> t.msgLen == USB_NO_MSG || t.msgLen == 0)
  }

  lemma StepNotRead(t: Dev, e: Event)
    requires t.Valid() && Unclaimed(e) && NotRead(t)
    ensures NotRead(t.Step(e))
    ensures t.Step(e).app == if e.Poll? && e.rx.Out? then t.app.Write(e.rx.data) else t.app
  {
    hide App.Read, App.ReadBytes;
    if e.Poll? && e.rx.Out? {
      WriteKeepsKind(t.app, e.rx.data);
    }
    hide App.Write;
  }

  lemma WriteKeepsKind(a: App, data: seq<byte>)
    ensures a.Write(data).Reading() == a.Reading()
    ensures a.Reading() ==> a.Write(data) == a && a.WriteStatus(data) == 0xFF
  {
    SentCount(a, data);
  }

  /** Requests whose data the application never has to supply: writes, and reads in the wrong direction or of a length
      the driver takes for "nothing" or for its marker. */
  predicate Unread(r: Request) {
    && !IsStandard(r) && !StreamOf(r[1]).Idle?
    && (ReadKind(r) ==> !IsIn(r) || Length(r) == 0 || Length(r) == USB_NO_MSG)
  }

  /** Over every run the application does exactly what the OUT packets say, one after the other, and nothing else. */
  lemma {:induction false} UnreadRun(d: Dev, r: Request, es: seq<Event>)
    requires d.Valid() && Unread(r) && forall e | e in es :: Unclaimed(e)
    ensures NotRead(d.Accept(r).Run(es))
    ensures d.Accept(r).Run(es).app == WriteAll(d.app.Setup(r), Outs(es))
  {
    AcceptWrites(d, r);
    hide App.Setup, Dev.Accept, App.Reading, App.Writing, Dev.Step, Outs;
    if es == [] {
      assert Outs(es) == [] by {
        OutsNone();
      }
      StartNotRead(d, r);
    } else {
      var init := es[..|es| - 1];
      UnreadRun(d, r, init);
      StepNotRead(d.Accept(r).Run(init), es[|es| - 1]);
      OutsLast(es);
      WriteAllSnoc(d.app.Setup(r), Outs(init), Outs(es));
    }
  }

  lemma StartNotRead(d: Dev, r: Request)
    requires Unread(r)
    ensures NotRead(d.Accept(r))
  {
    AcceptWrites(d, r);
  }

  lemma OutsNone()
    ensures Outs([]) == []
  {
  }

  lemma WriteAllSnoc(a: App, packets: seq<seq<byte>>, more: seq<seq<byte>>)
    requires (|more| == |packets| + 1 && more[..|packets|] == packets) || more == packets
    ensures WriteAll(a, more) ==
            if more == packets then WriteAll(a, packets) else WriteAll(a, packets).Write(more[|packets|])
  {
  }

  /** A write request that announces a payload is moved exactly by payload bytes. */
  lemma {:induction false} WriteAllMoves(a: App, packets: seq<seq<byte>>)
    requires a.Writing() && a.nbytes > 0
    ensures if Concat(packets) == [] then WriteAll(a, packets) == a else WriteAll(a, packets).nbytes < a.nbytes
  {
    hide App.Closing, App.WriteOne;
    if packets != [] {
      var init, x := packets[..|packets| - 1], packets[|packets| - 1];
      WriteAllMoves(a, init);
      var t := WriteAll(a, init);
      SentCount(t, x);
      if Concat(init) == [] {
        SentNothing(a);
        assert Concat(packets) == x;
      }
    }
  }

  lemma {:induction false} WriteAllRefused(a: App, packets: seq<seq<byte>>)
    requires !a.Writing()
    ensures WriteAll(a, packets) == a
  {
    if packets != [] {
      WriteAllRefused(a, packets[..|packets| - 1]);
    }
  }

  /** With no payload announced, an SPI write closes with every packet. */
  lemma {:induction false} SpiEmpty(a: App, packets: seq<seq<byte>>)
    requires a.prog.SpiWrite? && a.nbytes == 0
    ensures var t := WriteAll(a, packets);
            && t == a.(bus := t.bus)
            && Outgoing(t.bus) == Outgoing(a.bus) && Clocked(t.bus) == Clocked(a.bus)
            && if a.Closing() == [] then t == a else |t.bus| == |a.bus| + |packets|
  {
    hide Outgoing, Clocked, App.Write;
    if packets != [] {
      var t := WriteAll(a, packets[..|packets| - 1]);
      SpiEmpty(a, packets[..|packets| - 1]);
      WriteNothing(t, packets[|packets| - 1]);
      ClosingSilent(t);
      SpiCloses(t);
      assert |t.Closing()| <= 1;
    }
  }

  /** ... and the others with the first one. */
  lemma {:induction false} OthersEmpty(a: App, packets: seq<seq<byte>>)
    requires a.Writing() && !a.prog.SpiWrite? && a.nbytes == 0
    ensures WriteAll(a, packets) == if packets == [] then a else a.Closed()
  {
    hide App.Write;
    if packets != [] {
      OthersEmpty(a, packets[..|packets| - 1]);
      WriteNothing(WriteAll(a, packets[..|packets| - 1]), packets[|packets| - 1]);
    }
  }

  /** So no payload byte goes out, and nothing happens exactly when there is no packet or nothing to close. */
  lemma WriteAllEmpty(a: App, packets: seq<seq<byte>>)
    requires a.Writing() && a.nbytes == 0
    ensures var t := WriteAll(a, packets);
            && Outgoing(t.bus) == Outgoing(a.bus) && Clocked(t.bus) == Clocked(a.bus)
            && (t == a <==> packets == [] || a.Closed() == a)
  {
    hide Outgoing, Clocked, WriteAll;
    ClosingSilent(a);
    if a.prog.SpiWrite? {
      SpiEmpty(a, packets);
      SpiCloses(a);
      NoPackets(a);
    } else {
      OthersEmpty(a, packets);
    }
  }

  lemma NoPackets(a: App)
    ensures WriteAll(a, []) == a
  {
  }

  lemma WriteNothing(t: App, x: seq<byte>)
    requires t.nbytes == 0
    ensures t.Write(x) == if t.Writing() then t.Closed() else t
  {
    hide App.Closed;
    assert x[..0] == [];
    SentNothing(t);
  }

  lemma SpiCloses(t: App)
    requires t.prog.SpiWrite?
    ensures t.Closed() == t.(bus := t.bus + t.Closing()) && t.Closed().Closing() == t.Closing()
    ensures t.Closed() == t <==> t.Closing() == []
  {
    if t.Closing() == [] {
      assert t.bus + [] == t.bus;
    } else {
      assert |t.bus + t.Closing()| > |t.bus|;
    }
  }

  /** The closing events carry no data. */
  lemma ClosingSilent(t: App)
    ensures Outgoing(t.Closed().bus) == Outgoing(t.bus) && Clocked(t.Closed().bus) == Clocked(t.bus)
  {
    hide Outgoing, Clocked;
    if t.Closing() == [] {
      assert t.bus + [] == t.bus;
    } else {
      OutgoingSnoc(t.bus, t.Closing()[0]);
      ClockedSnoc(t.bus, t.Closing()[0]);
    }
  }

  /** A request that contradicts its function and announces a payload leaves the application and its bus alone exactly
      when it is a read declared as OUT, or the host sends no payload byte. */
  lemma ContradictoryHarmless(d: Dev, r: Request, es: seq<Event>)
    requires d.Valid() && Contradictory(r) && Length(r) > 0 && forall e | e in es :: Unclaimed(e)
    ensures d.Accept(r).Run(es).app == d.app.Setup(r) <==> !IsIn(r) || Concat(Outs(es)) == []
  {
    var a := d.app.Setup(r);
    UnreadRun(d, r, es);
    AcceptWrites(d, r);
    hide App.Setup, Dev.Accept, Outs;
    if !IsIn(r) {
      WriteAllRefused(a, Outs(es));
    } else {
      WriteAllMoves(a, Outs(es));
    }
  }

  /** Without an announced payload no payload byte is ever clocked; nothing at all happens exactly when it is a read
      declared as OUT, no packet comes, or there is nothing to close. */
  lemma ContradictoryEmpty(d: Dev, r: Request, es: seq<Event>)
    requires d.Valid() && Contradictory(r) && Length(r) == 0 && forall e | e in es :: Unclaimed(e)
    ensures var a := d.app.Setup(r);
            var t := d.Accept(r).Run(es).app;
            && Outgoing(t.bus) == Outgoing(a.bus) && Clocked(t.bus) == Clocked(a.bus)
            && (t == a <==> !IsIn(r) || Outs(es) == [] || a.Closed() == a)
  {
    var a := d.app.Setup(r);
    UnreadRun(d, r, es);
    AcceptWrites(d, r);
    hide App.Setup, Dev.Accept, Outs, Outgoing, Clocked, App.Closed;
    if !IsIn(r) {
      WriteAllRefused(a, Outs(es));
    } else {
      WriteAllEmpty(a, Outs(es));
    }
  }

  /** An SPI write that gets one packet, whatever direction it declares, clocks it out. */
  lemma OnePacket(d: Dev, r: Request, data: seq<byte>)
    requires d.Valid() && !IsStandard(r) && r[1] == 52 && |data| < Length(r)
    ensures Outgoing(d.Accept(r).Run([Poll(Out(data))]).app.bus) == Outgoing(d.app.Setup(r).bus) + data
  {
    hide App.Setup, Outgoing, Dev.Run, Dev.Accept, Outs, WriteAll, App.Sent, App.Closed, Length;
    var es := [Poll(Out(data))];
    var a := d.app.Setup(r);
    OneOut(data);
    UnreadRun(d, r, es);
    AcceptWrites(d, r);
    WriteAllSnoc(a, [], [data]);
    NoPackets(a);
    assert data[..|data|] == data;
    OneWrite(d.app, r);
    SentBytes(a, data);
  }

  lemma OneOut(data: seq<byte>)
    ensures Outs([Poll(Out(data))]) == [data]
  {
    var es := [Poll(Out(data))];
    OutsLast(es);
    OutsNone();
    assert es[..0] == [];
  }

  lemma OneWrite(a: App, r: Request)
    requires r[1] == 52
    ensures !a.Setup(r).prog.MwWrite?
  {
  }

  /** An input for which it does: an SPI write of 4 bytes declared as IN, and a packet with two of them. */
  lemma ContradictoryClocks(d: Dev)
    requires d.Valid()
    ensures var r: Request := [0xC0, 52, 0, 0, 0, 0, 4, 0];
            && Contradictory(r)
            && Outgoing(d.Accept(r).Run([Poll(Out([1, 2]))]).app.bus) == Outgoing(d.app.Setup(r).bus) + [1, 2]
  {
    var r: Request := [0xC0, 52, 0, 0, 0, 0, 4, 0];
    assert Contradictory(r);
    hide App.Setup, Outgoing, Dev.Run, Dev.Accept;
    OnePacket(d, r, [1, 2]);
  }

  /** ... and it is stalled: an IN transfer by the first poll, unless it asks for no byte at all or for as many as the
      driver's marker says; an OUT transfer by its first packet. */
  lemma ContradictoryStalls(d: Dev, r: Request, data: seq<byte>)
    requires d.Valid() && Contradictory(r)
    ensures IsIn(r) ==> (d.Step(Poll(Setup(r))).tx == Stall <==> 0 < Length(r) < USB_NO_MSG)
    ensures !IsIn(r) ==> d.Accept(r).Step(Poll(Out(data))).tx == Stall
  {
    hide App.Setup, App.Reply, App.Read, App.ReadBytes;
  }

  /** A read whose length the driver takes for "nothing" or for its marker never reaches the bus. */
  lemma NeverServed(d: Dev, r: Request, es: seq<Event>)
    requires d.Valid() && !IsStandard(r) && ReadKind(r) && (Length(r) == 0 || Length(r) == USB_NO_MSG)
    requires forall e | e in es :: Unclaimed(e)
    ensures d.Accept(r).Run(es).app == d.app.Setup(r)
  {
    UnreadRun(d, r, es);
    AcceptWrites(d, r);
    hide App.Setup, Dev.Accept, Outs;
    WriteAllRefused(d.app.Setup(r), Outs(es));
  }

  /** A read comes to its end on the bus, so that chip select is released, exactly when its length is neither 0 nor
      65535. */
  lemma ReadEnds(d: Dev, r: Request, es: seq<Event>)
    requires d.Valid() && !IsStandard(r) && IsIn(r) && ReadKind(r)
    requires (forall e | e in es :: Calm(e)) && Turns(es) > Length(r) / 8
    ensures d.Accept(r).Run(es).app.prog.Idle? <==> 0 < Length(r) < USB_NO_MSG
  {
    hide App.Setup;
    if 0 < Length(r) < USB_NO_MSG {
      StreamDelivered(d, r, es);
    } else {
      NeverServed(d, r, es);
    }
  }

  predicate WriteRequest(r: Request) {
    !IsStandard(r) && !IsIn(r) && !StreamOf(r[1]).Idle? && !ReadKind(r)
  }

  lemma ConcatSnoc(parts: seq<seq<byte>>, x: seq<byte>)
    ensures Concat(parts + [x]) == Concat(parts) + x
  {
    assert (parts + [x])[..|parts|] == parts;
  }

  ghost predicate Collecting(t: Dev, a: App, data: seq<byte>, log: seq<Packet>)
    requires |data| <= a.nbytes
  {
    t.app == a.Sent(data) && t.tx == Nak && t.msgLen == USB_NO_MSG && t.userRw && !t.data1 && t.log == log
  }

  lemma OutPart(t: Dev, data: seq<byte>)
    requires t.Valid() && t.userRw && t.app.Writing() && t.tx == Nak && t.msgLen == USB_NO_MSG
    requires 0 < t.app.nbytes && |data| <= t.app.nbytes
    ensures t.Step(Poll(Out(data))) ==
            if |data| < t.app.nbytes then t.(app := t.app.Sent(data))
            else t.(app := t.app.Sent(data).Closed(), data1 := !t.data1, tx := Data(Packet(!t.data1, [])))
  {
    hide App.Writing, App.Sent, App.Closed;
    assert data[..|data|] == data;
    assert t.app.Write(data) == if |data| < t.app.nbytes then t.app.Sent(data) else t.app.Sent(data).Closed();
    hide App.Write;
    var u := t.Process(Out(data));
    assert u == if |data| < t.app.nbytes then t.(app := t.app.Sent(data))
                else t.(app := t.app.Sent(data).Closed(), msgLen := 0);
  }

  lemma StepCollecting(t: Dev, a: App, data: seq<byte>, e: Event, log: seq<Packet>)
    requires t.Valid() && Unclaimed(e) && |data| < a.nbytes && Collecting(t, a, data, log) && a.Writing()
    requires e.Poll? && e.rx.Out? ==> |data| + |e.rx.data| < a.nbytes
    ensures Collecting(t.Step(e), a, data + (if e.Poll? && e.rx.Out? then e.rx.data else []), log)
  {
    hide App.Sent, App.Write, App.WriteStatus;
    if e.Poll? && e.rx.Out? {
      OutPart(t, e.rx.data);
      SentAdd(a, data, e.rx.data);
    } else {
      assert data + [] == data;
    }
  }

  /** While data is missing, the application has what was sent and the host gets no answer. */
  lemma {:induction false} ControlOut(d: Dev, r: Request, es: seq<Event>)
    requires d.Valid() && WriteRequest(r) && forall e | e in es :: Unclaimed(e)
    requires |Concat(Outs(es))| < Length(r)
    ensures Collecting(d.Accept(r).Run(es), d.app.Setup(r), Concat(Outs(es)), d.log)
  {
    var a := d.app.Setup(r);
    AcceptWrites(d, r);
    hide App.Setup, Dev.Accept, Dev.Step, App.Writing, Concat;
    if es == [] {
      EmptyConcat();
    } else {
      var init, e := es[..|es| - 1], es[|es| - 1];
      if e.Poll? && e.rx.Out? {
        ConcatSnoc(Outs(init), e.rx.data);
      } else {
        assert Outs(es) == Outs(init) + [] == Outs(init);
      }
      ControlOut(d, r, init);
      StepCollecting(d.Accept(r).Run(init), a, Concat(Outs(init)), e, d.log);
      assert Concat(Outs(init)) + [] == Concat(Outs(init));
    }
  }

  lemma EmptyConcat()
    ensures Concat<byte>([]) == []
  {
  }

  /** The packet that completes the payload closes the transfer on the bus, and only then the host gets its status: an
      empty DATA1 packet. How the payload was cut and what else was polled in between makes no difference. */
  lemma ControlOutEnds(d: Dev, r: Request, es: seq<Event>, last: seq<byte>)
    requires d.Valid() && WriteRequest(r) && forall e | e in es :: Unclaimed(e)
    requires |Concat(Outs(es))| < Length(r) == |Concat(Outs(es))| + |last|
    ensures var a := d.app.Setup(r);
            var t := d.Accept(r).Run(es).Step(Poll(Out(last)));
            && t.app == a.Sent(Concat(Outs(es)) + last).Closed()
            && t.Built() == d.log + [Packet(true, [])] && t.msgLen == USB_NO_MSG
  {
    var a := d.app.Setup(r);
    AcceptWrites(d, r);
    ControlOut(d, r, es);
    hide App.Setup, App.Closed, Dev.Accept, Dev.Step, Dev.Run, Outs, Concat, App.Sent;
    SentAdd(a, Concat(Outs(es)), last);
    OutPart(d.Accept(r).Run(es), last);
  }

  /** Waiting for OUT packets, with nothing on offer. */
  ghost predicate Open(t: Dev, log: seq<Packet>) {
    t.Valid() && t.tx == Nak && t.msgLen == USB_NO_MSG && t.userRw && !t.data1 && t.log == log
  }

  lemma StepOpen(t: Dev, e: Event, log: seq<Packet>)
    requires Open(t, log) && Unclaimed(e) && !(e.Poll? && e.rx.Out?)
    ensures Open(t.Step(e), log) && t.Step(e).app == t.app
  {
  }

  /** A write of no byte is not closed on its own: as long as the host sends no OUT packet, which it has no reason to,
      the application is where the request left it and the host gets no status. */
  lemma {:induction false} EmptyWrite(d: Dev, r: Request, es: seq<Event>)
    requires d.Valid() && WriteRequest(r) && Length(r) == 0
    requires (forall e | e in es :: Unclaimed(e)) && Outs(es) == []
    ensures var t := d.Accept(r).Run(es);
            t.app == d.app.Setup(r) && t.Built() == d.log && Open(t, d.log)
  {
    AcceptWrites(d, r);
    hide App.Setup, Dev.Accept, Dev.Step, App.Writing;
    if es != [] {
      var init, e := es[..|es| - 1], es[|es| - 1];
      OutsLast(es);
      assert Outs(init) == [] && !(e.Poll? && e.rx.Out?);
      EmptyWrite(d, r, init);
      StepOpen(d.Accept(r).Run(init), e, d.log);
    }
  }

  /** Any OUT packet closes it, and then the status is on offer. */
  lemma EmptyWriteEnds(d: Dev, r: Request, es: seq<Event>, data: seq<byte>)
    requires d.Valid() && WriteRequest(r) && Length(r) == 0
    requires (forall e | e in es :: Unclaimed(e)) && Outs(es) == []
    ensures var t := d.Accept(r).Run(es).Step(Poll(Out(data)));
            && t.app == d.app.Setup(r).Closed()
            && t.Built() == d.log + [Packet(true, [])] && t.msgLen == USB_NO_MSG
  {
    EmptyWrite(d, r, es);
    AcceptWrites(d, r);
    hide App.Setup, App.Closed, Dev.Accept, Dev.Run, Outs;
    var t := d.Accept(r).Run(es);
    WriteNothing(t.app, data);
    assert t.app.WriteStatus(data) == 1;
    hide App.Write, App.WriteStatus;
  }

  /** What opening a transfer puts on the lines: the I2C address with its direction, and chip select. */
  lemma Opened(a: App, r: Request)
    requires r[1] in {51, 52, 71, 72, 92, 93}
    ensures var t := a.Setup(r);
            && Incoming(t.bus) == Incoming(a.bus) && Clocked(t.bus) == Clocked(a.bus)
            && Outgoing(t.bus) == Outgoing(a.bus) + (if r[1] == 71 then [2 * (r[2] / 2) + 1]
                                                     else if r[1] == 72 then [2 * (r[2] / 2)] else [])
            && Selected(t.bus) == Selected(a.bus) + (if r[1] in {51, 52} then [false]
                                                     else if r[1] == 93 then [true] else [])
  {
    SetupOpens(a, r);
    hide App.Setup;
    OpeningLines(a.bus, r);
  }

  lemma OpeningLines(bus: seq<Bus>, r: Request)
    requires r[1] in {51, 52, 71, 72, 92, 93}
    ensures var after := bus + Opening(r);
            && Incoming(after) == Incoming(bus) && Clocked(after) == Clocked(bus)
            && Outgoing(after) == Outgoing(bus) + (if r[1] == 71 then [2 * (r[2] / 2) + 1]
                                                   else if r[1] == 72 then [2 * (r[2] / 2)] else [])
            && Selected(after) == Selected(bus) + (if r[1] in {51, 52} then [false]
                                                   else if r[1] == 93 then [true] else [])
  {
    hide Incoming, Outgoing, Selected, Clocked;
    var o := Opening(r);
    if r[1] == 72 {
      LinesSnoc(bus, Start);
      LinesSnoc(bus + [Start], o[1]);
      assert bus + o == bus + [Start] + [o[1]];
    } else if r[1] == 92 {
      assert bus + o == bus;
    } else {
      LinesSnoc(bus, o[0]);
      assert o == [o[0]];
    }
  }

  lemma LinesSnoc(bus: seq<Bus>, e: Bus)
    ensures Incoming(bus + [e]) ==
            Incoming(bus) + (if e.Spi? then [e.miso] else if e.Rx? || e.MwRx? then [e.b] else [])
    ensures Outgoing(bus + [e]) == Outgoing(bus) + (if e.Spi? then [e.mosi] else if e.Tx? then [e.b] else [])
    ensures Selected(bus + [e]) == Selected(bus) + if e.Cs? then [e.high] else []
    ensures Clocked(bus + [e]) == Clocked(bus) + (if e.MwTx? && e.bits <= 8 then Bits(e.b, e.bits) else [])
  {
    IncomingSnoc(bus, e);
    OutgoingSnoc(bus, e);
    SelectedSnoc(bus, e);
    ClockedSnoc(bus, e);
  }

  /** The closing adds nothing to what was sent, received or clocked. */
  lemma ClosingLines(a: App, bus: seq<Bus>)
    ensures Incoming(bus + a.Closing()) == Incoming(bus) && Outgoing(bus + a.Closing()) == Outgoing(bus)
    ensures Clocked(bus + a.Closing()) == Clocked(bus)
  {
    hide Incoming, Outgoing, Selected, Clocked;
    var c := a.Closing();
    if c != [] {
      LinesSnoc(bus, c[0]);
      assert c == [c[0]];
    }
    assert bus + [] == bus;
  }

  /** A whole read on the lines. */
  lemma ReadLines(a: App, r: Request)
    requires r[1] in {51, 71, 92}
    ensures var t := a.Setup(r);
            var n := Length(r);
            var bus := t.bus + ReadTrace(t, t.Payload(n)) + t.Closing();
            && Incoming(bus) == Incoming(a.bus) + t.Payload(n)
            && Outgoing(bus) == Outgoing(a.bus) + if r[1] == 51 then Zeros(n)
                                                  else if r[1] == 71 then [2 * (r[2] / 2) + 1] else []
  {
    hide *;
    var t := a.Setup(r);
    var n := Length(r);
    Opened(a, r);
    ReadOpened(a, r);
    PulledIncoming(t, n);
    PulledTrace(t, n);
    ClosingLines(t, t.bus + ReadTrace(t, t.Payload(n)));
  }

  lemma ReadOpened(a: App, r: Request)
    requires r[1] in {51, 71, 92}
    ensures var t := a.Setup(r);
            t.Reading() && t.nbytes == Length(r) && (t.prog.SpiRead? <==> r[1] == 51)
  {
  }

  lemma WriteLines(a: App, r: Request, payload: seq<byte>)
    requires r[1] in {52, 72, 93} && |payload| == Length(r)
    ensures var bus := a.Setup(r).Sent(payload).Closed().bus;
            && (r[1] == 52 ==> Outgoing(bus) == Outgoing(a.bus) + payload)
            && (r[1] == 72 ==> Outgoing(bus) == Outgoing(a.bus) + [2 * (r[2] / 2)] + payload)
            && (r[1] == 93 ==> Clocked(bus) == Clocked(a.bus) + AllBits(payload)[..Min(r[4], 8 * |payload|)])
  {
    var t := a.Setup(r);
    Opened(a, r);
    SetupOpens(a, r);
    assert t.Writing() && !StreamOf(r[1]).Idle?;
    WriteOnBus(a, r, payload);
    SentKeeps(t, payload);
    var u := t.Sent(payload);
    assert u.Closed().bus == u.bus + u.Closing();
    hide *;
    ClosingLines(u, u.bus);
  }

  /** A read from end to end, in terms of the bytes of its request (0xC0: vendor, to the host): SPI_READ is 51, I2C_READ
      71, MW_READ 92. The host gets as many bytes as the last two bytes say, which are those that came in on the lines;
      SPI sends zeros meanwhile, I2C its address before. */
  lemma HostReads(d: Dev, r: Request, es: seq<Event>)
    requires d.Valid() && r[0] == 0xC0 && r[1] in {51, 71, 92}
    requires var lo: nat, hi: nat := r[6], r[7];
             0 < lo + 0x100 * hi < 0xFFFF && Turns(es) > (lo + 0x100 * hi) / 8
    requires forall e | e in es :: Calm(e)
    ensures d.log <= d.Accept(r).Run(es).log
    ensures var lo: nat, hi: nat := r[6], r[7];
            var t := d.Accept(r).Run(es);
            var data := BytesOf(t.log[|d.log|..]);
            && |data| == lo + 0x100 * hi
            && Incoming(t.app.bus) == Incoming(d.app.bus) + data
            && Outgoing(t.app.bus) == Outgoing(d.app.bus) + (if r[1] == 51 then Zeros(lo + 0x100 * hi)
                                                             else if r[1] == 71 then [2 * (r[2] / 2) + 1] else [])
  {
    assert Readable(r) && !IsStandard(r) && ReadKind(r);
    hide *;
    StreamDelivered(d, r, es);
    ReadLines(d.app, r);
  }

  /** A write from end to end (0x40: vendor, to the device): SPI_WRITE is 52, I2C_WRITE 72, MW_WRITE 93. When the OUT
      packets add up to as many bytes as the last two bytes of the request say, the payload has gone out, on I2C after
      the address, on MicroWire as far as byte 4 says, and the host gets an empty DATA1 packet. */
  lemma HostWrites(d: Dev, r: Request, es: seq<Event>, last: seq<byte>)
    requires d.Valid() && r[0] == 0x40 && r[1] in {52, 72, 93} && forall e | e in es :: Unclaimed(e)
    requires var lo: nat, hi: nat := r[6], r[7];
             |Concat(Outs(es))| < lo + 0x100 * hi == |Concat(Outs(es))| + |last|
    ensures var payload := Concat(Outs(es)) + last;
            var t := d.Accept(r).Run(es).Step(Poll(Out(last)));
            && t.Built() == d.log + [Packet(true, [])]
            && (r[1] == 52 ==> Outgoing(t.app.bus) == Outgoing(d.app.bus) + payload)
            && (r[1] == 72 ==> Outgoing(t.app.bus) == Outgoing(d.app.bus) + [2 * (r[2] / 2)] + payload)
            && (r[1] == 93 ==> Clocked(t.app.bus) ==
                               Clocked(d.app.bus) + AllBits(payload)[..Min(r[4], 8 * |payload|)])
  {
    assert WriteRequest(r);
    hide *;
    ControlOutEnds(d, r, es, last);
    WriteLines(d.app, r, Concat(Outs(es)) + last);
  }
}
