/** Whose transfer it is: over all interleavings of host events, the application works for the SETUP accepted last, and
    nothing of an earlier transfer shows. */
module UsbOwner {
  import opened Bytes
  import opened UsbaspApp
  import opened UsbPipe
  import opened UsbRuns

  /** The SETUP that was accepted last. */
  datatype Owner = Nobody | By(request: Request)

  function OwnerOf(es: seq<Event>): Owner {
    if es == [] then Nobody
    else
      var e := es[|es| - 1];
      if Unclaimed(e) || e.In? || !e.rx.Setup? then OwnerOf(es[..|es| - 1]) else By(e.rx.data)
  }

  /** The requests among the events are those the model covers. */
  predicate Covered(e: Event) {
    e.Poll? ==> Supported(e.rx)
  }

  /** When the read and write functions are in use, the application's state and count are the owner's, or its transfer
      is over. */
  ghost predicate Owned(d: Dev, owner: Owner) {
    d.userRw ==>
      && owner.By?
      && !IsStandard(owner.request) && !StreamOf(owner.request[1]).Idle?
      && (d.app.prog == StreamOf(owner.request[1]) || d.app.prog.Idle?)
      && d.app.nbytes <= Length(owner.request)
  }

  lemma BuildOwned(d: Dev, owner: Owner)
    requires d.Valid() && d.msgLen != USB_NO_MSG && Owned(d, owner)
    ensures Owned(d.Build(), owner)
  {
    hide App.Read, App.ReadBytes, App.Reading;
    PulledCount(d.app, Min(d.msgLen, 8));
  }

  lemma StepOwned(d: Dev, owner: Owner, e: Event)
    requires d.Valid() && Owned(d, owner) && Covered(e)
    ensures Owned(d.Step(e), if Unclaimed(e) || e.In? || !e.rx.Setup? then owner else By(e.rx.data))
  {
    hide App.Read, App.ReadBytes, App.Reading, App.Write, App.WriteStatus, App.Setup, App.Reply;
    if e.Poll? {
      var t := d.Process(e.rx);
      var next := if Unclaimed(e) || !e.rx.Setup? then owner else By(e.rx.data);
      if e.rx.Out? {
        SentCount(d.app, e.rx.data);
      }
      assert Owned(t, next);
      if t.Idle() && t.msgLen != USB_NO_MSG {
        BuildOwned(t, next);
      }
    }
  }

  /** Over all interleavings, the data functions only ever run on behalf of the last accepted SETUP. */
  lemma {:induction false} RunOwned(d: Dev, es: seq<Event>)
    requires d.Valid() && !d.userRw && forall e | e in es :: Covered(e)
    ensures Owned(d.Run(es), OwnerOf(es))
  {
    if es != [] {
      RunOwned(d, es[..|es| - 1]);
      StepOwned(d.Run(es[..|es| - 1]), OwnerOf(es[..|es| - 1]), es[|es| - 1]);
    }
  }

  lemma {:induction false} RunAppend(d: Dev, x: seq<Event>, y: seq<Event>)
    requires d.Valid()
    ensures d.Run(x).Run(y) == d.Run(x + y)
    decreases |y|
  {
    hide Dev.Step;
    if y == [] {
      assert x + y == x;
    } else {
      RunAppend(d, x, y[..|y| - 1]);
      assert (x + y)[..|x + y| - 1] == x + y[..|y| - 1];
    }
  }

  /** A run with an owner is a run up to its SETUP, and from there on one without another. */
  lemma {:induction false} OwnerSplit(d: Dev, es: seq<Event>) returns (before: Dev, since: seq<Event>)
    requires d.Valid() && OwnerOf(es).By?
    ensures before.Valid() && forall e | e in since :: Unclaimed(e)
    ensures d.Run(es) == before.Accept(OwnerOf(es).request).Run(since)
  {
    hide Dev.Accept, Dev.Step;
    var init, e := es[..|es| - 1], es[|es| - 1];
    if Unclaimed(e) || e.In? || !e.rx.Setup? {
      before, since := OwnerSplit(d, init);
      RunAppend(before.Accept(OwnerOf(init).request), since, [e]);
      RunLast(before.Accept(OwnerOf(init).request).Run(since), e);
      since := since + [e];
    } else {
      before, since := d.Run(init), [Poll(Quiet)];
      SetupThenPoll(before, e.rx.data);
      RunLast(before.Accept(e.rx.data), Poll(Quiet));
    }
  }

  lemma RunLast(d: Dev, e: Event)
    requires d.Valid()
    ensures d.Run([e]) == d.Step(e)
  {
    hide Dev.Step;
    assert [e][..0] == [];
  }

  /** Over all interleavings, where the application is in the owner's transfer: a read has fetched its first `k` bytes,
      a write has taken the packets since the SETUP; the counts follow exactly. */
  lemma OwnedExactly(d: Dev, es: seq<Event>) returns (before: Dev, since: seq<Event>, k: nat)
    requires d.Valid() && (forall e | e in es :: Covered(e)) && OwnerOf(es).By?
    requires var r := OwnerOf(es).request; !IsStandard(r) && !StreamOf(r[1]).Idle?
    ensures var r := OwnerOf(es).request;
            var a0 := before.app.Setup(r);
            && a0.prog == StreamOf(r[1]) && k <= a0.nbytes == Length(r)
            && before.Valid() && d.Run(es) == before.Accept(r).Run(since) && (forall e | e in since :: Unclaimed(e))
            && d.Run(es).app == (if Unread(r) then WriteAll(a0, Outs(since)) else a0.Read(k))
            && (!Unread(r) ==> d.Run(es).app.nbytes == Length(r) - k)
  {
    var r := OwnerOf(es).request;
    before, since := OwnerSplit(d, es);
    k := 0;
    hide App.Setup, Dev.Accept;
    if Unread(r) {
      UnreadRun(before, r, since);
    } else {
      var j := Losses(before, r, since);
      k := Sofar(SourceOf(before, r).Content(), j);
    }
  }

  /** Two applications that cannot be told apart in the transfer they are in. */
  ghost predicate SameTransfer(a: App, b: App) {
    && a.prog == b.prog && a.nbytes == b.nbytes
    && (a.prog.SpiRead? || a.prog.SpiWrite? ==> a.csHi == b.csHi)
    && (a.prog.MwRead? || a.prog.MwWrite? ==> a.mwCsLo == b.mwCsLo)
    && (a.prog.MwWrite? ==> a.mwBits == b.mwBits)
    && (a.prog.I2cWrite? ==> a.stopAw == b.stopAw)
  }

  ghost predicate SameBus(a: App, b: App) {
    a.bus == b.bus && a.slave == b.slave
  }

  lemma SetupSame(a: App, b: App, r: Request)
    requires SameBus(a, b)
    ensures SameBus(a.Setup(r), b.Setup(r)) && a.Reply(r) == b.Reply(r)
    ensures !StreamOf(r[1]).Idle? ==> SameTransfer(a.Setup(r), b.Setup(r))
  {
  }

  lemma ClosedSame(a: App, b: App)
    requires SameBus(a, b) && SameTransfer(a, b)
    ensures SameBus(a.Closed(), b.Closed()) && SameTransfer(a.Closed(), b.Closed())
  {
  }

  lemma {:induction false} PulledSame(a: App, b: App, k: nat)
    requires SameBus(a, b) && SameTransfer(a, b) && k <= a.nbytes
    ensures SameBus(a.Pulled(k), b.Pulled(k)) && SameTransfer(a.Pulled(k), b.Pulled(k))
    ensures a.Payload(k) == b.Payload(k)
  {
    if k > 0 {
      PulledSame(a, b, k - 1);
    }
  }

  lemma ReadSame(a: App, b: App, len: nat)
    requires SameBus(a, b) && SameTransfer(a, b)
    ensures SameBus(a.Read(len), b.Read(len)) && SameTransfer(a.Read(len), b.Read(len))
    ensures a.ReadBytes(len) == b.ReadBytes(len) && a.Reading() == b.Reading()
  {
    hide App.Closed, App.Pulled, App.Payload;
    var m := Min(len, a.nbytes);
    PulledSame(a, b, m);
    ClosedSame(a.Pulled(m), b.Pulled(m));
  }

  lemma {:induction false} SentSame(a: App, b: App, data: seq<byte>)
    requires SameBus(a, b) && SameTransfer(a, b) && |data| <= a.nbytes && a.Writing()
    ensures SameBus(a.Sent(data), b.Sent(data)) && SameTransfer(a.Sent(data), b.Sent(data))
  {
    if data != [] {
      SentSame(a, b, data[..|data| - 1]);
    }
  }

  lemma WriteSame(a: App, b: App, data: seq<byte>)
    requires SameBus(a, b) && SameTransfer(a, b)
    ensures SameBus(a.Write(data), b.Write(data)) && SameTransfer(a.Write(data), b.Write(data))
    ensures a.WriteStatus(data) == b.WriteStatus(data)
  {
    hide App.Closed, App.Sent;
    if a.Writing() {
      var part := data[..Min(|data|, a.nbytes)];
      SentSame(a, b, part);
      ClosedSame(a.Sent(part), b.Sent(part));
    }
  }

  /** Two devices the host cannot tell apart, now or by anything it does. */
  ghost predicate SameView(d: Dev, e: Dev) {
    && SameBus(d.app, e.app) && d.standard == e.standard && d.log == e.log
    && d.msgLen == e.msgLen && d.userRw == e.userRw && d.data1 == e.data1 && d.tx == e.tx
    && (if d.userRw then SameTransfer(d.app, e.app) else d.msgLen != USB_NO_MSG ==> d.msg == e.msg)
  }

  lemma AcceptSame(d: Dev, e: Dev, r: Request)
    requires SameBus(d.app, e.app) && d.standard == e.standard && d.log == e.log
    ensures SameView(d.Accept(r), e.Accept(r))
  {
    SetupSame(d.app, e.app, r);
    hide App.Setup, App.Reply, SameTransfer;
  }

  lemma ProcessSame(d: Dev, e: Dev, rx: Rx)
    requires SameView(d, e)
    ensures SameView(d.Process(rx), e.Process(rx))
  {
    match rx {
      case Setup(r) =>
        if |r| == 8 {
          AcceptSame(d, e, r);
        }
      case Out(data) =>
        if d.userRw {
          hide App.Write, App.WriteStatus, SameTransfer, SameBus;
          WriteSame(d.app, e.app, data);
        }
      case Quiet => {}
    }
  }

  lemma BuildSame(d: Dev, e: Dev)
    requires SameView(d, e) && d.Valid() && e.Valid() && d.msgLen != USB_NO_MSG
    ensures SameView(d.Build(), e.Build())
  {
    hide App.Read, App.ReadBytes, App.Reading, SameTransfer, SameBus;
    if d.userRw {
      ReadSame(d.app, e.app, Min(d.msgLen, 8));
    }
  }

  lemma StepSame(d: Dev, e: Dev, event: Event)
    requires SameView(d, e) && d.Valid() && e.Valid()
    ensures SameView(d.Step(event), e.Step(event))
  {
    if event.Poll? {
      ProcessSame(d, e, event.rx);
      var t, u := d.Process(event.rx), e.Process(event.rx);
      if t.Idle() && t.msgLen != USB_NO_MSG {
        BuildSame(t, u);
      }
    }
  }

  /** A SETUP aborts: whatever transfer it interrupts, with its pending packet, counts, flags and buffers, the host sees
      and the bus carries the same from then on, whatever the host does next. */
  lemma {:induction false} NothingLeaks(d: Dev, e: Dev, r: Request, es: seq<Event>)
    requires d.Valid() && e.Valid() && SameBus(d.app, e.app) && d.standard == e.standard && d.log == e.log
    requires (IsStandard(r) || Modelled(r[1])) && forall event | event in es :: Covered(event)
    ensures SameView(d.Accept(r).Run(es), e.Accept(r).Run(es))
  {
    hide Dev.Accept, Dev.Step, SameView;
    if es == [] {
      AcceptSame(d, e, r);
    } else {
      NothingLeaks(d, e, r, es[..|es| - 1]);
      StepSame(d.Accept(r).Run(es[..|es| - 1]), e.Accept(r).Run(es[..|es| - 1]), es[|es| - 1]);
    }
  }
}
