/** The driver as it runs: usbdrv.c's globals and functions on top of the application's, each doing what the model of
    the control pipe says. */
module UsbDriver {
  import opened Bytes
  import opened UsbaspApp
  import opened UsbPipe

  class Driver {
    const app: Usbasp
    const standard: seq<byte> -> Message
    var usbMsgLen: word
    var usbMsgFlags: bool
    var usbMsgPtr: seq<byte>
    var usbTxBuf0: bool
    var usbTx: Tx
    var usbRx: Rx
    ghost var taken: seq<Packet>

    constructor (application: Usbasp, descriptors: seq<byte> -> Message)
      ensures app == application && standard == descriptors && usbRx == Quiet
      ensures State() == Dev(application.State(), USB_NO_MSG, false, [], false, Nak, [], descriptors)
    {
      app, standard := application, descriptors;
      usbMsgLen, usbMsgFlags, usbMsgPtr, usbTxBuf0, usbTx, usbRx, taken := USB_NO_MSG, false, [], false, Nak, Quiet, [];
    }

    ghost function State(): Dev
      reads this, app
    {
      Dev(app.State(), usbMsgLen, usbMsgFlags, usbMsgPtr, usbTxBuf0, usbTx, taken, standard)
    }

    method ProcessSetup(data: Request)
      requires IsStandard(data) || Modelled(data[1])
      modifies this`usbMsgLen, this`usbMsgFlags, this`usbMsgPtr, this`usbTxBuf0, this`usbTx, app
      ensures State() == old(State()).Accept(data)
      ensures if (data[0] / 0x20) % 4 == 0 then app.State() == old(app.State()) && !usbMsgFlags
              else app.State() == old(app.State()).Setup(data) && (usbMsgFlags <==> data[1] in {51, 52, 71, 72, 92, 93})
      ensures var lo: nat, hi: nat := data[6], data[7];
              var wLength := lo + 0x100 * hi;
              if usbMsgFlags then usbMsgLen == if data[0] >= 0x80 then wLength else 0xFFFF
              else usbMsgLen == if |usbMsgPtr| < wLength then |usbMsgPtr| else wLength
    {
      hide App.Setup, App.Reply;
      usbTxBuf0 := false;
      usbTx := Nak;
      usbMsgFlags := false;
      var stream := false;
      if (data[0] / 0x20) % 4 != 0 {
        stream := app.FunctionSetup(data);
        if !stream {
          usbMsgPtr := app.replyBuffer;
        }
      } else {
        usbMsgPtr := standard(data);
      }
      var wLength := Join(data[7], data[6]);
      var replyLen := if stream then USB_NO_MSG else |usbMsgPtr|;
      if replyLen == USB_NO_MSG {
        if data[0] >= 0x80 {
          replyLen := wLength;
        }
        usbMsgFlags := true;
      } else if replyLen > wLength {
        replyLen := wLength;
      }
      usbMsgLen := replyLen;
    }

    method ProcessRx()
      requires Supported(usbRx)
      modifies this`usbMsgLen, this`usbMsgFlags, this`usbMsgPtr, this`usbTxBuf0, this`usbTx, app
      ensures State() == old(State()).Process(old(usbRx))
    {
      match usbRx {
        case Setup(data) =>
          if |data| == 8 {
            ProcessSetup(data);
          }
        case Out(data) =>
          if usbMsgFlags {
            hide App.Write, App.WriteStatus;
            var status := app.FunctionWrite(data);
            if status == 0xFF {
              usbTx := Stall;
            } else if status != 0 {
              usbMsgLen := 0;
            }
          }
        case Quiet => {}
      }
    }

    /** usbDeviceRead for a reply in memory: the copy loop over `usbMsgPtr`. */
    method CopyMessage(len: byte) returns (data: seq<byte>)
      requires len <= |usbMsgPtr|
      modifies this`usbMsgPtr
      ensures data == old(usbMsgPtr)[..len] && usbMsgPtr == old(usbMsgPtr)[len..]
    {
      data := [];
      for i := 0 to len
        invariant data == old(usbMsgPtr)[..i] && usbMsgPtr == old(usbMsgPtr)[i..]
      {
        data := data + [usbMsgPtr[0]];
        usbMsgPtr := usbMsgPtr[1..];
      }
    }

    method BuildTxBlock()
      requires State().Valid() && usbMsgLen != USB_NO_MSG
      modifies this`usbMsgLen, this`usbMsgPtr, this`usbTxBuf0, this`usbTx, app
      ensures State() == old(State()).Build()
    {
      hide App.Pulled, App.Payload, App.Closed, App.Reading;
      var wantLen: byte := if usbMsgLen > 8 then 8 else usbMsgLen;
      usbMsgLen := usbMsgLen - wantLen;
      usbTxBuf0 := !usbTxBuf0;
      var len, data := wantLen, [];
      if wantLen > 0 {
        if usbMsgFlags {
          len, data := app.FunctionRead(wantLen);
        } else {
          data := CopyMessage(wantLen);
        }
      }
      if len <= 8 {
        if len < 8 {
          usbMsgLen := USB_NO_MSG;
        }
        usbTx := Data(Packet(usbTxBuf0, data));
      } else {
        usbTx := Stall;
        usbMsgLen := USB_NO_MSG;
      }
    }

    /** One turn of the main loop. */
    method PollOnce()
      requires State().Valid() && Supported(usbRx)
      modifies this, app
      ensures State() == old(State()).Step(Poll(old(usbRx))) && usbRx == Quiet
    {
      hide Dev.Build, Dev.Process;
      ghost var rx := usbRx;
      ghost var next := State().Process(rx);
      assert next.Valid() by {
        ProcessValid(State(), rx);
      }
      ProcessRx();
      usbRx := Quiet;
      if !usbTx.Data? {
        if usbMsgLen != USB_NO_MSG {
          BuildTxBlock();
        }
      }
    }

    /** The interrupt routine hands over the packet on offer. */
    method HandleIn() returns (answer: Tx)
      modifies this`usbTx, this`taken
      ensures State() == old(State()).Taken() && answer == old(usbTx)
    {
      answer := usbTx;
      if usbTx.Data? {
        taken := taken + [usbTx.packet];
        usbTx := Nak;
      }
    }
  }

  lemma ProcessValid(d: Dev, rx: Rx)
    requires d.Valid()
    ensures d.Process(rx).Valid()
  {
    hide App.Write, App.Setup, App.Reply;
  }
}
