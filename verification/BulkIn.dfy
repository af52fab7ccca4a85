/** The bulk IN endpoint that carries replies to the host (section 5.8.3 of the USB 2.0 specification: a packet
    shorter than the maximum ends the transfer). */
module BulkIn {
  import opened Bytes

  const AVRISP_DATA_EPSIZE: nat := 64

  /** Packets a host takes for one transfer carrying `payload`. */
  ghost predicate Framed(packets: seq<seq<byte>>, payload: seq<byte>) {
    && packets != []
    && (forall k | 0 <= k < |packets| - 1 :: |packets[k]| == 64)
    && |packets[|packets| - 1]| < 64
    && Concat(packets) == payload
  }

  /** A host that stops at the first short packet: what it reads from the front of a packet stream. */
  function HostRead(packets: seq<seq<byte>>): seq<byte> {
    if packets == [] then []
    else if |packets[0]| < 64 then packets[0]
    else packets[0] + HostRead(packets[1..])
  }

  lemma {:induction false} ConcatFront<T>(parts: seq<seq<T>>)
    requires parts != []
    ensures Concat(parts) == parts[0] + Concat(parts[1..])
  {
    var n := |parts| - 1;
    if n == 0 {
      assert parts[..n] == parts[1..] == [];
    } else {
      ConcatFront(parts[..n]);
      var last := parts[n];
      assert Concat(parts) == Concat(parts[..n]) + last;
      assert Concat(parts[1..]) == Concat(parts[1..][..n - 1]) + last;
      hide Concat;
      assert parts[..n][1..] == parts[1..][..n - 1];
    }
  }

  /** Whatever the next reply looks like, the host reads exactly this payload and loses nothing. */
  lemma {:induction false} HostReadsPayload(packets: seq<seq<byte>>, payload: seq<byte>, later: seq<seq<byte>>)
    requires Framed(packets, payload)
    ensures HostRead(packets + later) == payload
  {
    ConcatFront(packets);
    var rest := packets[1..];
    assert (packets + later)[1..] == rest + later;
    if |packets| == 1 {
      assert Concat(rest) == [];
    } else {
      HostReadsPayload(rest, Concat(rest), later);
    }
  }

  /** The endpoint bank being filled, and the packets already handed to the host. */
  class DataEndpoint {
    var bank: seq<byte>
    var packets: seq<seq<byte>>

    constructor ()
      ensures bank == [] && packets == []
    {
      bank, packets := [], [];
    }

    /** All packets so far are full, and the bank is not. */
    ghost predicate Open()
      reads this
    {
      |bank| < AVRISP_DATA_EPSIZE && forall p | p in packets :: |p| == AVRISP_DATA_EPSIZE
    }

    ghost function Payload(): seq<byte>
      reads this
    {
      Concat(packets) + bank
    }

    method Write8(b: byte)
      requires |bank| < AVRISP_DATA_EPSIZE
      modifies this`bank
      ensures bank == old(bank) + [b]
    {
      bank := bank + [b];
    }

    method ClearIN()
      modifies this
      ensures packets == old(packets) + [old(bank)] && bank == []
    {
      packets, bank := packets + [bank], [];
    }

    predicate IsReadWriteAllowed()
      reads this
    {
      |bank| < AVRISP_DATA_EPSIZE
    }

    /** Write one byte and send the packet when that filled the bank. */
    method WriteData(b: byte)
      requires Open()
      modifies this
      ensures Open() && Payload() == old(Payload()) + [b]
    {
      Write8(b);
      if !IsReadWriteAllowed() {
        ClearIN();
      }
      assert old(Concat(packets)) + (old(bank) + [b]) == old(Payload()) + [b];
    }

    /** The closing status byte; a transfer that ends on a packet boundary is ended by an empty packet. */
    method Close(status: byte)
      requires Open()
      modifies this
      ensures Framed(packets, old(Payload()) + [status])
    {
      Write8(status);
      var isEndpointFull := !IsReadWriteAllowed();
      ghost var front := packets;
      ClearIN();
      assert packets[..|front|] == front;
      assert Concat(packets) == old(Payload()) + [status];
      if isEndpointFull {
        ghost var full := packets;
        ClearIN();
        assert packets[..|full|] == full;
      }
    }
  }
}
