/** The Arduino programmer's I2C commands (i2c_cmd.cpp): a transfer cut into chunks that the host acknowledges. */
module ArduinoI2c {
  import opened Bytes
  import opened I2cWave

  const RCHUNK: nat := 64
  const WCHUNK: nat := 256

  /** The byte count as the program holds it, in a signed 16-bit integer. */
  function Signed(hi: byte, lo: byte): int {
    var n := Join(hi, lo);
    if n < 0x8000 then n else n - 0x1_0000
  }

  function Acked(n: nat): (r: seq<Op>)
    ensures |r| == n
  {
    if n == 0 then [] else Acked(n - 1) + [Receive(true)]
  }

  /** A read in one piece: only the last byte is not acknowledged, and STOP follows it. */
  function WholeRead(n: nat): seq<Op> {
    if n == 0 then [] else Acked(n - 1) + [Receive(false), SendStop]
  }

  /** The first `k` bytes the device sends after `before`. */
  function Answers(device: seq<Op> -> byte, before: seq<Op>, k: nat): (r: seq<byte>)
    ensures |r| == k
  {
    if k == 0 then [] else Answers(device, before, k - 1) + [device(before + Acked(k - 1))]
  }

  /** Bytes of a write that reach the bus: of every full chunk only the first `RCHUNK`. */
  function Kept(data: seq<byte>): seq<byte> {
    if |data| < 256 then data else data[..64] + Kept(data[256..])
  }

  lemma NothingRead(device: seq<Op> -> byte, before: seq<Op>, serial: seq<byte>)
    ensures before + Acked(0) == before && serial + Answers(device, before, 0) == serial
  {
  }

  lemma NothingSent(before: seq<Op>)
    ensures before + Sends([]) == before
  {
  }

  lemma {:induction false} SendsAppend(x: seq<byte>, y: seq<byte>)
    ensures Sends(x + y) == Sends(x) + Sends(y)
    decreases |y|
  {
    if y == [] {
      assert x + y == x;
    } else {
      var z := y[..|y| - 1];
      SendsAppend(x, z);
      assert (x + y)[..|x + y| - 1] == x + z;
    }
  }

  /** What the program reads for a request: not more than it wants, and perhaps less. */
  function Got(arrives: nat -> seq<byte>, c: nat, n: int): (got: seq<byte>)
    requires n > 0
    ensures |got| <= n && |got| <= WCHUNK
  {
    var want := if n < WCHUNK then n else WCHUNK;
    if |arrives(c)| < want then arrives(c) else arrives(c)[..want]
  }

  /** The buffer after a read: what did not arrive is still there from before. */
  function Refilled(buff: seq<byte>, got: seq<byte>): (r: seq<byte>)
    requires |got| <= |buff|
    ensures |r| == |buff|
  {
    got + buff[|got|..]
  }

  /** What a write of `n` bytes does on the bus from request number `c` on. */
  function WriteOps(arrives: nat -> seq<byte>, buff: seq<byte>, n: int, c: nat, stopAw: byte): seq<Op>
    requires |buff| == WCHUNK
    decreases n
  {
    if n <= 0 then [if stopAw == 1 then SendStop else SendStart]
    else
      var got := Got(arrives, c, n);
      var next := Refilled(buff, got);
      Sends(next[..if n >= WCHUNK then RCHUNK else n]) +
      if got == [] then [SendStop] else WriteOps(arrives, next, n - |got|, c + 1, stopAw)
  }

  lemma WriteStep(arrives: nat -> seq<byte>, buff: seq<byte>, n: int, c: nat, stopAw: byte, before: seq<Op>)
    requires |buff| == WCHUNK && n > 0
    ensures var got := Got(arrives, c, n);
            var next := Refilled(buff, got);
            before + WriteOps(arrives, buff, n, c, stopAw) ==
            (before + Sends(next[..if n >= WCHUNK then RCHUNK else n]))
            + if got == [] then [SendStop] else WriteOps(arrives, next, n - |got|, c + 1, stopAw)
  {
    hide Sends, Got, Refilled;
  }

  lemma WriteLast(arrives: nat -> seq<byte>, buff: seq<byte>, n: int, c: nat, stopAw: byte)
    requires |buff| == WCHUNK && n <= 0
    ensures WriteOps(arrives, buff, n, c, stopAw) == [if stopAw == 1 then SendStop else SendStart]
  {
  }

  /** A host that delivers `data` from request number `c` on as fast as it is asked for. */
  ghost predicate Delivers(arrives: nat -> seq<byte>, data: seq<byte>, c: nat)
    decreases |data|
  {
    data != [] ==>
      && |arrives(c)| >= |Chunk(data)| && arrives(c)[..|Chunk(data)|] == Chunk(data)
      && Delivers(arrives, data[|Chunk(data)|..], c + 1)
  }

  function Chunk(data: seq<byte>): (r: seq<byte>)
    ensures data != [] ==> r != []
    ensures |r| <= |data|
  {
    if |data| < WCHUNK then data else data[..WCHUNK]
  }

  /** With such a host the bus carries what `Kept` says, and ends as the request asks. */
  lemma {:induction false} WriteDelivered(arrives: nat -> seq<byte>, buff: seq<byte>, data: seq<byte>, c: nat,
                                          stopAw: byte)
    requires |buff| == WCHUNK && Delivers(arrives, data, c)
    ensures WriteOps(arrives, buff, |data|, c, stopAw) ==
            Sends(Kept(data)) + [if stopAw == 1 then SendStop else SendStart]
    decreases |data|
  {
    hide Sends;
    if data == [] {
      NothingSent([]);
      assert Sends([]) == [];
    } else {
      var got := Chunk(data);
      assert Got(arrives, c, |data|) == got;
      var next := Refilled(buff, got);
      WriteDelivered(arrives, next, data[|got|..], c + 1, stopAw);
      if |data| < WCHUNK {
        assert next[..|data|] == data && data[|got|..] == [];
        assert Kept([]) == [] && Sends([]) == [];
      } else {
        assert next[..RCHUNK] == data[..RCHUNK];
        SendsAppend(data[..RCHUNK], Kept(data[WCHUNK..]));
      }
    }
  }

  /** A host that has stopped sending: one more portion of the old buffer goes out, then STOP. */
  lemma WriteAbandoned(arrives: nat -> seq<byte>, buff: seq<byte>, n: int, c: nat, stopAw: byte)
    requires |buff| == WCHUNK && n > 0 && arrives(c) == []
    ensures WriteOps(arrives, buff, n, c, stopAw) == Sends(buff[..if n >= WCHUNK then RCHUNK else n]) + [SendStop]
  {
    assert Refilled(buff, []) == buff;
  }

  /** A write is complete exactly when it fits into less than one chunk. */
  lemma {:induction false} WriteComplete(data: seq<byte>)
    ensures Kept(data) == data <==> |data| < 256
    ensures |Kept(data)| <= |data|
  {
    if |data| >= WCHUNK {
      WriteComplete(data[WCHUNK..]);
    }
  }

  class Arduino {
    /** What has been done on the bus, and what has been sent to the host. */
    var ops: seq<Op>
    var serial: seq<byte>

    const device: seq<Op> -> byte

    /** Whether the host acknowledges its chunk number `c`. */
    const hostAck: nat -> bool

    constructor (attached: seq<Op> -> byte, host: nat -> bool)
      ensures ops == [] && serial == [] && device == attached && hostAck == host
    {
      ops, serial, device, hostAck := [], [], attached, host;
    }

    method ReadByte(ack: bool) returns (b: byte)
      modifies this`ops
      ensures b == device(old(ops)) && ops == old(ops) + [Receive(ack)]
    {
      b := device(ops);
      ops := ops + [Receive(ack)];
    }

    /** One chunk: the loop into `buff`, which ends the transfer with the last byte. */
    method ReadChunk(count: nat, progNbytes: int, ghost before: seq<Op>, ghost k: nat) returns (buff: seq<byte>)
      requires 0 < count <= progNbytes && ops == before + Acked(k)
      modifies this`ops
      ensures Answers(device, before, k + count) == Answers(device, before, k) + buff
      ensures ops == before + if count == progNbytes then WholeRead(k + count) else Acked(k + count)
    {
      buff := [];
      for i := 0 to count
        invariant Answers(device, before, k + i) == Answers(device, before, k) + buff
        invariant ops == before + if i == progNbytes then WholeRead(k + i) else Acked(k + i)
      {
        var b: byte;
        if progNbytes - 1 == i {
          b := ReadByte(false);
          ops := ops + [SendStop];
          assert before + Acked(k + i) + [Receive(false)] + [SendStop] == before + WholeRead(k + i + 1);
        } else {
          b := ReadByte(true);
          assert before + Acked(k + i) + [Receive(true)] == before + Acked(k + i + 1);
        }
        buff := buff + [b];
      }
    }

    /** CMD_I2C_READ after its parameters. `k` is the number of bytes the host gets. */
    method CmdRead(addr: byte, hi: byte, lo: byte) returns (ghost k: nat, ghost refused: bool)
      modifies this
      ensures var n := Signed(hi, lo);
              var before := old(ops) + [Send(SetBit(addr, 1))];
              && serial == old(serial) + Answers(device, before, k)
              && k <= Join(hi, lo)
              && (n <= 0 ==> k == 0 && ops == before)
              && (n > 0 && !refused ==> k == n && ops == before + WholeRead(n))
              && (n > 0 && refused && k == n ==> ops == before + WholeRead(n) + [SendStop])
              && (n > 0 && refused && k < n ==> k % 64 == 0 && ops == before + Acked(k) + [SendStop])
      ensures refused <==> exists c: nat :: c * 64 < Signed(hi, lo) && !hostAck(c)
      ensures if hi < 0x80 then !refused ==> k == 0x100 * hi + lo else k == 0 && !refused
    {
      hide Answers, Acked, WholeRead;
      var progNbytes := Signed(hi, lo);
      ghost var n := progNbytes;
      ops := ops + [Send(SetBit(addr, 1))];
      ghost var before := ops;
      k, refused := 0, false;
      var chunk := 0;
      NothingRead(device, before, serial);
      while progNbytes > 0
        invariant n > 0 ==> progNbytes == n - k && k <= n
        invariant n <= 0 ==> progNbytes == n && k == 0
        invariant progNbytes > 0 ==> k == chunk * RCHUNK
        invariant progNbytes <= 0 && n > 0 ==> n <= chunk * RCHUNK
        invariant forall c: nat | c < chunk :: hostAck(c)
        invariant serial == old(serial) + Answers(device, before, k)
        invariant ops == before + if n > 0 && k == n then WholeRead(n) else Acked(k)
      {
        var count := if progNbytes >= RCHUNK then RCHUNK else progNbytes;
        var buff := ReadChunk(count, progNbytes, before, k);
        serial := serial + buff;
        k := k + count;
        progNbytes := progNbytes - count;
        if !hostAck(chunk) {
          ops := ops + [SendStop];
          refused := true;
          assert chunk * RCHUNK < n;
          return;
        }
        chunk := chunk + 1;
      }
      assert forall c: nat | c * RCHUNK < n :: c < chunk;
    }

    /** CMD_I2C_WRITE after its parameters. `arrives(c)` is what the host sends in answer to request number `c` before
        the program stops waiting, `left` what earlier commands have left in the buffer. */
    method CmdWrite(addr: byte, stopAw: byte, hi: byte, lo: byte, arrives: nat -> seq<byte>, left: seq<byte>)
      requires |left| == WCHUNK
      modifies this`ops
      ensures ops == old(ops) + [SendStart, Send(ClearBit(addr, 1))]
                     + WriteOps(arrives, left, Signed(hi, lo), 0, stopAw)
      ensures if hi < 0x80 then Signed(hi, lo) == 0x100 * hi + lo
              else ops == old(ops) + [SendStart, Send(ClearBit(addr, 1))]
                          + [if stopAw == 1 then SendStop else SendStart]
    {
      hide Sends, WriteOps;
      if hi >= 0x80 {
        WriteLast(arrives, left, Signed(hi, lo), 0, stopAw);
      }
      ops := ops + [SendStart];
      ops := ops + [Send(ClearBit(addr, 1))];
      WriteChunks(Signed(hi, lo), stopAw, arrives, left);
    }

    /** The chunk loop of a write, and how it ends. */
    method WriteChunks(n: int, stopAw: byte, arrives: nat -> seq<byte>, left: seq<byte>)
      requires |left| == WCHUNK
      modifies this`ops
      ensures ops == old(ops) + WriteOps(arrives, left, n, 0, stopAw)
    {
      hide Sends, WriteOps, Got, Refilled;
      ghost var all := ops + WriteOps(arrives, left, n, 0, stopAw);
      var progNbytes, chunk, buff := n, 0, left;
      while progNbytes > 0
        invariant |buff| == WCHUNK
        invariant ops + WriteOps(arrives, buff, progNbytes, chunk, stopAw) == all
      {
        WriteStep(arrives, buff, progNbytes, chunk, stopAw, ops);
        var got := Got(arrives, chunk, progNbytes);
        buff := Refilled(buff, got);
        SendBuffer(buff, if progNbytes >= WCHUNK then RCHUNK else progNbytes);
        if |got| == 0 {
          ops := ops + [SendStop];
          return;
        }
        progNbytes := progNbytes - |got|;
        chunk := chunk + 1;
      }
      WriteLast(arrives, buff, progNbytes, chunk, stopAw);
      ops := ops + [if stopAw == 1 then SendStop else SendStart];
    }

    method SendBuffer(buff: seq<byte>, count: nat)
      requires count <= |buff|
      modifies this`ops
      ensures ops == old(ops) + Sends(buff[..count])
    {
      for i := 0 to count
        invariant ops == old(ops) + Sends(buff[..i])
      {
        assert buff[..i + 1][..i] == buff[..i];
        ops := ops + [Send(buff[i])];
      }
    }
  }

  lemma {:induction false} AckedAt(n: nat, i: nat)
    requires i < n
    ensures Acked(n)[i] == Receive(true)
  {
    if i < n - 1 {
      AckedAt(n - 1, i);
    }
  }

  /** In a whole read every byte but the last is acknowledged, and there is one STOP, at the end. */
  lemma WholeReadShape(n: nat, i: nat)
    requires i <= n && n > 0
    ensures |WholeRead(n)| == n + 1
    ensures WholeRead(n)[i] == if i == n then SendStop else Receive(i < n - 1)
  {
    if i < n - 1 {
      AckedAt(n - 1, i);
    }
  }
}
