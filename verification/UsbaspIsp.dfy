/** USBasp's in-system programming functions (isp.c): byte addresses split over a cached extended address byte and the
    instruction, run against the device of `AvrTarget`. */
module UsbaspIsp {
  import opened Bytes
  import opened AvrTarget

  const REACH: nat := 0x200_0000

  /** The pieces of a byte address that go over the wire: for the extended address register, and in the instruction. */
  function Ext(a: nat): byte {
    (a / 0x2_0000) % 0x100
  }

  function Hi(a: nat): byte {
    (a / 0x200) % 0x100
  }

  function Lo(a: nat): byte {
    (a / 2) % 0x100
  }

  /** Where an instruction for address `a` goes when the register holds `ext`. */
  function Hit(ext: byte, a: nat): nat {
    2 * (ext * 0x1_0000 + Join(Hi(a), Lo(a))) + a % 2
  }

  lemma PiecesOf(a: nat, k: nat, e: byte, h: byte, l: byte, p: nat)
    requires p < 2 && a == p + 2 * (l + 0x100 * (h + 0x100 * (e + 0x100 * k)))
    ensures Ext(a) == e && Hi(a) == h && Lo(a) == l && a % 2 == p
  {
    var z := e + 0x100 * k;
    var y := h + 0x100 * z;
    var x := l + 0x100 * y;
    assert a == p + 2 * x;
    Digit(z, e, k);
    Digit(y, h, z);
    Digit(x, l, y);
    Halves(a, x, y, z);
  }

  lemma Digit(x: nat, low: byte, high: nat)
    requires x == low + 0x100 * high
    ensures x / 0x100 == high && x % 0x100 == low
  {
  }

  lemma Halves(a: nat, x: nat, y: nat, z: nat)
    requires a / 2 == x && x / 0x100 == y && y / 0x100 == z
    ensures a / 0x200 == y && a / 0x2_0000 == z
  {
  }

  /** The pieces reassemble to the address, as far as 25 bits go. */
  lemma Reassembled(a: nat) returns (k: nat)
    ensures Hit(Ext(a), a) + k * REACH == a
  {
    var p, x := a % 2, a / 2;
    var l, y := x % 0x100, x / 0x100;
    var h, z := y % 0x100, y / 0x100;
    var e := z % 0x100;
    k := z / 0x100;
    PiecesOf(a, k, e, h, l, p);
  }

  /** The cache and the register behind it. */
  datatype Link = Link(hiaddr: byte, ext: byte, flash: Store) {

    predicate Coherent() {
      hiaddr == ext
    }

    /** ispUpdateExtended: the register is loaded only when the cached byte differs. */
    function Synced(a: nat): Link {
      if hiaddr == Ext(a) then this else this.(hiaddr := Ext(a), ext := Ext(a))
    }

    function Do(op: Op): Link {
      var l := Synced(op.a);
      match op
      case Read(_) => l
      case Write(a, b) => l.(flash := flash.Put(Hit(l.ext, a), b))
      case Flush(a) => l.(flash := flash.Commit(Hit(l.ext, a) - a % 2))
    }

    function Answer(op: Op): byte {
      flash.cell(Hit(Synced(op.a).ext, op.a))
    }

    function Run(ops: seq<Op>): Link {
      if ops == [] then this else Run(ops[..|ops| - 1]).Do(ops[|ops| - 1])
    }
  }

  datatype Op = Read(a: nat) | Write(a: nat, b: byte) | Flush(a: nat)

  /** The same operations on a memory with byte addresses, as if the register were loaded every time. */
  function FlatDo(flash: Store, op: Op): Store {
    match op
    case Read(_) => flash
    case Write(a, b) => flash.Put(a, b)
    case Flush(a) => flash.Commit(a - a % 2)
  }

  function FlatRun(flash: Store, ops: seq<Op>): Store {
    if ops == [] then flash else FlatDo(FlatRun(flash, ops[..|ops| - 1]), ops[|ops| - 1])
  }

  /** An operation reaches its address exactly when the address has 25 bits and the register is loaded or was right. */
  lemma Reaches(l: Link, a: nat)
    ensures Hit(l.Synced(a).ext, a) == a <==> a < REACH && (l.hiaddr != Ext(a) || l.ext == Ext(a))
  {
    var k := Reassembled(a);
  }

  /** For any operations in any order, leaving out repeated loads changes neither the memory nor an answer. */
  lemma {:induction false} CacheRefines(l: Link, ops: seq<Op>)
    requires l.Coherent() && forall op | op in ops :: op.a < REACH
    ensures l.Run(ops).Coherent()
    ensures l.Run(ops).flash == FlatRun(l.flash, ops)
    ensures forall a | 0 <= a < REACH :: l.Run(ops).Answer(Read(a)) == FlatRun(l.flash, ops).cell(a)
  {
    hide Ext, Hit;
    if ops != [] {
      var n := |ops| - 1;
      assert ops[n] in ops;
      CacheRefines(l, ops[..n]);
      Reaches(l.Run(ops[..n]), ops[n].a);
      OneRefines(l.Run(ops[..n]), ops[n]);
    }
    hide Link.Run, FlatRun, Link.Synced;
    forall a: nat | a < REACH
      ensures l.Run(ops).Answer(Read(a)) == FlatRun(l.flash, ops).cell(a)
    {
      Reaches(l.Run(ops), a);
      assert Read(a).a == a;
    }
  }

  lemma OneRefines(l: Link, op: Op)
    requires l.Coherent() && op.a < REACH
    ensures l.Do(op).Coherent() && l.Do(op).flash == FlatDo(l.flash, op)
  {
    hide Ext, Hit, Store.Put, Store.Commit;
    Reaches(l, op.a);
  }

  /** One wait after a write: a poll that ends with any value but `blank`, or gives up, or a pause of fixed length,
      which is enough if the device is ready afterwards. */
  datatype Wait = Polled(blank: byte, ok: bool) | Paused(units: nat, enough: bool) {

    /** A wait that has done what it is for, on a device that answers `busyValue` while busy. */
    predicate Served(busyValue: byte) {
      match this
      case Polled(blank, ok) => ok && blank == busyValue
      case Paused(_, enough) => enough
    }

    /** What was waited for, whatever came of it. */
    function Kind(): Wait {
      match this
      case Polled(blank, _) => Polled(blank, true)
      case Paused(units, _) => Paused(units, true)
    }
  }

  function Kinds(ws: seq<Wait>): (r: seq<Wait>)
    ensures |r| == |ws|
  {
    if ws == [] then [] else Kinds(ws[..|ws| - 1]) + [ws[|ws| - 1].Kind()]
  }

  lemma KindsSnoc(ws: seq<Wait>, w: Wait)
    ensures Kinds(ws + [w]) == Kinds(ws) + [w.Kind()]
  {
    assert (ws + [w])[..|ws|] == ws;
  }

  ghost predicate AllServed(busyValue: byte, ws: seq<Wait>) {
    forall w | w in ws :: w.Served(busyValue)
  }

  lemma AllServedSnoc(busyValue: byte, ws: seq<Wait>, w: Wait)
    ensures AllServed(busyValue, ws + [w]) <==> AllServed(busyValue, ws) && w.Served(busyValue)
  {
    assert w in ws + [w] && forall v | v in ws :: v in ws + [w];
  }

  lemma WriteThenRead(l: Link, a: nat, data: byte)
    ensures l.Do(Write(a, data)).Synced(a) == l.Do(Write(a, data))
  {
  }

  class Isp {
    var ispHiaddr: byte
    var target: Avr
    ghost var waits: seq<Wait>

    ghost predicate Ready()
      reads this
    {
      target.frame == []
    }

    /** As long as every wait has served, the device is ready for the next write, and none has come early. */
    ghost predicate Kept()
      reads this
    {
      AllServed(target.blank, waits) ==> Quiet(target)
    }

    function State(): Link
      reads this
    {
      Link(ispHiaddr, target.ext, target.flash)
    }

    method Transmit(b: byte) returns (r: byte)
      modifies this`target
      ensures target == old(target).Shift(b) && r == old(target).Reply()
    {
      r := target.Reply();
      target := target.Shift(b);
    }

    /** One four-byte instruction; the answer is the byte received last. */
    method Instruct(op: byte, hi: byte, lo: byte, arg: byte) returns (r: byte)
      requires Ready()
      modifies this`target
      ensures target == old(target).Elapsed(4).Exec(op, hi, lo, arg)
      ensures r == old(target).Elapsed(3).(frame := [op, hi, lo]).Reply()
    {
      Instruction(target, op, hi, lo, arg);
      r := Transmit(op);
      r := Transmit(hi);
      r := Transmit(lo);
      r := Transmit(arg);
    }

    method PulseReset()
      modifies this`target
      ensures target == old(target).Reset()
    {
      target := target.Reset();
    }

    method Connect()
      modifies this
      ensures Ready() && State().Coherent() && ispHiaddr == 0
      ensures target == old(target).Reset() && waits == old(waits)
      ensures old(Kept()) ==> Kept()
    {
      PulseReset();
      ispHiaddr := 0;
    }

    /** Tries to enable programming; `line(k, b)` is what arrives in attempt `k` when the device answers `b`. A retry
        resets the device but not the cache, so the two agree afterwards only if they agreed and there was no retry, or
        if nothing but the first segment had been used. */
    method EnterProgrammingMode(line: (nat, byte) -> byte) returns (status: byte, retries: nat)
      requires Ready()
      modifies this`target
      ensures retries <= 32 && forall k: nat | k < retries :: line(k, 0x53) != 0x53
      ensures status == 0 <==> retries < 32 && line(retries, 0x53) == 0x53
      ensures status <= 1 && (retries < 32 ==> status == 0)
      ensures target.flash == old(target.flash) && target.eeprom == old(target.eeprom) && Ready()
      ensures target.enabled <==> status == 0
      ensures old(State().Coherent()) ==> (State().Coherent() <==> retries == 0 || ispHiaddr == 0)
      ensures old(Kept()) ==> Kept()
    {
      hide AllServed;
      retries := 0;
      var count := 32;
      while count > 0
        invariant count + retries == 32 && forall k: nat | k < retries :: line(k, 0x53) != 0x53
        invariant target.flash == old(target.flash) && target.eeprom == old(target.eeprom) && Ready()
        invariant target.ext == if retries == 0 then old(target.ext) else 0
        invariant target.busy <= old(target.busy) && target.early == old(target.early)
        invariant retries > 0 ==> !target.enabled
        invariant target.blank == old(target.blank)
      {
        count := count - 1;
        var answer := Enable();
        if line(retries, answer) == 0x53 {
          return 0, retries;
        }
        PulseReset();
        retries := retries + 1;
      }
      return 1, retries;
    }

    /** The instruction that enables programming; the device echoes its second byte. */
    method Enable() returns (answer: byte)
      requires Ready()
      modifies this`target
      ensures Settled(old(target).(enabled := true), target) && answer == 0x53
    {
      Instruction(target, 0xAC, 0x53, 0, 0);
      var _ := Transmit(0xAC);
      var _ := Transmit(0x53);
      answer := Transmit(0);
      var _ := Transmit(0);
    }

    method UpdateExtended(a: nat)
      requires Ready()
      modifies this
      ensures Ready() && State() == old(State()).Synced(a)
      ensures target.eeprom == old(target.eeprom) && target.busy <= old(target.busy)
      ensures waits == old(waits) && target.early == old(target.early) && SameDevice(old(target), target)
    {
      var curr := Ext(a);
      if ispHiaddr != curr {
        ispHiaddr := curr;
        var _ := Instruct(0x4D, 0x00, ispHiaddr, 0x00);
      }
    }

    /** An idle device answers with the cell the address pieces name. */
    method ReadFlash(a: nat) returns (b: byte)
      requires Ready()
      modifies this
      ensures Ready() && State() == old(State()).Do(Read(a))
      ensures old(target.busy) == 0 ==> b == old(State()).Answer(Read(a)) && target.busy == 0
      ensures b != target.blank ==> target.busy == 0
      ensures target.eeprom == old(target.eeprom) && target.busy <= old(target.busy)
      ensures waits == old(waits) && target.early == old(target.early) && SameDevice(old(target), target)
    {
      UpdateExtended(a);
      b := Instruct(0x20 + 8 * (a % 2), Hi(a), Lo(a), 0);
    }

    /** The retry loop: at most 30 waits, each cut short by a value other than `blank`. It gives up after 30
        slices of time, when the device has answered `blank` at every look. */
    method Poll(a: nat, blank: byte) returns (status: byte, ghost looks: seq<byte>, ghost slices: nat)
      requires Ready()
      modifies this
      ensures Ready() && State() == old(State()).Synced(a) && target.eeprom == old(target.eeprom)
      ensures target.early == old(target.early) && SameDevice(old(target), target)
      ensures waits == old(waits) + [Polled(blank, status == 0)]
      ensures status == 0 && blank == target.blank ==> target.busy == 0
      ensures if status == 0 then looks != [] && looks[|looks| - 1] != blank
              else status == 1 && slices == 30 <= |looks|
      ensures forall k | 0 <= k < |looks| - Bit(status == 0) :: looks[k] == blank
      ensures old(target.busy) == 0 && looks != [] ==> looks[0] == old(State()).Answer(Read(a))
    {
      var retries := 30;
      var quiet: nat := *;
      looks, slices := [], 0;
      while retries > 0
        invariant Ready() && target.eeprom == old(target.eeprom) && target.busy <= old(target.busy)
        invariant target.early == old(target.early) && SameDevice(old(target), target) && waits == old(waits)
        invariant slices + retries == 30 && |looks| >= slices && forall k | 0 <= k < |looks| :: looks[k] == blank
        invariant old(target.busy) == 0 && looks != [] ==> looks[0] == old(State()).Answer(Read(a))
        invariant State() == old(State()) || State() == old(State()).Synced(a)
        invariant retries < 30 ==> State() == old(State()).Synced(a)
        decreases retries, quiet
      {
        var b := ReadFlash(a);
        looks := looks + [b];
        if b != blank {
          waits := waits + [Polled(blank, true)];
          return 0, looks, slices;
        }
        if quiet > 0 {
          quiet := quiet - 1;
        } else {
          quiet := *;
          retries := retries - 1;
          slices := slices + 1;
        }
      }
      waits := waits + [Polled(blank, false)];
      return 1, looks, slices;
    }

    /** A pause of fixed length; whether it is enough is up to the device. */
    method ClockWait(units: nat)
      requires Ready()
      modifies this`target, this`waits
      ensures Settled(old(target), target) && waits == old(waits) + [Paused(units, target.busy == 0)]
    {
      var length: nat :| length >= 0;
      target := target.Elapsed(length);
      waits := waits + [Paused(units, target.busy == 0)];
    }

    /** The instruction that takes one byte for the flash. */
    method SendFlash(a: nat, data: byte)
      requires Ready()
      modifies this
      ensures Ready() && State() == old(State()).Do(Write(a, data))
      ensures target.eeprom == old(target.eeprom) && SameDevice(old(target), target) && waits == old(waits)
      ensures old(target.busy) == 0 ==> target.early == old(target.early)
      ensures old(target.busy) == 0 && target.flash.page > 0 ==> target.busy == 0
    {
      hide Ext, Join;
      UpdateExtended(a);
      var _ := Instruct(0x40 + 8 * (a % 2), Hi(a), Lo(a), data);
    }

    /** The byte is sent, and in unpaged mode waited for, by polling unless it is the value that cannot be told. */
    method WriteFlash(a: nat, data: byte, pollmode: byte) returns (status: byte)
      requires Ready()
      modifies this
      ensures Ready() && State() == old(State()).Do(Write(a, data))
      ensures target.eeprom == old(target.eeprom) && SameDevice(old(target), target)
      ensures waits == old(waits) + if pollmode == 0 then []
                                    else if data == 0x7F then [Paused(15, target.busy == 0)]
                                    else [Polled(0x7F, status == 0)]
      ensures waits != old(waits) && waits[|waits| - 1].Served(target.blank) ==> target.busy == 0
      ensures pollmode == 0 || data == 0x7F ==> status == 0
      ensures old(Kept()) && (pollmode == 0 ==> target.flash.page > 0) ==> Kept()
    {
      hide AllServed, Link.Do;
      SendFlash(a, data);
      WriteThenRead(old(State()), a, data);
      status := 0;
      if pollmode != 0 {
        if data == 0x7F {
          ClockWait(15);
        } else {
          ghost var looks, slices;
          status, looks, slices := Poll(a, 0x7F);
        }
        AllServedSnoc(target.blank, old(waits), waits[|waits| - 1]);
      }
    }

    /** The buffered page is programmed and waited for, by polling unless the last byte is the value that cannot be
        told. */
    method FlushPage(a: nat, pollvalue: byte) returns (status: byte)
      requires Ready()
      modifies this
      ensures Ready() && State() == old(State()).Do(Flush(a))
      ensures target.eeprom == old(target.eeprom) && SameDevice(old(target), target)
      ensures waits == old(waits) + if pollvalue == 0xFF then [Paused(15, target.busy == 0)]
                                    else [Polled(0xFF, status == 0)]
      ensures waits[|waits| - 1].Served(target.blank) ==> target.busy == 0
      ensures pollvalue == 0xFF ==> status == 0
      ensures old(Kept()) ==> Kept()
    {
      hide AllServed;
      UpdateExtended(a);
      var _ := Instruct(0x4C, Hi(a), Lo(a), 0);
      status := 0;
      if pollvalue == 0xFF {
        ClockWait(15);
      } else {
        ghost var looks, slices;
        status, looks, slices := Poll(a, 0xFF);
      }
      AllServedSnoc(target.blank, old(waits), waits[|waits| - 1]);
    }

    method ReadEEPROM(a: nat) returns (b: byte)
      requires Ready()
      modifies this`target
      ensures Ready() && State() == old(State()) && target.eeprom == old(target.eeprom)
      ensures old(target.busy) == 0 ==> b == target.eeprom.cell(a % 0x1_0000)
    {
      JoinWord(a);
      b := Instruct(0xA0, High(a), Low(a), 0);
    }

    method WriteEEPROM(a: nat, data: byte)
      requires Ready()
      modifies this`target, this`waits
      ensures Ready() && State() == old(State()) && SameDevice(old(target), target)
      ensures target.eeprom == old(target.eeprom).Direct(a % 0x1_0000, data)
      ensures waits == old(waits) + [Paused(30, target.busy == 0)]
      ensures old(Kept()) ==> Kept()
    {
      hide AllServed;
      JoinWord(a);
      var _ := Instruct(0xC0, High(a), Low(a), data);
      ClockWait(30);
      AllServedSnoc(target.blank, old(waits), waits[|waits| - 1]);
    }
  }
}
