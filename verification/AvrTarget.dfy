/** The device on the other end of the SPI wire: an AVR in serial programming mode. Every four bytes are one
    instruction; the extended address register supplies address bits 16 to 23 of the word address. */
module AvrTarget {
  import opened Bytes
  import opened Pages

  datatype Slot = Empty | Loaded(v: byte)

  /** A programmable memory. `page == 0` means that writes take effect at once, otherwise they are collected
      in `buffer` (by offset within the page) until the page is committed. */
  datatype Store = Store(cell: nat -> byte, buffer: nat -> Slot, page: nat, autoErase: bool) {

    /** What programming `v` leaves in a cell holding `was`: flash can only clear bits. */
    function Burnt(was: byte, v: byte): byte {
      if autoErase then v else And(was, v)
    }

    function Written(a: nat, v: byte, c: nat): byte {
      if c == a then Burnt(cell(a), v) else cell(c)
    }

    function Direct(a: nat, v: byte): Store {
      this.(cell := (c: nat) => Written(a, v, c))
    }

    function Buffered(o: nat, v: byte): Store {
      this.(buffer := (c: nat) => if c == o then Loaded(v) else buffer(c))
    }

    function Put(a: nat, v: byte): Store {
      if page == 0 then Direct(a, v) else Buffered(Offset(a, page), v)
    }

    /** `data` put at consecutive addresses from `a`. */
    function PutAll(a: nat, data: seq<byte>): Store {
      if data == [] then this
      else PutAll(a, data[..|data| - 1]).Put(a + |data| - 1, data[|data| - 1])
    }

    /** The cell `c` after the buffer is programmed into the page starting at `base`. */
    function Merged(base: nat, c: nat): byte {
      if base <= c < base + page && buffer(c - base).Loaded? then Burnt(cell(c), buffer(c - base).v) else cell(c)
    }

    /** Program the buffered bytes into the page that holds `a`, and empty the buffer. */
    function Commit(a: nat): Store {
      if page == 0 then this else CommitPage(Base(a, page))
    }

    function CommitPage(base: nat): Store {
      this.(cell := (c: nat) => Merged(base, c), buffer := (o: nat) => Empty)
    }

    ghost predicate Clean() {
      forall o: nat :: buffer(o).Empty?
    }
  }

  lemma {:induction false} PutAllFrame(s: Store, a: nat, data: seq<byte>)
    ensures s.PutAll(a, data).page == s.page && s.PutAll(a, data).autoErase == s.autoErase
    ensures s.page > 0 ==> s.PutAll(a, data).cell == s.cell
  {
    if data != [] {
      PutAllFrame(s, a, data[..|data| - 1]);
    }
  }

  /** Putting a block in two parts is putting it whole. */
  lemma {:induction false} PutAllAppend(s: Store, a: nat, x: seq<byte>, y: seq<byte>)
    ensures s.PutAll(a, x).PutAll(a + |x|, y) == s.PutAll(a, x + y)
    decreases |y|
  {
    if y == [] {
      assert x + y == x;
    } else {
      var z := y[..|y| - 1];
      PutAllAppend(s, a, x, z);
      assert (x + y)[..|x + y| - 1] == x + z;
    }
  }

  /** The buffer after loading a block that does not leave its page. */
  lemma {:induction false} PutAllBuffer(s: Store, a: nat, data: seq<byte>, o: nat)
    requires s.page > 0 && Offset(a, s.page) + |data| <= s.page
    ensures var r := Offset(a, s.page);
            s.PutAll(a, data).buffer(o) == if r <= o < r + |data| then Loaded(data[o - r]) else s.buffer(o)
  {
    if data != [] {
      var n := |data| - 1;
      PutAllBuffer(s, a, data[..n], o);
      PutAllFrame(s, a, data[..n]);
      SamePage(a, a + n, s.page);
    }
  }

  /** A device with no page buffer holds a block as soon as it is written. */
  lemma {:induction false} PutAllDirect(s: Store, a: nat, data: seq<byte>, c: nat)
    requires s.page == 0
    ensures s.PutAll(a, data).cell(c) ==
            if a <= c < a + |data| then s.Burnt(s.cell(c), data[c - a]) else s.cell(c)
  {
    if data != [] {
      PutAllDirect(s, a, data[..|data| - 1], c);
      PutAllFrame(s, a, data[..|data| - 1]);
    }
  }

  /** Loading a block within one page and committing it programs exactly the cells of the block. */
  lemma CommittedBlock(s: Store, a: nat, data: seq<byte>, c: nat)
    requires s.page > 0 && s.Clean() && Offset(a, s.page) + |data| <= s.page
    ensures s.PutAll(a, data).Commit(a).cell(c) ==
            if a <= c < a + |data| then s.Burnt(s.cell(c), data[c - a]) else s.cell(c)
  {
    hide Store.PutAll, Base, And;
    var base := Base(a, s.page);
    PutAllFrame(s, a, data);
    if base <= c < base + s.page {
      PutAllBuffer(s, a, data, c - base);
    }
  }

  /** An erased page holds the block afterwards, and nothing else has changed. */
  lemma ErasedBlock(s: Store, a: nat, data: seq<byte>)
    requires s.page > 0 && s.Clean() && !s.autoErase && Offset(a, s.page) + |data| <= s.page
    requires forall c | a <= c < a + |data| :: s.cell(c) == 0xFF
    ensures var t := s.PutAll(a, data).Commit(a);
            && t.Clean()
            && forall c: nat :: t.cell(c) == if a <= c < a + |data| then data[c - a] else s.cell(c)
  {
    hide Store.PutAll, And, Base, Store.Merged;
    PutAllFrame(s, a, data);
    forall c: nat
      ensures s.PutAll(a, data).Commit(a).cell(c) == if a <= c < a + |data| then data[c - a] else s.cell(c)
    {
      CommittedBlock(s, a, data, c);
      if a <= c < a + |data| {
        AndErased(data[c - a]);
      }
    }
  }

  /** The device. `latency` gives the duration of each self-timed write, counted in byte times on the wire, and
      `blank` is what a busy device answers to a memory read. `early` records a write or commit given to a busy
      device, `enabled` that programming has been enabled since the last reset. */
  datatype Avr = Avr(ext: byte, flash: Store, eeprom: Store, frame: seq<byte>,
                     busy: nat, writes: nat, latency: nat -> nat, blank: byte, early: bool,
                     enabled: bool) {

    function FlashAddress(a16: nat): nat {
      2 * (ext * 0x1_0000 + a16)
    }

    function Started(): Avr {
      this.(busy := latency(writes), writes := writes + 1)
    }

    /** A reset loses the register, the instruction the device was in, and programming mode. */
    function Reset(): Avr {
      this.(ext := 0, frame := [], enabled := false)
    }

    function Noted(): Avr {
      this.(early := early || busy > 0)
    }

    /** One complete instruction. */
    function Exec(op: byte, hi: byte, lo: byte, arg: byte): Avr {
      var a16 := Join(hi, lo);
      match op
      case 0x4D => this.(ext := lo)
      case 0xAC => if hi == 0x53 then this.(enabled := true) else this
      case 0x40 => WriteFlash(FlashAddress(a16), arg)
      case 0x48 => WriteFlash(FlashAddress(a16) + 1, arg)
      case 0x4C => Noted().(flash := flash.Commit(FlashAddress(a16))).Started()
      case 0xC0 => Noted().(eeprom := eeprom.Direct(a16, arg)).Started()
      case 0xC1 => if eeprom.page == 0 then this else Noted().(eeprom := eeprom.Put(a16, arg))
      case 0xC2 => Noted().(eeprom := eeprom.Commit(a16)).Started()
      case _ => this
    }

    function WriteFlash(a: nat, v: byte): Avr {
      var t := Noted().(flash := flash.Put(a, v));
      if flash.page == 0 then t.Started() else t
    }

    /** The byte shifted out while the next byte is shifted in: the operand of a read, else an echo. */
    function Reply(): byte {
      if |frame| == 3 then
        var a16 := Join(frame[1], frame[2]);
        match frame[0]
        case 0x20 => if busy > 0 then blank else flash.cell(FlashAddress(a16))
        case 0x28 => if busy > 0 then blank else flash.cell(FlashAddress(a16) + 1)
        case 0xA0 => if busy > 0 then blank else eeprom.cell(a16)
        case 0xF0 => if busy > 0 then 1 else 0
        case _ => frame[2]
      else if frame == [] then 0 else frame[|frame| - 1]
    }

    function Elapsed(n: nat): Avr {
      this.(busy := if busy > n then busy - n else 0)
    }

    /** One byte time on the wire. */
    function Shift(b: byte): Avr {
      if |frame| == 3
      then Elapsed(1).(frame := []).Exec(frame[0], frame[1], frame[2], b)
      else Elapsed(1).(frame := frame + [b])
    }
  }

  /** A device that is ready, and to which nothing has been written while it was not. */
  predicate Quiet(t: Avr) {
    t.busy == 0 && !t.early
  }

  /** `b` is `a` some time later, with nothing written. */
  ghost predicate Settled(a: Avr, b: Avr) {
    b == a.(busy := b.busy) && b.busy <= a.busy
  }

  /** What no instruction changes. */
  ghost predicate SameDevice(a: Avr, b: Avr) {
    && b.blank == a.blank && b.latency == a.latency
    && b.flash.page == a.flash.page && b.eeprom.page == a.eeprom.page
  }

  /** Four bytes from an instruction boundary execute one instruction. */
  lemma Instruction(t: Avr, op: byte, hi: byte, lo: byte, arg: byte)
    requires t.frame == []
    ensures t.Shift(op).Shift(hi).Shift(lo).Shift(arg) == t.Elapsed(4).Exec(op, hi, lo, arg)
    ensures t.Shift(op).Shift(hi).Shift(lo) == t.Elapsed(3).(frame := [op, hi, lo])
  {
    hide Avr.Exec;
    assert t.Shift(op).frame == [op];
    assert t.Shift(op).Shift(hi).frame == [op, hi];
    assert t.Shift(op).Shift(hi).Shift(lo).frame == [op, hi, lo];
  }

  /** The device after a stream of bytes, and the bytes it shifted out meanwhile. */
  function ShiftAll(t: Avr, mosi: seq<byte>): Avr {
    if mosi == [] then t else ShiftAll(t, mosi[..|mosi| - 1]).Shift(mosi[|mosi| - 1])
  }

  function Miso(t: Avr, mosi: seq<byte>): (r: seq<byte>)
    ensures |r| == |mosi|
  {
    if mosi == [] then [] else Miso(t, mosi[..|mosi| - 1]) + [ShiftAll(t, mosi[..|mosi| - 1]).Reply()]
  }

  lemma ShiftSnoc(t: Avr, mosi: seq<byte>, b: byte)
    ensures ShiftAll(t, mosi + [b]) == ShiftAll(t, mosi).Shift(b)
    ensures Miso(t, mosi + [b]) == Miso(t, mosi) + [ShiftAll(t, mosi).Reply()]
  {
    assert (mosi + [b])[..|mosi|] == mosi;
  }
}
