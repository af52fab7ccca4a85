/** The device side of the PDI: instruction decoder, pointer and repeat registers, and the NVM controller behind
    them. Encodings are those of XPROGTarget.h. */
module PdiTarget {
  import opened Bytes
  import opened AvrTarget
  import opened Pages

  datatype Pointer = Indirect | PostIncrement | Direct

  /** Instructions. Size codes are one less than the number of bytes. */
  datatype Instr =
    | Lds(addressSize: nat, dataSize: nat)
    | Ld(pointer: Pointer, dataSize: nat)
    | Sts(addressSize: nat, dataSize: nat)
    | St(pointer: Pointer, dataSize: nat)
    | Ldcs(reg: nat)
    | Repeat(dataSize: nat)
    | Stcs(reg: nat)
    | Key
    | Undefined

  const BYTE: nat := 0
  const LONG: nat := 3

  function PointerCode(p: Pointer): nat {
    match p
    case Indirect => 0
    case PostIncrement => 1
    case Direct => 2
  }

  /** The instructions the PDI_CMD macros can express. */
  predicate Proper(i: Instr) {
    match i
    case Lds(a, d) => a < 4 && d < 4
    case Ld(_, d) => d < 4
    case Sts(a, d) => a < 4 && d < 4
    case St(_, d) => d < 4
    case Ldcs(r) => r < 0x10
    case Repeat(d) => d < 4
    case Stcs(r) => r < 0x10
    case Key => true
    case Undefined => false
  }

  /** The PDI_CMD macros. */
  function Encode(i: Instr): byte
    requires Proper(i)
  {
    match i
    case Lds(a, d) => 4 * a + d
    case Ld(p, d) => 0x20 + 4 * PointerCode(p) + d
    case Sts(a, d) => 0x40 + 4 * a + d
    case St(p, d) => 0x60 + 4 * PointerCode(p) + d
    case Ldcs(r) => 0x80 + r
    case Repeat(d) => 0xA0 + d
    case Stcs(r) => 0xC0 + r
    case Key => 0xE0
  }

  /** The device's decoder: the upper three bits select the instruction. */
  function Decode(b: byte): Instr {
    var op, hi, lo := b / 0x20, (b / 4) % 8, b % 4;
    if op == 0 && hi < 4 then Lds(hi, lo)
    else if op == 1 && hi < 3 then Ld(Access(hi), lo)
    else if op == 2 && hi < 4 then Sts(hi, lo)
    else if op == 3 && hi < 3 then St(Access(hi), lo)
    else if op == 4 && b % 0x20 < 0x10 then Ldcs(b % 0x20)
    else if op == 5 && b % 0x20 < 4 then Repeat(lo)
    else if op == 6 && b % 0x20 < 0x10 then Stcs(b % 0x20)
    else if b == 0xE0 then Key
    else Undefined
  }

  function Access(code: nat): Pointer {
    if code == 0 then Indirect else if code == 1 then PostIncrement else Direct
  }

  lemma Fields(op: nat, hi: nat, lo: nat)
    requires hi < 8 && lo < 4
    ensures var b := 0x20 * op + 4 * hi + lo;
            b / 0x20 == op && (b / 4) % 8 == hi && b % 4 == lo && b % 0x20 == 4 * hi + lo
  {
  }

  /** Every instruction the macros produce is understood as that instruction. */
  lemma Decodes(i: Instr)
    requires Proper(i)
    ensures Decode(Encode(i)) == i
  {
    match i
    case Lds(a, d) => Fields(0, a, d);
    case Ld(p, d) => Fields(1, PointerCode(p), d);
    case Sts(a, d) => Fields(2, a, d);
    case St(p, d) => Fields(3, PointerCode(p), d);
    case Ldcs(r) => Fields(4, r / 4, r % 4);
    case Repeat(d) => Fields(5, 0, d);
    case Stcs(r) => Fields(6, r / 4, r % 4);
    case Key =>
  }

  /** ... and no two of them share an encoding. */
  lemma Unambiguous(i: Instr, j: Instr)
    requires Proper(i) && Proper(j)
    ensures Encode(i) == Encode(j) <==> i == j
  {
    Decodes(i);
    Decodes(j);
  }

  /** Argument bytes an instruction takes before it acts. */
  function Arguments(i: Instr): nat {
    match i
    case Lds(a, _) => a + 1
    case Sts(a, d) => a + d + 2
    case St(_, d) => d + 1
    case Repeat(d) => d + 1
    case Stcs(_) => 1
    case Key => 8
    case _ => 0
  }

  /** Four bytes, least significant first. */
  function Value(b0: byte, b1: byte, b2: byte, b3: byte): nat {
    b0 + 0x100 * (b1 as nat) + 0x1_0000 * (b2 as nat) + 0x100_0000 * (b3 as nat)
  }

  lemma Twice(a: nat)
    ensures a / 0x1_0000 == (a / 0x100) / 0x100
  {
  }

  lemma Thrice(a: nat)
    ensures a / 0x100_0000 == (a / 0x1_0000) / 0x100
  {
  }

  /** The four bytes of XMEGANVM_SendAddress make up the address again. */
  lemma AddressValue(a: long)
    ensures Value(a % 0x100, (a / 0x100) % 0x100, (a / 0x1_0000) % 0x100, (a / 0x100_0000) % 0x100) == a
  {
    Twice(a);
    Thrice(a);
    var q, r, s := a / 0x100, a / 0x1_0000, a / 0x100_0000;
    assert a == 0x100 * q + a % 0x100;
    assert q == 0x100 * r + q % 0x100;
    assert r == 0x100 * s + r % 0x100;
    assert s % 0x100 == s;
  }

  function ValueOf(got: seq<byte>): nat
    requires |got| >= 4
  {
    Value(got[0], got[1], got[2], got[3])
  }

  datatype Source = AtPointer(step: bool) | AtAddress(a: nat) | OfRegister(reg: nat)

  /** Where the device is in the byte stream. `Lost` is a stream it cannot make sense of. */
  datatype Phase =
    | Ready
    | Taking(i: Instr, got: seq<byte>)
    | Storing(left: nat, step: bool)
    | Answering(left: nat, from: Source)
    | Lost

  const REG_CMD: nat := 0x0A
  const REG_CTRLA: nat := 0x0B
  const REG_STATUS: nat := 0x0F

  const CMD_READNVM: byte := 0x43
  const CMD_CHIPERASE: byte := 0x40
  const CMD_ERASEEEPROM: byte := 0x30

  predicate LoadsBuffer(cmd: byte) { cmd in {0x23, 0x33} }
  predicate ErasesBuffer(cmd: byte) { cmd in {0x26, 0x36} }
  predicate WritesPage(cmd: byte) { cmd in {0x2E, 0x24, 0x2C, 0x1A} }
  predicate RewritesPage(cmd: byte) { cmd == 0x35 }
  predicate ErasesPage(cmd: byte) { cmd in {0x22, 0x2A, 0x2B} }
  predicate ErasesSection(cmd: byte) { cmd in {0x18, 0x20, 0x32, 0x68} }
  predicate WritesByte(cmd: byte) { cmd in {0x4C, 0x08} }

  /** Erasing the whole device, or the flash page of an address. */
  function Blank(s: Store): Store {
    s.(cell := (c: nat) => 0xFF)
  }

  function PageErased(s: Store, a: nat): Store {
    if s.page == 0 then s
    else
      var base := Base(a, s.page);
      s.(cell := (c: nat) => if base <= c < base + s.page then 0xFF else s.cell(c))
  }

  /** Erasing the EEPROM: in every page, the bytes that are tagged in the page buffer. */
  function TagErased(s: Store): Store {
    if s.page == 0 then s
    else s.(cell := (c: nat) => if s.buffer(Offset(c, s.page)).Loaded? then 0xFF else s.cell(c),
            buffer := (o: nat) => Empty)
  }

  /** The device. `busy` counts the byte times until the NVM controller is ready, `early` records that it was given
      work before that, and `uses` the addresses of all accesses to memory other than the controller's registers.
      `blocks` tells whether the bus to the controller is off while it is busy.
      Which cells a section or user row has differs between devices, so orders to erase one are only recorded. */
  datatype Pdi = Pdi(base: nat, phase: Phase, pointer: nat, repeats: nat, cmd: byte, nvm: Store,
                     busy: nat, writes: nat, latency: nat -> nat, early: bool, uses: seq<nat>,
                     orders: seq<(byte, nat)>, blocks: bool) {

    function Elapsed(n: nat): Pdi {
      this.(busy := if busy > n then busy - n else 0)
    }

    function Started(): Pdi {
      this.(busy := latency(writes), writes := writes + 1)
    }

    function Noted(): Pdi {
      this.(early := early || busy > 0)
    }

    function Used(a: nat): Pdi {
      Noted().(uses := uses + [a])
    }

    function WriteAt(a: nat, v: byte): Pdi {
      if a == base + REG_CMD then Noted().(cmd := v)
      else if a == base + REG_CTRLA then if v % 2 == 1 then Noted().Execute() else this
      else if LoadsBuffer(cmd) then Used(a).(nvm := nvm.Put(a, v))
      else if WritesPage(cmd) then Used(a).(nvm := nvm.(autoErase := false).Commit(a)).Started()
      else if RewritesPage(cmd) then Used(a).(nvm := nvm.(autoErase := true).Commit(a)).Started()
      else if ErasesSection(cmd) then Used(a).(orders := orders + [(cmd, a)]).Started()
      else if ErasesPage(cmd) then Used(a).(nvm := PageErased(nvm, a)).Started()
      else if WritesByte(cmd) then Used(a).(nvm := nvm.(autoErase := true).Direct(a, v)).Started()
      else Used(a)
    }

    function Execute(): Pdi {
      if ErasesBuffer(cmd) then this.(nvm := nvm.(buffer := (o: nat) => Empty)).Started()
      else if cmd == CMD_CHIPERASE then this.(nvm := Blank(nvm)).Started()
      else if cmd == CMD_ERASEEEPROM then this.(nvm := TagErased(nvm)).Started()
      else Started()
    }

    /** The byte read from an address, and the state after reading it. */
    function Peek(a: nat): byte {
      if a == base + REG_STATUS then if busy > 0 then 0x80 else 0x00
      else if cmd == CMD_READNVM then nvm.cell(a) else 0x00
    }

    function ReadAt(a: nat): Pdi {
      if a == base + REG_STATUS then this else Used(a)
    }

    /** Bit 1 of register 0 says that the bus to the controller is on. */
    function BusStatus(reg: nat): byte {
      if reg == 0 && !(blocks && busy > 0) then 0x02 else 0x00
    }

    function Address(): nat
      requires phase.Answering?
    {
      match phase.from
      case AtPointer(_) => pointer
      case AtAddress(a) => a
      case OfRegister(_) => 0
    }

    /** One byte from the device to the programmer. */
    function Answer(): byte
      requires phase.Answering?
    {
      if phase.from.OfRegister? then Elapsed(1).BusStatus(phase.from.reg) else Elapsed(1).Peek(Address())
    }

    function Emit(): Pdi
      requires phase.Answering?
    {
      var t := Elapsed(1);
      var u := if phase.from.OfRegister? then t else t.ReadAt(Address());
      u.(phase := if phase.left > 1 then phase.(left := phase.left - 1) else Ready,
         pointer := if phase.from.AtPointer? && phase.from.step then pointer + 1 else pointer)
    }

    /** An instruction with all its arguments. */
    function Complete(i: Instr, got: seq<byte>): Pdi
      requires |got| == Arguments(i)
    {
      match i
      case Lds(3, 0) => this.(phase := Answering(1, AtAddress(ValueOf(got))))
      case Sts(3, 0) => this.(phase := Ready).WriteAt(ValueOf(got), got[4])
      case St(Direct, 3) => this.(phase := Ready, pointer := ValueOf(got))
      case Repeat(0) => this.(phase := Ready, repeats := got[0])
      case Stcs(_) => this.(phase := Ready)
      case Key => this.(phase := Ready)
      case _ => this.(phase := Lost)
    }

    function Begin(i: Instr): Pdi {
      match i
      case Ld(Indirect, 0) => this.(phase := Answering(repeats + 1, AtPointer(false)), repeats := 0)
      case Ld(PostIncrement, 0) => this.(phase := Answering(repeats + 1, AtPointer(true)), repeats := 0)
      case St(Indirect, 0) => this.(phase := Storing(repeats + 1, false), repeats := 0)
      case St(PostIncrement, 0) => this.(phase := Storing(repeats + 1, true), repeats := 0)
      case Ldcs(r) => this.(phase := Answering(1, OfRegister(r)))
      case Undefined => this.(phase := Lost)
      case Ld(_, _) => this.(phase := Lost)
      case _ => this.(phase := Taking(i, []))
    }

    /** One byte from the programmer to the device. */
    function Shift(b: byte): Pdi {
      var t := Elapsed(1);
      match phase
      case Ready => t.Begin(Decode(b))
      case Taking(i, got) =>
        if |got| + 1 == Arguments(i) then t.Complete(i, got + [b]) else t.(phase := Taking(i, got + [b]))
      case Storing(left, step) =>
        t.(phase := if left > 1 then Storing(left - 1, step) else Ready,
           pointer := if step then pointer + 1 else pointer).WriteAt(pointer, b)
      case _ => t.(phase := Lost)
    }
  }
}
