/** The device side of the TPI: instruction decoder, post-incrementing pointer, and a flash memory written in words.
    Encodings are those of XPROGTarget.h. */
module TpiTarget {
  import opened Bytes
  import opened AvrTarget

  datatype Instr =
    | Sld(step: bool)
    | Sst(step: bool)
    | Sstpr(high: bool)
    | Sin(port: nat)
    | Sout(port: nat)
    | Sldcs(reg: nat)
    | Sstcs(reg: nat)
    | Skey
    | Undefined

  predicate Proper(i: Instr) {
    match i
    case Sin(a) => a < 0x40
    case Sout(a) => a < 0x40
    case Sldcs(r) => r < 0x10
    case Sstcs(r) => r < 0x10
    case Undefined => false
    case _ => true
  }

  /** The upper two of six address bits go one place to the left of where they belong, around the opcode bit. */
  function Spread(port: nat): nat
    requires port < 0x40
  {
    (port / 0x10) * 0x20 + port % 0x10
  }

  /** The TPI_CMD macros. */
  function Encode(i: Instr): byte
    requires Proper(i)
  {
    match i
    case Sld(step) => if step then 0x24 else 0x20
    case Sst(step) => if step then 0x64 else 0x60
    case Sstpr(high) => if high then 0x69 else 0x68
    case Sin(a) => 0x10 + Spread(a)
    case Sout(a) => 0x90 + Spread(a)
    case Sldcs(r) => 0x80 + r
    case Sstcs(r) => 0xC0 + r
    case Skey => 0xE0
  }

  /** The device's decoder: bit 4 marks the port instructions, whose address is gathered around it. */
  function Decode(b: byte): Instr {
    if Has(b, 0x10) then
      var port := ((b / 0x20) % 4) * 0x10 + b % 0x10;
      if b >= 0x80 then Sout(port) else Sin(port)
    else if b == 0x20 || b == 0x24 then Sld(b == 0x24)
    else if b == 0x60 || b == 0x64 then Sst(b == 0x64)
    else if b == 0x68 || b == 0x69 then Sstpr(b == 0x69)
    else if 0x80 <= b < 0x90 then Sldcs(b - 0x80)
    else if 0xC0 <= b < 0xD0 then Sstcs(b - 0xC0)
    else if b == 0xE0 then Skey
    else Undefined
  }

  lemma PortFields(hi: nat, lo: nat, write: bool)
    requires hi < 4 && lo < 0x10
    ensures var b := (if write then 0x90 else 0x10) + hi * 0x20 + lo;
            Has(b, 0x10) && (b / 0x20) % 4 == hi && b % 0x10 == lo
  {
  }

  lemma RegisterFields(r: nat)
    requires r < 0x10
    ensures !Has(0x80 + r, 0x10) && !Has(0xC0 + r, 0x10) && !Has(0xE0, 0x10)
  {
  }

  /** Every instruction the macros produce is understood as that instruction, whatever the port address. */
  lemma Decodes(i: Instr)
    requires Proper(i)
    ensures Decode(Encode(i)) == i
  {
    match i
    case Sin(a) => PortFields(a / 0x10, a % 0x10, false);
    case Sout(a) => PortFields(a / 0x10, a % 0x10, true);
    case Sldcs(r) => RegisterFields(r);
    case Sstcs(r) => RegisterFields(r);
    case Skey => RegisterFields(0);
    case _ =>
  }

  /** ... and no two of them share an encoding: a port instruction is never taken for another. */
  lemma Unambiguous(i: Instr, j: Instr)
    requires Proper(i) && Proper(j)
    ensures Encode(i) == Encode(j) <==> i == j
  {
    Decodes(i);
    Decodes(j);
  }

  datatype Phase =
    | Ready
    | Taking(i: Instr)
    | Answering(i: Instr)
    | Lost

  const CMD_WORDWRITE: byte := 0x1D

  /** The device. The low byte of a word waits in `low` until the high byte is written. `early` records memory work
      given to the controller while it was busy. */
  datatype Tpi = Tpi(phase: Phase, pointer: nat, cmd: byte, low: byte, nvm: Store,
                     cmdPort: nat, csrPort: nat, busy: nat, writes: nat, latency: nat -> nat, early: bool) {

    function Elapsed(n: nat): Tpi {
      this.(busy := if busy > n then busy - n else 0)
    }

    function Noted(): Tpi {
      this.(early := early || busy > 0)
    }

    /** A byte written through the pointer. */
    function WriteAt(a: nat, v: byte): Tpi {
      if cmd != CMD_WORDWRITE then Noted()
      else if a % 2 == 0 then Noted().(low := v)
      else Noted().(nvm := nvm.PutAll(a - 1, [low, v]), busy := latency(writes), writes := writes + 1)
    }

    function Stepped(step: bool): Tpi {
      if step then this.(pointer := (pointer + 1) % 0x1_0000) else this
    }

    function Complete(i: Instr, b: byte): Tpi {
      match i
      case Sst(step) => this.(phase := Ready).WriteAt(pointer, b).Stepped(step)
      case Sstpr(high) =>
        this.(phase := Ready, pointer := if high then Join(b, pointer % 0x100) else Join((pointer / 0x100) % 0x100, b))
      case Sout(port) => if port == cmdPort then this.(phase := Ready).Noted().(cmd := b) else this.(phase := Ready)
      case _ => this.(phase := Ready)
    }

    function Begin(i: Instr): Tpi {
      match i
      case Sld(_) => this.(phase := Answering(i))
      case Sin(_) => this.(phase := Answering(i))
      case Sldcs(_) => this.(phase := Answering(i))
      case Undefined => this.(phase := Lost)
      case _ => this.(phase := Taking(i))
    }

    /** One byte from the programmer to the device. */
    function Shift(b: byte): Tpi {
      var t := Elapsed(1);
      match phase
      case Ready => t.Begin(Decode(b))
      case Taking(i) => t.Complete(i, b)
      case _ => t.(phase := Lost)
    }

    /** One byte from the device to the programmer. */
    function Answer(): byte
      requires phase.Answering?
    {
      match phase.i
      case Sld(_) => nvm.cell(pointer)
      case Sin(port) => if port == csrPort && Elapsed(1).busy > 0 then 0x80 else 0x00
      case _ => 0x02
    }

    function Emit(): Tpi
      requires phase.Answering?
    {
      var t := Elapsed(1).(phase := Ready);
      if phase.i.Sld? then t.Noted().Stepped(phase.i.step) else t
    }
  }
}
