/** The XMEGA engine (XMEGANVM.c): memory operations compiled into PDI instructions, run against the device and a
    timeout interrupt. */
module XmegaNvm {
  import opened Bytes
  import opened Pages
  import opened Timeout
  import opened AvrTarget
  import opened PdiTarget

  const XPROG_PAGEMODE_ERASE: nat := 0x01
  const XPROG_PAGEMODE_WRITE: nat := 0x02
  const CTRLA_CMDEX: byte := 0x01

  /** The registers and commands as the engine knows them; the device has its own. */
  const XMEGA_NVM_REG_CMD: nat := 0x0A
  const XMEGA_NVM_REG_CTRLA: nat := 0x0B
  const XMEGA_NVM_REG_STATUS: nat := 0x0F
  const XMEGA_NVM_CMD_READNVM: byte := 0x43
  const XMEGA_NVM_CMD_CHIPERASE: byte := 0x40
  const XMEGA_NVM_CMD_ERASEEEPROM: byte := 0x30
  const XMEGA_NVM_CMD_LOADEEPROMPAGEBUFF: byte := 0x33
  const XMEGA_NVM_CMD_ERASEEEPROMPAGEBUFF: byte := 0x36

  const PDI_STATUS_NVM: nat := 0x02

  /** `b` is `a` some time later: nothing written, no memory used. */
  ghost predicate Later(a: Pdi, b: Pdi) {
    b == a.(busy := b.busy, phase := b.phase, pointer := b.pointer, repeats := b.repeats) && b.busy <= a.busy
  }

  /** ... and the device is waiting for an instruction, the controller having nothing to do. */
  ghost predicate Idle(a: Pdi, b: Pdi) {
    b == a.(busy := 0, pointer := b.pointer) && b.phase == Ready && b.repeats == 0
  }

  /** A controller that is never busy for longer. */
  ghost predicate Within(t: Pdi, limit: nat) {
    t.busy <= limit && forall k: nat :: t.latency(k) <= limit
  }

  /** Memory addresses that are not controller registers. */
  predicate Apart(base: nat, a: nat, n: nat) {
    a + n <= base || base + 0x20 <= a
  }

  lemma StoreSequence(t: Pdi, a: long, v: byte)
    requires t.phase == Ready
    ensures t.Shift(Encode(Sts(LONG, BYTE))).Shift(a % 0x100).Shift((a / 0x100) % 0x100)
             .Shift((a / 0x1_0000) % 0x100).Shift((a / 0x100_0000) % 0x100).Shift(v)
            == t.Elapsed(6).WriteAt(a, v)
  {
    hide Pdi.WriteAt, Value;
    Decodes(Sts(LONG, BYTE));
    AddressValue(a);
  }

  lemma PointerSequence(t: Pdi, a: long)
    requires t.phase == Ready
    ensures t.Shift(Encode(St(Direct, LONG))).Shift(a % 0x100).Shift((a / 0x100) % 0x100)
             .Shift((a / 0x1_0000) % 0x100).Shift((a / 0x100_0000) % 0x100)
            == t.Elapsed(5).(pointer := a)
  {
    hide Pdi.WriteAt, Value;
    Decodes(St(Direct, LONG));
    AddressValue(a);
  }

  lemma LoadSequence(t: Pdi, a: long)
    requires t.phase == Ready
    ensures t.Shift(Encode(Lds(LONG, BYTE))).Shift(a % 0x100).Shift((a / 0x100) % 0x100)
             .Shift((a / 0x1_0000) % 0x100).Shift((a / 0x100_0000) % 0x100)
            == t.Elapsed(5).(phase := Answering(1, AtAddress(a)))
  {
    hide Pdi.WriteAt, Value;
    Decodes(Lds(LONG, BYTE));
    AddressValue(a);
  }

  lemma RepeatSequence(t: Pdi, n: byte)
    requires t.phase == Ready
    ensures t.Shift(Encode(Repeat(BYTE))).Shift(n) == t.Elapsed(2).(repeats := n)
  {
    hide Pdi.WriteAt;
    Decodes(Repeat(BYTE));
  }

  lemma BeginSequence(t: Pdi, i: Instr)
    requires t.phase == Ready && Proper(i)
    ensures t.Shift(Encode(i)) == t.Elapsed(1).Begin(i)
  {
    Decodes(i);
  }

  /** The memory after the last part of a page write. */
  function Finished(s: Store, pageMode: byte, command: byte, a: nat): Store {
    if Has(pageMode, XPROG_PAGEMODE_WRITE) then s.(autoErase := RewritesPage(command)).Commit(a) else s
  }

  /** The addresses from `a` on. */
  function Span(a: nat, n: nat): (r: seq<nat>)
    ensures |r| == n
  {
    if n == 0 then [] else Span(a, n - 1) + [a + n - 1]
  }

  lemma NoData(s: Store, a: nat)
    ensures s.PutAll(a, []) == s && Span(a, 0) == []
  {
  }

  /** The device after `k` bytes of a repeated load. */
  function Reading(t: Pdi, supply: nat, k: nat): Pdi
    requires k <= supply
  {
    t.(phase := if k == supply then Ready else Answering(supply - k, AtPointer(true)),
       pointer := t.pointer + k, uses := t.uses + Span(t.pointer, k))
  }

  lemma ReadingFields(t: Pdi, supply: nat, k: nat)
    requires k <= supply
    ensures var u := Reading(t, supply, k);
            && u == t.(phase := u.phase, pointer := t.pointer + k, uses := t.uses + Span(t.pointer, k))
            && u.phase == (if k == supply then Ready else Answering(supply - k, AtPointer(true)))
    ensures t.phase == Answering(supply, AtPointer(true)) && k == 0 && supply > 0 ==> Reading(t, supply, 0) == t
  {
    NoData(t.nvm, t.pointer);
    assert t.uses + [] == t.uses;
  }

  lemma ReadingNext(t: Pdi, supply: nat, k: nat)
    requires k < supply && t.busy == 0 && t.cmd == CMD_READNVM && Apart(t.base, t.pointer + k, 1)
    ensures var u := Reading(t, supply, k);
            u.Answer() == t.nvm.cell(t.pointer + k) && u.Emit() == Reading(t, supply, k + 1)
  {
    assert t.uses + Span(t.pointer, k + 1) == t.uses + Span(t.pointer, k) + [t.pointer + k];
  }

  /** What a write orders an idle controller to do: at the control register ... */
  lemma Executed(t: Pdi)
    requires t.busy == 0
    ensures var u := t.WriteAt(t.base + REG_CTRLA, CTRLA_CMDEX);
            && u == t.(nvm := u.nvm, busy := t.latency(t.writes), writes := t.writes + 1)
            && (t.cmd == CMD_CHIPERASE ==> u.nvm == Blank(t.nvm))
  {
    hide TagErased, Blank;
  }

  /** ... and at an address. */
  lemma OrderedErase(t: Pdi, a: nat)
    requires t.busy == 0
    ensures var u := t.WriteAt(a, 0x00);
            && u.base == t.base && u.early == t.early && u.phase == t.phase
            && u.latency == t.latency && (u.busy == 0 || u.busy == t.latency(t.writes))
            && (Apart(t.base, a, 1) && ErasesPage(t.cmd) ==> u.nvm == PageErased(t.nvm, a))
            && (Apart(t.base, a, 1) && ErasesSection(t.cmd) ==>
                  u.nvm == t.nvm && u.orders == t.orders + [(t.cmd, a)])
  {
    hide Store.Put, Store.Commit, Store.Direct, PageErased, Pdi.Execute;
  }

  class XmegaEngine {
    var target: Pdi
    const timer: Timer
    const nvmBase: nat

    constructor (device: Pdi)
      ensures target == device && nvmBase == device.base && fresh(timer)
    {
      target, nvmBase := device, device.base;
      timer := new Timer([]);
    }

    ghost predicate Valid()
      reads this
    {
      nvmBase == target.base && nvmBase % 0x20 == 0 && nvmBase + 0x20 <= 0x1_0000_0000
    }

    method SendByte(b: byte)
      modifies this`target
      ensures target == old(target).Shift(b)
    {
      target := target.Shift(b);
    }

    /** Blocks until the device has sent a byte or the timeout has run out; in the latter case the result is whatever
        the receiver holds. */
    method ReceiveByte() returns (r: byte)
      modifies this`target, timer
      ensures timer.ticks <= old(timer.ticks)
      ensures timer.ticks > 0 && timer.ticks == old(timer.ticks)
              ==> timer.UntilTick() < old(timer.UntilTick())
      ensures timer.ticks > 0 ==>
                old(target).phase.Answering? && r == old(target).Answer() && target == old(target).Emit()
      ensures target == old(target) || (old(target).phase.Answering? && target == old(target).Emit())
      ensures old(target).phase.Answering? && old(timer.ticks) > 0 && old(timer.Rest()) > 0 ==>
                timer.ticks == old(timer.ticks) && timer.Rest() == old(timer.Rest()) - 1
    {
      var arrives: bool := *;
      if target.phase.Answering? && (arrives || (timer.ticks > 0 && timer.Rest() > 0)) {
        r := target.Answer();
        target := target.Emit();
        timer.Elapse();
      } else {
        r := *;
        timer.ticks := 0;
      }
    }

    /** STS of one byte. */
    method StoreByte(a: long, v: byte)
      requires target.phase == Ready
      modifies this`target
      ensures target == old(target).Elapsed(6).WriteAt(a, v)
    {
      StoreSequence(target, a, v);
      SendByte(Encode(Sts(LONG, BYTE)));
      SendByte(a % 0x100);
      SendByte((a / 0x100) % 0x100);
      SendByte((a / 0x1_0000) % 0x100);
      SendByte((a / 0x100_0000) % 0x100);
      SendByte(v);
    }

    /** ST to the pointer register. */
    method LoadPointer(a: long)
      requires target.phase == Ready
      modifies this`target
      ensures target == old(target).Elapsed(5).(pointer := a)
    {
      PointerSequence(target, a);
      SendByte(Encode(St(Direct, LONG)));
      SendByte(a % 0x100);
      SendByte((a / 0x100) % 0x100);
      SendByte((a / 0x1_0000) % 0x100);
      SendByte((a / 0x100_0000) % 0x100);
    }

    method SendRepeat(n: byte)
      requires target.phase == Ready
      modifies this`target
      ensures target == old(target).Elapsed(2).(repeats := n)
    {
      RepeatSequence(target, n);
      SendByte(Encode(Repeat(BYTE)));
      SendByte(n);
    }

    method WaitWhileNVMControllerBusy() returns (ready: bool)
      requires Valid() && target.phase == Ready && target.repeats == 0
      modifies this`target, timer
      ensures Later(old(target), target)
      ensures ready ==> Idle(old(target), target)
      ensures ready <==> timer.ticks > 0
      ensures old(timer.ticks) > 0 && old(timer.Rest()) > old(target).busy ==>
                ready && timer.Rest() >= old(timer.Rest()) - old(target).busy - 1
    {
      hide Pdi.WriteAt, Decode, Calm;
      LoadPointer(nvmBase + XMEGA_NVM_REG_STATUS);
      ghost var polls := 0;
      while true
        invariant Later(old(target), target)
        invariant old(timer.ticks) > 0 && old(timer.Rest()) > old(target).busy ==>
                    && timer.ticks == old(timer.ticks) && timer.Rest() + polls == old(timer.Rest())
                    && polls + target.busy <= old(target).busy
        invariant target.phase == Ready && target.repeats == 0 && target.pointer == nvmBase + XMEGA_NVM_REG_STATUS
        decreases timer.ticks, timer.UntilTick()
      {
        BeginSequence(target, Ld(Indirect, BYTE));
        SendByte(Encode(Ld(Indirect, BYTE)));
        var statusRegister := ReceiveByte();
        if timer.ticks == 0 {
          return false;
        }
        if statusRegister < 0x80 {
          return true;
        }
        polls := polls + 1;
      }
    }

    /** Wait until the controller is idle, then give it a command. */
    method Command(command: byte) returns (ready: bool)
      requires Valid() && target.phase == Ready && target.repeats == 0
      modifies this`target, timer
      ensures !ready ==> Later(old(target), target)
      ensures ready ==> Idle(old(target).(cmd := command), target)
      ensures ready <==> timer.ticks > 0
      ensures old(timer.ticks) > 0 && old(timer.Rest()) > old(target).busy ==>
                ready && timer.Rest() >= old(timer.Rest()) - old(target).busy - 1
    {
      ready := WaitWhileNVMControllerBusy();
      if ready {
        StoreByte(nvmBase + XMEGA_NVM_REG_CMD, command);
      }
    }

    method WriteByteMemory(writeCommand: byte, writeAddress: long, b: byte) returns (ok: bool)
      requires Valid() && target.phase == Ready && target.repeats == 0
      requires WritesByte(writeCommand) && Apart(nvmBase, writeAddress, 1)
      modifies this`target, timer
      ensures !ok ==> target.nvm == old(target).nvm && target.early == old(target).early
      ensures !ok ==> target.uses == old(target).uses
      ensures ok ==>
                && target.phase == Ready && target.early == old(target).early
                && target.nvm == old(target).nvm.(autoErase := true).Direct(writeAddress, b)
                && target.uses == old(target).uses + [writeAddress]
      ensures ok <==> timer.ticks > 0
      ensures old(timer.ticks) > 0 && old(timer.Rest()) > old(target).busy ==> ok
    {
      ok := Command(writeCommand);
      if ok {
        StoreByte(writeAddress, b);
      }
    }

    /** The data bytes of an ST that was repeated once for each of them. */
    method SendData(data: seq<byte>)
      requires data != [] && target.phase == Storing(|data|, true) && target.busy == 0
      requires LoadsBuffer(target.cmd) && Apart(target.base, target.pointer, |data|)
      modifies this`target
      ensures target == old(target).(phase := Ready, pointer := old(target).pointer + |data|,
                                     nvm := old(target).nvm.PutAll(old(target).pointer, data),
                                     uses := old(target).uses + Span(old(target).pointer, |data|))
    {
      hide Decode, Pdi.Begin, Pdi.Complete, Store.Put;
      ghost var t := target;
      var i := 0;
      while i < |data|
        invariant i <= |data|
        invariant target == t.(phase := if i == |data| then Ready else Storing(|data| - i, true),
                               pointer := t.pointer + i, nvm := t.nvm.PutAll(t.pointer, data[..i]),
                               uses := t.uses + Span(t.pointer, i))
      {
        assert data[..i + 1][..i] == data[..i];
        SendByte(data[i]);
        assert t.uses + Span(t.pointer, i + 1) == t.uses + Span(t.pointer, i) + [t.pointer + i];
        i := i + 1;
      }
      assert data[..i] == data;
    }

    /** Page write, part one: clear the device's page buffer. */
    method EraseBuffer(eraseBuffCommand: byte, ghost limit: nat) returns (ok: bool)
      requires Valid() && target.phase == Ready && target.repeats == 0 && ErasesBuffer(eraseBuffCommand)
      modifies this`target, timer
      ensures Valid() && target.early == old(target).early && target.uses == old(target).uses
      ensures ok ==> target.phase == Ready && target.repeats == 0
      ensures target.nvm == if ok then old(target).nvm.(buffer := target.nvm.buffer) else old(target).nvm
      ensures ok ==> target.nvm.Clean()
      ensures ok <==> timer.ticks > 0
      ensures old(timer.ticks) > 0 && old(timer.Rest()) > limit && Within(old(target), limit) ==>
                ok && timer.Rest() >= old(timer.Rest()) - limit - 1 && Within(target, limit)
    {
      ok := Command(eraseBuffCommand);
      if ok {
        StoreByte(nvmBase + XMEGA_NVM_REG_CTRLA, CTRLA_CMDEX);
      }
    }

    /** Part two: load the data into the page buffer. */
    method FillBuffer(writeBuffCommand: byte, writeAddress: long, writeBuffer: seq<byte>, ghost limit: nat)
      returns (ok: bool)
      requires Valid() && target.phase == Ready && target.repeats == 0 && LoadsBuffer(writeBuffCommand)
      requires 1 <= |writeBuffer| <= 256 && Apart(nvmBase, writeAddress, |writeBuffer|)
      modifies this`target, timer
      ensures Valid() && target.early == old(target).early
      ensures ok ==> target.phase == Ready && target.repeats == 0 && target.busy == 0
      ensures target.nvm == if ok then old(target).nvm.PutAll(writeAddress, writeBuffer) else old(target).nvm
      ensures target.uses == if ok then old(target).uses + Span(writeAddress, |writeBuffer|) else old(target).uses
      ensures ok <==> timer.ticks > 0
      ensures old(timer.ticks) > 0 && old(timer.Rest()) > limit && Within(old(target), limit) ==>
                ok && timer.Rest() >= old(timer.Rest()) - limit - 1 && Within(target, limit)
    {
      hide Pdi.WriteAt, Decode, Store.PutAll, Span;
      ok := Command(writeBuffCommand);
      if ok {
        LoadPointer(writeAddress);
        SendRepeat(|writeBuffer| - 1);
        BeginSequence(target, St(PostIncrement, BYTE));
        SendByte(Encode(St(PostIncrement, BYTE)));
        SendData(writeBuffer);
      }
    }

    /** Part three: write the buffer to the page. */
    method CommitBuffer(writePageCommand: byte, writeAddress: long, ghost limit: nat) returns (ok: bool)
      requires Valid() && target.phase == Ready && target.repeats == 0
      requires WritesPage(writePageCommand) || RewritesPage(writePageCommand)
      requires Apart(nvmBase, writeAddress, 1)
      modifies this`target, timer
      ensures Valid() && target.early == old(target).early
      ensures ok ==> target.phase == Ready && target.repeats == 0
      ensures target.nvm ==
              if ok then old(target).nvm.(autoErase := RewritesPage(writePageCommand)).Commit(writeAddress)
              else old(target).nvm
      ensures target.uses == if ok then old(target).uses + [writeAddress] else old(target).uses
      ensures ok <==> timer.ticks > 0
      ensures old(timer.ticks) > 0 && old(timer.Rest()) > limit && Within(old(target), limit) ==> ok
    {
      hide Store.Commit;
      ok := Command(writePageCommand);
      if ok {
        StoreByte(writeAddress, 0x00);
      }
    }

    /** Returning true means that the device did what was asked, never before its controller was ready, and that
        every access through the pointer went to the requested addresses. A failure leaves the memory alone. */
    method WritePageMemory(writeBuffCommand: byte, eraseBuffCommand: byte, writePageCommand: byte, pageMode: byte,
                           writeAddress: long, writeBuffer: seq<byte>, ghost limit: nat) returns (ok: bool)
      requires Valid() && target.phase == Ready && target.repeats == 0
      requires LoadsBuffer(writeBuffCommand) && ErasesBuffer(eraseBuffCommand)
      requires WritesPage(writePageCommand) || RewritesPage(writePageCommand)
      requires |writeBuffer| <= 256 && Apart(nvmBase, writeAddress, |writeBuffer| + 1) && target.nvm.page > 0
      modifies this`target, timer
      ensures target.early == old(target).early
      ensures !ok ==> target.nvm.cell == old(target).nvm.cell
      ensures ok ==> target.phase == Ready
      ensures ok ==> exists s: Store ::
                && s == old(target).nvm.(buffer := s.buffer)
                && (if Has(pageMode, XPROG_PAGEMODE_ERASE) then s.Clean() else s == old(target).nvm)
                && target.nvm == Finished(s.PutAll(writeAddress, writeBuffer), pageMode, writePageCommand, writeAddress)
      ensures ok ==> target.uses == old(target).uses + Span(writeAddress, |writeBuffer|)
                                    + if Has(pageMode, XPROG_PAGEMODE_WRITE) then [writeAddress] else []
      ensures !ok ==> timer.ticks == 0
      ensures old(timer.ticks) > 0 && old(timer.Rest()) > 3 * limit + 3 && Within(old(target), limit) ==> ok
    {
      hide Has, Store.PutAll, Store.Commit, Span;
      ghost var s := target.nvm;
      if Has(pageMode, XPROG_PAGEMODE_ERASE) {
        ok := EraseBuffer(eraseBuffCommand, limit);
        if !ok {
          return;
        }
        s := target.nvm;
      }
      NoData(s, writeAddress);
      if |writeBuffer| > 0 {
        ok := FillBuffer(writeBuffCommand, writeAddress, writeBuffer, limit);
        if !ok {
          return;
        }
      }
      PutAllFrame(s, writeAddress, writeBuffer);
      if Has(pageMode, XPROG_PAGEMODE_WRITE) {
        ok := CommitBuffer(writePageCommand, writeAddress, limit);
        return;
      }
      ok := true;
    }

    /** The bytes of an LD that the device repeats `supply` times. */
    method ReceiveData(readSize: nat, ghost supply: nat) returns (readBuffer: seq<byte>)
      requires 1 <= supply && target.phase == Answering(supply, AtPointer(true)) && target.busy == 0
      requires target.cmd == CMD_READNVM && Apart(target.base, target.pointer, readSize)
      modifies this`target, timer
      ensures timer.ticks > 0 ==>
                && |readBuffer| == readSize <= supply
                && (forall k | 0 <= k < readSize :: readBuffer[k] == old(target).nvm.cell(old(target).pointer + k))
                && (readSize == supply ==> target.phase == Ready)
                && target.uses == old(target).uses + Span(old(target).pointer, readSize)
      ensures target == old(target).(phase := target.phase, pointer := target.pointer, uses := target.uses)
      ensures old(timer.ticks) > 0 && old(timer.Rest()) >= readSize && readSize <= supply ==> timer.ticks > 0
    {
      hide Decode, Pdi.Begin, Pdi.Complete, Calm, Pdi.Emit, Pdi.Answer, Reading, Span;
      ghost var t := target;
      ReadingFields(t, supply, 0);
      readBuffer := [];
      ghost var k := 0;
      while |readBuffer| < readSize && timer.ticks > 0
        invariant |readBuffer| <= readSize && k <= supply && k <= readSize && target == Reading(t, supply, k)
        invariant timer.ticks > 0 ==>
                    && k == |readBuffer|
                    && (forall j | 0 <= j < k :: readBuffer[j] == t.nvm.cell(t.pointer + j))
        invariant old(timer.ticks) > 0 && old(timer.Rest()) >= readSize && readSize <= supply ==>
                    timer.ticks > 0 && timer.Rest() + |readBuffer| == old(timer.Rest())
        decreases readSize - |readBuffer|
      {
        ReadingFields(t, supply, k);
        if k < supply {
          ReadingNext(t, supply, k);
          ReadingFields(t, supply, k + 1);
        }
        var r := ReceiveByte();
        if target.pointer == t.pointer + k + 1 {
          k := k + 1;
        }
        readBuffer := readBuffer + [r];
      }
      ReadingFields(t, supply, k);
    }

    /** Returning true means that the bytes are those of the device's memory. More than 256 bytes never succeed, since
        the repeat count is a byte; and a request for no bytes reads one. */
    method ReadMemory(readAddress: long, readSize: word) returns (ok: bool, readBuffer: seq<byte>)
      requires Valid() && target.phase == Ready && target.repeats == 0
      requires Apart(nvmBase, readAddress, readSize + 1)
      modifies this`target, timer
      ensures target.nvm == old(target).nvm && target.early == old(target).early
      ensures ok ==>
                && readSize <= 256 && target.phase == Ready
                && |readBuffer| == (if readSize == 0 then 1 else readSize)
                && (forall k | 0 <= k < |readBuffer| :: readBuffer[k] == target.nvm.cell(readAddress + k))
                && target.uses == old(target).uses + Span(readAddress, |readBuffer|)
      ensures ok <==> timer.ticks > 0
      ensures (old(timer.ticks) > 0 && readSize <= 256
               && old(timer.Rest()) > old(target).busy + 1 + readSize) ==> ok
    {
      hide Pdi.WriteAt, Decode;
      readBuffer := [];
      ok := Command(XMEGA_NVM_CMD_READNVM);
      if !ok {
        return;
      }
      if readSize > 1 {
        LoadPointer(readAddress);
        SendRepeat((readSize - 1) % 0x100);
        BeginSequence(target, Ld(PostIncrement, BYTE));
        SendByte(Encode(Ld(PostIncrement, BYTE)));
        readBuffer := ReceiveData(readSize, (readSize - 1) % 0x100 + 1);
      } else {
        readBuffer := ReceiveOne(readAddress);
      }
      ok := timer.ticks > 0;
    }

    /** Waits until the bus to the controller is enabled again. */
    method WaitWhileNVMBusBusy() returns (ready: bool)
      requires target.phase == Ready
      modifies this`target, timer
      ensures Later(old(target), target) && target.repeats == old(target).repeats
      ensures ready ==> target.phase == Ready && (target.blocks ==> target.busy == 0)
      ensures ready <==> timer.ticks > 0
      ensures old(timer.ticks) > 0 && old(timer.Rest()) > old(target).busy ==> ready
    {
      hide Pdi.WriteAt, Decode, Calm;
      ghost var polls := 0;
      while true
        invariant old(timer.ticks) > 0 && old(timer.Rest()) > old(target).busy ==>
                    && timer.ticks == old(timer.ticks) && timer.Rest() + polls == old(timer.Rest())
                    && polls + target.busy <= old(target).busy
        invariant Later(old(target), target) && target.repeats == old(target).repeats && target.phase == Ready
        decreases timer.ticks, timer.UntilTick()
      {
        BeginSequence(target, Ldcs(0));
        SendByte(Encode(Ldcs(0)));
        var statusRegister := ReceiveByte();
        if timer.ticks == 0 {
          return false;
        }
        if Has(statusRegister, PDI_STATUS_NVM) {
          return true;
        }
        polls := polls + 1;
      }
    }

    /** The EEPROM branch: every byte of a page is tagged in the buffer before the erase. */
    method EraseEeprom(address: long, eePageSize: byte, ghost limit: nat) returns (ok: bool)
      requires Valid() && target.phase == Ready && target.repeats == 0 && target.nvm.page > 0
      requires 0 < eePageSize && Apart(nvmBase, address, eePageSize)
      modifies this`target, timer
      ensures Valid() && target.early == old(target).early
      ensures !ok ==> target.nvm.cell == old(target).nvm.cell
      ensures ok ==> target.phase == Ready && exists s: Store ::
                s == old(target).nvm.(buffer := s.buffer) && s.Clean()
                && target.nvm == TagErased(s.PutAll(address, Zeros(eePageSize)))
      ensures ok <==> timer.ticks > 0
      ensures old(timer.ticks) > 0 && old(timer.Rest()) > 2 * limit + 2 && Within(old(target), limit) ==>
                ok && timer.Rest() >= old(timer.Rest()) - 2 * limit - 2 && target.busy <= limit
    {
      hide Store.PutAll, TagErased, Zeros;
      ghost var before := target.nvm;
      ok := EraseBuffer(XMEGA_NVM_CMD_ERASEEEPROMPAGEBUFF, limit);
      if !ok {
        return;
      }
      ghost var s := target.nvm;
      PutAllFrame(s, address, Zeros(eePageSize));
      ok := FillBuffer(XMEGA_NVM_CMD_LOADEEPROMPAGEBUFF, address, Zeros(eePageSize), limit);
      if !ok {
        return;
      }
      StoreByte(nvmBase + XMEGA_NVM_REG_CMD, XMEGA_NVM_CMD_ERASEEEPROM);
      StoreByte(nvmBase + XMEGA_NVM_REG_CTRLA, CTRLA_CMDEX);
      assert s == before.(buffer := s.buffer) && s.Clean();
    }

    /** Bytes that the device takes for the data of a repeated ST. */
    method SendSwallowed(bytes: seq<byte>, ghost left: nat)
      requires target.phase == Storing(left, true) && left > |bytes| && target.busy == 0 && target.nvm.page > 0
      requires LoadsBuffer(target.cmd) && Apart(target.base, target.pointer, |bytes|)
      modifies this`target
      ensures target == old(target).(phase := Storing(left - |bytes|, true), pointer := old(target).pointer + |bytes|,
                                     nvm := target.nvm, uses := target.uses)
      ensures target.nvm.cell == old(target).nvm.cell && target.nvm.page == old(target).nvm.page
    {
      hide Decode, Pdi.Begin, Pdi.Complete, Offset;
      ghost var t := target;
      for i := 0 to |bytes|
        invariant target == t.(phase := Storing(left - i, true), pointer := t.pointer + i,
                               nvm := target.nvm, uses := target.uses)
        invariant target.nvm.cell == t.nvm.cell && target.nvm.page == t.nvm.page
      {
        SendByte(bytes[i]);
      }
    }

    /** The order to erase, and the first byte of the wait for the bus. */
    method SendOrders()
      requires target.phase == Storing(0x100, true) && target.busy == 0 && target.nvm.page > 0
      requires nvmBase == target.base && nvmBase + 0x20 <= 0x1_0000_0000
      requires LoadsBuffer(target.cmd) && Apart(target.base, target.pointer, 0x100)
      modifies this`target
      ensures target == old(target).(phase := Storing(0x100 - 13, true), pointer := old(target).pointer + 13,
                                     nvm := target.nvm, uses := target.uses)
      ensures target.nvm.cell == old(target).nvm.cell && target.nvm.page == old(target).nvm.page
    {
      SendSwallowed(StoreBytes(nvmBase + XMEGA_NVM_REG_CMD, XMEGA_NVM_CMD_ERASEEEPROM), 256);
      SendSwallowed(StoreBytes(nvmBase + XMEGA_NVM_REG_CTRLA, CTRLA_CMDEX), 250);
      SendSwallowed([Encode(Ldcs(0))], 244);
    }

    /** The same for a page size of zero: the repeat count becomes 256 while no data follows, so the device takes the
        next instructions for data, and the wait for the bus times out. */
    method EraseEepromEmpty(address: long, ghost limit: nat) returns (ok: bool, ghost sent: bool)
      requires Valid() && target.phase == Ready && target.repeats == 0 && target.nvm.page > 0
      requires Apart(nvmBase, address, 0x100)
      modifies this`target, timer
      ensures Valid() && target.early == old(target).early
      ensures !ok && timer.ticks == 0 && target.nvm.cell == old(target).nvm.cell
      ensures sent ==> target.phase == Storing(0x100 - 13, true) && target.pointer == address + 13
      ensures old(timer.ticks) > 0 && old(timer.Rest()) > 2 * limit + 2 && Within(old(target), limit) ==> sent
    {
      hide Pdi.WriteAt, Decode, Store.Put;
      sent := false;
      ok := EraseBuffer(XMEGA_NVM_CMD_ERASEEEPROMPAGEBUFF, limit);
      if !ok {
        return;
      }
      ok := Command(XMEGA_NVM_CMD_LOADEEPROMPAGEBUFF);
      if !ok {
        return;
      }
      LoadPointer(address);
      SendRepeat(0xFF);
      BeginSequence(target, St(PostIncrement, BYTE));
      SendByte(Encode(St(PostIncrement, BYTE)));
      SendOrders();
      sent := true;
      var _ := ReceiveByte();
      ok := timer.ticks > 0;
    }

    /** The bytes of an STS. */
    function StoreBytes(a: long, v: byte): (r: seq<byte>)
      ensures |r| == 6
    {
      [Encode(Sts(LONG, BYTE)), a % 0x100, (a / 0x100) % 0x100, (a / 0x1_0000) % 0x100, (a / 0x100_0000) % 0x100, v]
    }

    /** The other branches: the chip erase is executed by the control register, every other command by a write to the
        address. */
    method EraseOther(eraseCommand: byte, address: long, ghost limit: nat) returns (ok: bool)
      requires Valid() && target.phase == Ready && target.repeats == 0 && target.nvm.page > 0
      requires Apart(nvmBase, address, 1)
      modifies this`target, timer
      ensures Valid() && target.early == old(target).early
      ensures ok ==> target.phase == Ready
      ensures ok && eraseCommand == XMEGA_NVM_CMD_CHIPERASE ==> target.nvm == Blank(old(target).nvm)
      ensures ok && ErasesPage(eraseCommand) ==> target.nvm == PageErased(old(target).nvm, address)
      ensures ok && ErasesSection(eraseCommand) ==>
                target.nvm == old(target).nvm && target.orders == old(target).orders + [(eraseCommand, address)]
      ensures ok <==> timer.ticks > 0
      ensures old(timer.ticks) > 0 && old(timer.Rest()) > limit && Within(old(target), limit) ==>
                ok && timer.Rest() >= old(timer.Rest()) - limit - 1 && target.busy <= limit
    {
      hide Blank, PageErased, Calm, Pdi.WriteAt;
      ok := Command(eraseCommand);
      if ok {
        Executed(target.Elapsed(6));
        OrderedErase(target.Elapsed(6), address);
        if eraseCommand == XMEGA_NVM_CMD_CHIPERASE {
          StoreByte(nvmBase + XMEGA_NVM_REG_CTRLA, CTRLA_CMDEX);
        } else {
          StoreByte(address, 0x00);
        }
      }
    }

    /** Returning true means that the erase was carried out, with the controller idle when it got each command: of the
        whole device, of the page or the section of an address, or of the tagged bytes of every EEPROM page. The loop
        that tags them counts in one byte, so it ends only for page sizes below 256; with a page size of zero nothing
        is erased and the answer is never true. */
    method EraseMemory(eraseCommand: byte, address: long, eePageSize: word, ghost limit: nat) returns (ok: bool)
      requires Valid() && target.phase == Ready && target.repeats == 0 && target.nvm.page > 0
      requires eraseCommand == XMEGA_NVM_CMD_ERASEEEPROM ==> eePageSize < 0x100
      requires Apart(nvmBase, address, if eePageSize == 0 then 0x100 else eePageSize + 1)
      modifies this`target, timer
      ensures target.early == old(target).early
      ensures ok ==> target.phase == Ready
      ensures ok && eraseCommand == XMEGA_NVM_CMD_CHIPERASE ==> target.nvm == Blank(old(target).nvm)
      ensures ok && ErasesPage(eraseCommand) ==> target.nvm == PageErased(old(target).nvm, address)
      ensures ok && ErasesSection(eraseCommand) ==>
                target.nvm == old(target).nvm && target.orders == old(target).orders + [(eraseCommand, address)]
      ensures eraseCommand == XMEGA_NVM_CMD_ERASEEEPROM && eePageSize == 0 ==>
                !ok && target.nvm.cell == old(target).nvm.cell
      ensures ok && eraseCommand == XMEGA_NVM_CMD_ERASEEEPROM ==> exists s: Store ::
                s == old(target).nvm.(buffer := s.buffer) && s.Clean()
                && target.nvm == TagErased(s.PutAll(address, Zeros(eePageSize)))
      ensures ok <==> timer.ticks > 0
      ensures ok && target.blocks ==> target.busy == 0
      ensures (old(timer.ticks) > 0 && old(timer.Rest()) > 3 * limit + 3 && Within(old(target), limit)
               && !(eraseCommand == XMEGA_NVM_CMD_ERASEEEPROM && eePageSize == 0)) ==> ok
    {
      hide Store.PutAll, Store.Put, Store.Commit, Store.Direct, TagErased, Blank, PageErased, Zeros, Calm;
      if eraseCommand == XMEGA_NVM_CMD_ERASEEEPROM {
        if eePageSize == 0 {
          ghost var sent;
          ok, sent := EraseEepromEmpty(address, limit);
        } else {
          ok := EraseEeprom(address, eePageSize, limit);
        }
      } else {
        ok := EraseOther(eraseCommand, address, limit);
      }
      if !ok {
        return;
      }
      ok := WaitWhileNVMBusBusy();
    }

    /** LDS of one byte. */
    method ReceiveOne(a: long) returns (readBuffer: seq<byte>)
      requires target.phase == Ready && target.busy == 0 && target.cmd == CMD_READNVM && Apart(target.base, a, 1)
      modifies this`target, timer
      ensures target == old(target).(phase := target.phase, uses := target.uses)
      ensures timer.ticks > 0 ==>
                && readBuffer == [target.nvm.cell(a)] && target.phase == Ready
                && target.uses == old(target).uses + Span(a, 1)
      ensures old(timer.ticks) > 0 && old(timer.Rest()) > 0 ==> timer.ticks > 0
    {
      hide Pdi.WriteAt, Decode, Pdi.Begin, Pdi.Complete, Calm;
      LoadSequence(target, a);
      SendByte(Encode(Lds(LONG, BYTE)));
      SendByte(a % 0x100);
      SendByte((a / 0x100) % 0x100);
      SendByte((a / 0x1_0000) % 0x100);
      SendByte((a / 0x100_0000) % 0x100);
      var r := ReceiveByte();
      readBuffer := [r];
      assert Span(a, 1) == [a];
    }
  }

  /** What erasing the EEPROM means: with every byte of a page tagged, no cell keeps its value; otherwise exactly those
      in the tagged part of some page are erased. */
  lemma EepromErased(s: Store, a: nat, n: nat, c: nat)
    requires s.page > 0 && s.Clean() && Offset(a, s.page) + n <= s.page
    ensures var o, r := Offset(c, s.page), Offset(a, s.page);
            TagErased(s.PutAll(a, Zeros(n))).cell(c) == if r <= o < r + n then 0xFF else s.cell(c)
  {
    hide Store.PutAll, Offset;
    PutAllFrame(s, a, Zeros(n));
    PutAllBuffer(s, a, Zeros(n), Offset(c, s.page));
  }

  /** The tagging loop's one-byte counter reaches the page size if and only if that fits a byte. */
  lemma TaggingEnds(eePageSize: word)
    ensures (exists sent: nat :: !(Counter(sent) < eePageSize)) <==> eePageSize < 0x100
  {
    if eePageSize < 0x100 {
      assert Counter(eePageSize) == eePageSize;
    }
  }

  /** The value of a one-byte counter after so many steps. */
  function Counter(sent: nat): byte {
    sent % 0x100
  }

  /** What a successful page write means: an erased flash page, or any EEPROM page, holds the data afterwards, and
      nothing else has changed. */
  lemma PageHolds(s: Store, a: nat, data: seq<byte>, command: byte)
    requires s.page > 0 && s.Clean() && Offset(a, s.page) + |data| <= s.page
    requires RewritesPage(command) || forall c | a <= c < a + |data| :: s.cell(c) == 0xFF
    ensures var t := Finished(s.PutAll(a, data), XPROG_PAGEMODE_WRITE, command, a);
            forall c: nat :: t.cell(c) == if a <= c < a + |data| then data[c - a] else s.cell(c)
  {
    var e := s.(autoErase := RewritesPage(command));
    PutAllErase(s, a, data, RewritesPage(command));
    if e.autoErase {
      forall c: nat
        ensures e.PutAll(a, data).Commit(a).cell(c) == if a <= c < a + |data| then data[c - a] else s.cell(c)
      {
        CommittedBlock(e, a, data, c);
      }
    } else {
      ErasedBlock(e, a, data);
    }
  }

  lemma {:induction false} PutAllErase(s: Store, a: nat, data: seq<byte>, autoErase: bool)
    requires s.page > 0
    ensures s.PutAll(a, data).(autoErase := autoErase) == s.(autoErase := autoErase).PutAll(a, data)
  {
    if data != [] {
      PutAllErase(s, a, data[..|data| - 1], autoErase);
      PutAllFrame(s, a, data[..|data| - 1]);
      PutAllFrame(s.(autoErase := autoErase), a, data[..|data| - 1]);
    }
  }
}
