/** The TINY engine (TINYNVM.c): memory operations compiled into TPI instructions, run against the device and the
    timeout interrupt. */
module TinyNvm {
  import opened Bytes
  import opened Timeout
  import opened AvrTarget
  import opened TpiTarget

  const TINY_NVM_CMD_NOOP: byte := 0x00
  const TINY_NVM_CMD_WORDWRITE: byte := 0x1D

  /** `b` is `a` some time later, with nothing written. */
  ghost predicate Later(a: Tpi, b: Tpi) {
    b == a.(busy := b.busy, phase := b.phase) && b.busy <= a.busy
  }

  /** A controller that is never busy for longer. */
  ghost predicate Within(t: Tpi, limit: nat) {
    t.busy <= limit && forall k: nat :: t.latency(k) <= limit
  }

  /** How often such a controller is looked at, at most, during `n` waits. */
  function Looks(n: nat, limit: nat): nat {
    if n == 0 then 0 else limit + 1 + Looks(n - 1, limit)
  }

  lemma OneLess(n: nat, limit: nat)
    requires n > 0
    ensures Looks(n, limit) == limit + 1 + Looks(n - 1, limit)
  {
  }

  lemma {:induction false} FewerLooks(n: nat, m: nat, limit: nat)
    requires n <= m
    ensures Looks(n, limit) <= Looks(m, limit)
    decreases m
  {
    if n < m {
      FewerLooks(n, m - 1, limit);
    }
  }

  lemma Begins(t: Tpi, i: Instr)
    requires t.phase == Ready && Proper(i)
    ensures t.Shift(Encode(i)) == t.Elapsed(1).Begin(i)
  {
    Decodes(i);
  }

  lemma PointerSequence(t: Tpi, a: word)
    requires t.phase == Ready
    ensures t.Shift(Encode(Sstpr(false))).Shift(a % 0x100).Shift(Encode(Sstpr(true))).Shift(a / 0x100)
            == t.Elapsed(4).(pointer := a)
  {
    var u := t.Shift(Encode(Sstpr(false))).Shift(a % 0x100);
    assert u.phase == Ready && u.pointer % 0x100 == a % 0x100;
  }

  /** The words a block is written as: an odd last byte is made up to a word, unless that makes the 16-bit length 0. */
  function Words(data: seq<byte>): (r: seq<byte>)
    ensures |r| % 2 == 0
  {
    if |data| % 2 == 0 then data
    else if |data| == 0xFFFF then []
    else data + [0xFF]
  }

  /** The memory after words have been written from `a` on; the pointer has 16 bits. */
  function PutWords(s: Store, a: word, data: seq<byte>): Store
    requires |data| % 2 == 0
  {
    if data == [] then s
    else PutWords(s, a, data[..|data| - 2]).PutAll((a + |data| - 2) % 0x1_0000, data[|data| - 2..])
  }

  lemma NothingPut(s: Store, a: word, data: seq<byte>)
    ensures PutWords(s, a, data[..0]) == s
  {
  }

  lemma PutWord(s: Store, a: word, data: seq<byte>, n: nat)
    requires n % 2 == 0 && n + 2 <= |data|
    ensures PutWords(s, a, data[..n + 2]) ==
            PutWords(s, a, data[..n]).PutAll((a + n) % 0x1_0000, [data[n], data[n + 1]])
  {
    hide Store.PutAll;
    assert data[..n + 2][..n] == data[..n];
    assert data[..n + 2][n..] == [data[n], data[n + 1]];
  }

  /** Where in a block from `a` on the cell `c` is. */
  function Along(a: word, c: word): word {
    if c >= a then c - a else c + 0x1_0000 - a
  }

  lemma WordAlong(a: word, n: nat, c: word)
    requires a % 2 == 0 && n % 2 == 0 && n < 0x1_0000
    ensures var at := (a + n) % 0x1_0000;
            at + 2 <= 0x1_0000 && (at <= c < at + 2 <==> n <= Along(a, c) < n + 2)
            && (at <= c < at + 2 ==> Along(a, c) - n == c - at)
  {
    assert (a + n) % 0x1_0000 == if a + n < 0x1_0000 then a + n else a + n - 0x1_0000;
  }

  lemma OneWord(t: Store, at: word, lo: byte, hi: byte, c: nat)
    requires t.page == 0
    ensures var u := t.PutAll(at, [lo, hi]);
            && u.page == 0 && u.autoErase == t.autoErase
            && u.cell(c) == if c == at then t.Burnt(t.cell(c), lo)
                            else if c == at + 1 then t.Burnt(t.cell(c), hi)
                            else t.cell(c)
  {
    PutAllFrame(t, at, [lo, hi]);
    PutAllDirect(t, at, [lo, hi], c);
  }

  lemma {:induction false} PutWordsCell(s: Store, a: word, data: seq<byte>, c: nat)
    requires s.page == 0 && a % 2 == 0 && |data| % 2 == 0 && |data| <= 0x1_0000
    ensures var t := PutWords(s, a, data);
            && t.page == 0 && t.autoErase == s.autoErase
            && t.cell(c) == if c < 0x1_0000 && Along(a, c) < |data| then s.Burnt(s.cell(c), data[Along(a, c)])
                            else s.cell(c)
  {
    hide PutWords, Along, Store.PutAll, And;
    if data == [] {
      NothingPut(s, a, data);
      assert data[..0] == data;
    } else {
      var n := |data| - 2;
      var t := PutWords(s, a, data[..n]);
      PutWordsCell(s, a, data[..n], c);
      PutWord(s, a, data, n);
      assert data[..n + 2] == data;
      OneWord(t, (a + n) % 0x1_0000, data[n], data[n + 1], c);
      if c < 0x1_0000 {
        WordAlong(a, n, c);
      }
    }
  }

  class TinyEngine {
    var target: Tpi
    const timer: Timer
    const cmdPort: nat
    const csrPort: nat

    constructor (device: Tpi)
      ensures target == device && cmdPort == device.cmdPort && csrPort == device.csrPort && fresh(timer)
    {
      target, cmdPort, csrPort := device, device.cmdPort, device.csrPort;
      timer := new Timer([]);
    }

    ghost predicate Valid()
      reads this
    {
      cmdPort == target.cmdPort < 0x40 && csrPort == target.csrPort < 0x40
    }

    method SendByte(b: byte)
      modifies this`target
      ensures target == old(target).Shift(b)
    {
      target := target.Shift(b);
    }

    method ReceiveByte() returns (r: byte)
      modifies this`target, timer
      ensures timer.ticks <= old(timer.ticks)
      ensures timer.ticks > 0 && timer.ticks == old(timer.ticks) ==> timer.UntilTick() < old(timer.UntilTick())
      ensures timer.ticks > 0 ==>
                old(target).phase.Answering? && r == old(target).Answer() && target == old(target).Emit()
      ensures target == old(target) || (old(target).phase.Answering? && target == old(target).Emit())
      ensures old(target).phase.Answering? && old(timer.ticks) > 0 && old(timer.Rest()) > 0 ==>
                timer.ticks == old(timer.ticks) && timer.Rest() == old(timer.Rest()) - 1
    {
      var arrives: bool := *;
      if target.phase.Answering? && (arrives || (timer.ticks > 0 && timer.Rest() > 0)) {
        r := target.Answer();
        target := target.Emit();
        timer.Elapse();
      } else {
        r := *;
        timer.ticks := 0;
      }
    }

    method SendPointerAddress(a: word)
      requires target.phase == Ready
      modifies this`target
      ensures target == old(target).Elapsed(4).(pointer := a)
    {
      PointerSequence(target, a);
      SendByte(Encode(Sstpr(false)));
      SendByte(a % 0x100);
      SendByte(Encode(Sstpr(true)));
      SendByte(a / 0x100);
    }

    method WaitWhileNVMControllerBusy() returns (ready: bool)
      requires Valid() && target.phase == Ready
      modifies this`target, timer
      ensures Later(old(target), target)
      ensures ready ==> target.phase == Ready && target.busy == 0
      ensures ready <==> timer.ticks > 0
      ensures old(timer.ticks) > 0 && old(timer.Rest()) > old(target).busy ==>
                ready && timer.Rest() >= old(timer.Rest()) - old(target).busy - 1
    {
      hide Decode, Encode, Calm;
      ghost var polls := 0;
      while true
        invariant old(timer.ticks) > 0 && old(timer.Rest()) > old(target).busy ==>
                    && timer.ticks == old(timer.ticks) && timer.Rest() + polls == old(timer.Rest())
                    && polls + target.busy <= old(target).busy
        invariant Later(old(target), target) && target.phase == Ready
        decreases timer.ticks, timer.UntilTick()
      {
        Begins(target, Sin(csrPort));
        SendByte(Encode(Sin(csrPort)));
        var statusRegister := ReceiveByte();
        if timer.ticks == 0 {
          return false;
        }
        if statusRegister < 0x80 {
          return true;
        }
        polls := polls + 1;
      }
    }

    /** Give the idle controller a command and set the pointer. */
    method Command(command: byte, a: word)
      requires Valid() && target.phase == Ready && target.busy == 0
      modifies this`target
      ensures target == old(target).(cmd := command, pointer := a)
    {
      hide Decode, Encode;
      Begins(target, Sout(cmdPort));
      SendByte(Encode(Sout(cmdPort)));
      SendByte(command);
      SendPointerAddress(a);
    }

    /** Returning true means that the bytes are those of the device's memory, from which the pointer wraps to 0. */
    method ReadMemory(readAddress: word, readSize: word) returns (ok: bool, readBuffer: seq<byte>)
      requires Valid() && target.phase == Ready
      modifies this`target, timer
      ensures target.nvm == old(target).nvm && target.early == old(target).early
      ensures ok ==>
                && target.phase == Ready && |readBuffer| == readSize
                && forall k | 0 <= k < readSize :: readBuffer[k] == target.nvm.cell((readAddress + k) % 0x1_0000)
      ensures ok <==> timer.ticks > 0
      ensures old(timer.ticks) > 0 && old(timer.Rest()) > old(target).busy + readSize ==> ok
    {
      hide Decode, Encode, Calm;
      readBuffer := [];
      ok := WaitWhileNVMControllerBusy();
      if !ok {
        return;
      }
      Command(TINY_NVM_CMD_NOOP, readAddress);
      while |readBuffer| < readSize && timer.ticks > 0
        invariant |readBuffer| <= readSize
        invariant old(timer.ticks) > 0 && old(timer.Rest()) > old(target).busy + readSize ==>
                    timer.ticks > 0 && timer.Rest() >= readSize - |readBuffer|
        invariant target.nvm == old(target).nvm && target.early == old(target).early && target.busy == 0
        invariant timer.ticks > 0 ==>
                    && target.phase == Ready && target.pointer == (readAddress + |readBuffer|) % 0x1_0000
                    && forall k | 0 <= k < |readBuffer| ::
                         readBuffer[k] == target.nvm.cell((readAddress + k) % 0x1_0000)
        decreases readSize - |readBuffer|
      {
        Begins(target, Sld(true));
        SendByte(Encode(Sld(true)));
        var r := ReceiveByte();
        readBuffer := readBuffer + [r];
      }
      ok := timer.ticks > 0;
    }

    /** One word, low byte first. */
    method WriteWord(lo: byte, hi: byte)
      requires target.phase == Ready && target.busy == 0 && target.cmd == CMD_WORDWRITE
      requires target.pointer % 2 == 0 && target.pointer < 0x1_0000
      modifies this`target
      ensures target == old(target).(low := lo, nvm := old(target).nvm.PutAll(old(target).pointer, [lo, hi]),
                                     pointer := (old(target).pointer + 2) % 0x1_0000,
                                     busy := old(target).latency(old(target).writes),
                                     writes := old(target).writes + 1)
    {
      hide Decode, Encode, Store.PutAll;
      Begins(target, Sst(true));
      SendByte(Encode(Sst(true)));
      SendByte(lo);
      Begins(target, Sst(true));
      SendByte(Encode(Sst(true)));
      SendByte(hi);
    }

    /** The word loop of a write. */
    method WriteWords(writeAddress: word, writeBuffer: array<byte>, writeLength: word, ghost limit: nat)
      returns (ok: bool, ghost done: nat)
      requires Valid() && target.phase == Ready && target.busy == 0
      requires target.cmd == CMD_WORDWRITE && target.pointer == writeAddress
      requires writeAddress % 2 == 0 && writeLength % 2 == 0 && writeLength <= writeBuffer.Length
      modifies this`target, timer
      ensures target.early == old(target).early
      ensures done <= writeLength && done % 2 == 0 && (ok ==> done == writeLength)
      ensures target.nvm == PutWords(old(target).nvm, writeAddress, writeBuffer[..][..done])
      ensures !ok ==> timer.ticks == 0
      ensures ok && old(timer.ticks) > 0 ==> timer.ticks > 0
      ensures (old(timer.ticks) > 0 && Within(old(target), limit)
               && old(timer.Rest()) >= Looks(writeLength / 2, limit)) ==> ok
    {
      hide Decode, Encode, PutWords, Store.PutAll, Tpi.Shift, Calm, Looks;
      ghost var s, data := target.nvm, writeBuffer[..];
      NothingPut(s, writeAddress, data);
      var left: word, next := writeLength, 0;
      done := 0;
      while left > 0
        invariant left % 2 == 0 && next % 2 == 0 && next + left == writeLength && done == next
        invariant Valid() && target.phase == Ready && target.cmd == CMD_WORDWRITE
        invariant target.early == old(target).early
        invariant target.pointer == (writeAddress + next) % 0x1_0000
        invariant target.nvm == PutWords(s, writeAddress, data[..next])
        invariant old(timer.ticks) > 0 ==> timer.ticks > 0
        invariant (old(timer.ticks) > 0 && Within(old(target), limit)
                   && old(timer.Rest()) >= Looks(writeLength / 2, limit)) ==>
                    Within(target, limit) && timer.Rest() >= Looks(left / 2, limit)
      {
        OneLess(left / 2, limit);
        ok := WaitWhileNVMControllerBusy();
        if !ok {
          return;
        }
        WriteWord(writeBuffer[next], writeBuffer[next + 1]);
        PutWord(s, writeAddress, data, next);
        next, done, left := next + 2, next + 2, left - 2;
      }
      ok := true;
    }

    /** Returning true means that every word has been written where it belongs, an odd last byte together with 0xFF;
        on failure some leading words have. The controller is never given a word before it is ready. The length has
        16 bits: with 65535 bytes it becomes 0, and nothing is written. */
    method WriteMemory(writeAddress: word, writeBuffer: array<byte>, writeLength: word, ghost limit: nat)
      returns (ok: bool, ghost done: nat)
      requires Valid() && target.phase == Ready && writeAddress % 2 == 0
      requires writeLength + writeLength % 2 <= writeBuffer.Length
      modifies this`target, timer, writeBuffer
      ensures target.early == old(target).early
      ensures var data := Words(old(writeBuffer[..writeLength]));
              && done <= |data| && done % 2 == 0 && (ok ==> done == |data|)
              && target.nvm == PutWords(old(target).nvm, writeAddress, data[..done])
      ensures ok <==> timer.ticks > 0
      ensures (old(timer.ticks) > 0 && Within(old(target), limit)
               && old(timer.Rest()) > limit + Looks((writeLength + 1) / 2, limit)) ==> ok
    {
      hide Decode, Encode, PutWords, Calm, Looks;
      ghost var data := Words(writeBuffer[..writeLength]);
      done := 0;
      NothingPut(target.nvm, writeAddress, data);
      ok := WaitWhileNVMControllerBusy();
      if !ok {
        return;
      }
      var length := writeLength;
      if length % 2 == 1 {
        writeBuffer[length] := 0xFF;
        length := (length + 1) % 0x1_0000;
      }
      assert writeBuffer[..length] == data;
      Command(TINY_NVM_CMD_WORDWRITE, writeAddress);
      FewerLooks(length / 2, (writeLength + 1) / 2, limit);
      ok, done := WriteWords(writeAddress, writeBuffer, length, limit);
      assert writeBuffer[..][..done] == data[..done];
    }
  }

  /** What a successful write means: erased cells hold the data afterwards, and no other cell has changed, unless there
      are 65535 bytes; then no cell at all has. */
  lemma BlockHolds(s: Store, a: word, data: seq<byte>)
    requires s.page == 0 && !s.autoErase && a % 2 == 0 && |data| < 0x1_0000
    requires forall c: word | Along(a, c) < |Words(data)| :: s.cell(c) == 0xFF
    ensures var t := PutWords(s, a, Words(data));
            && (forall k | 0 <= k < |data| && |data| < 0xFFFF :: t.cell((a + k) % 0x1_0000) == data[k])
            && (|data| == 0xFFFF ==> t == s)
            && forall c: nat | !(c < 0x1_0000 && Along(a, c) < |Words(data)|) :: t.cell(c) == s.cell(c)
  {
    hide PutWords, And;
    var t := PutWords(s, a, Words(data));
    forall c: nat
      ensures t.cell(c) == if c < 0x1_0000 && Along(a, c) < |Words(data)| then Words(data)[Along(a, c)] else s.cell(c)
    {
      PutWordsCell(s, a, Words(data), c);
      if c < 0x1_0000 && Along(a, c) < |Words(data)| {
        AndErased(Words(data)[Along(a, c)]);
      }
    }
    forall k | 0 <= k < |data| && |data| < 0xFFFF
      ensures t.cell((a + k) % 0x1_0000) == data[k]
    {
      assert Along(a, (a + k) % 0x1_0000) == k;
    }
    if |data| == 0xFFFF {
      NothingPut(s, a, data);
      assert data[..0] == Words(data);
    }
  }
}
