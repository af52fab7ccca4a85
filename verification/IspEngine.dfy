/** The AVRISP programming engine (V2Protocol.c, ISPProtocol.c, ISPTarget.c), running against a device and a
    timeout interrupt that may come at any time. */
module IspEngine {
  import opened Bytes
  import opened Pages
  import opened Timeout
  import opened AvrTarget
  import opened IspLink
  import opened IspWait
  import opened BulkIn

  /** The device's documented write, commit and read instructions. */
  function Opcodes(space: Space, paged: bool): seq<byte> {
    if space.Flash? then [0x40, 0x4C, 0x20] else [if paged then 0xC1 else 0xC0, 0xC2, 0xA0]
  }

  /** What happens on the way into programming mode. */
  datatype Event = Paused(ms: byte) | ResetLine(active: bool) | Sent(b: byte)

  /** Parameters of CMD_ENTER_PROGMODE_ISP. */
  datatype EnterParams = EnterParams(pinStabDelayMS: byte, executionDelayMS: byte, synchLoops: byte, byteDelay: byte,
                                     pollValue: byte, pollIndex: byte, enterProgBytes: seq<byte>) {
    /** What a device in step answers: every byte comes back with the next one. */
    function Echo(): (r: seq<byte>)
      requires |enterProgBytes| == 4
      ensures |r| == 4
    {
      [0] + enterProgBytes[..3]
    }

    /** The last answer is a value from the device instead, if the bytes happen to be a read instruction. */
    predicate Reads()
      requires |enterProgBytes| == 4
    {
      enterProgBytes[0] in {0x20, 0x28, 0xA0, 0xF0}
    }

    /** One attempt, and how the target is reset before the next. */
    function Attempt(k: nat): seq<Event>
      requires |enterProgBytes| == 4 && k <= 4
    {
      if k == 0 then [] else Attempt(k - 1) + [Paused(byteDelay), Sent(enterProgBytes[k - 1])]
    }

    function Retry(): seq<Event> {
      [ResetLine(false), Paused(pinStabDelayMS), ResetLine(true), Paused(pinStabDelayMS)]
    }

    function Tries(failed: nat): seq<Event>
      requires |enterProgBytes| == 4
    {
      if failed == 0 then [] else Tries(failed - 1) + Attempt(4) + Retry()
    }

    /** The course of events up to `failed` attempts. */
    function Course(failed: nat): seq<Event>
      requires |enterProgBytes| == 4
    {
      [Paused(executionDelayMS), ResetLine(true), Paused(pinStabDelayMS)] + Tries(failed)
    }

    /** Polling disabled, or the expected value. */
    predicate Accepts(polled: byte) {
      pollIndex == 0 || polled == pollValue
    }
  }

  /** The levels of the reset line in a course of events, the bytes sent, and the time spent waiting. */
  function Levels(events: seq<Event>): seq<bool> {
    if events == [] then []
    else Levels(events[..|events| - 1]) + if events[|events| - 1].ResetLine? then [events[|events| - 1].active] else []
  }

  function BytesSent(events: seq<Event>): seq<byte> {
    if events == [] then []
    else BytesSent(events[..|events| - 1]) + if events[|events| - 1].Sent? then [events[|events| - 1].b] else []
  }

  function TimeSpent(events: seq<Event>): nat {
    if events == [] then 0
    else TimeSpent(events[..|events| - 1]) + if events[|events| - 1].Paused? then events[|events| - 1].ms else 0
  }

  lemma EventsSnoc(events: seq<Event>, e: Event)
    ensures Levels(events + [e]) == Levels(events) + if e.ResetLine? then [e.active] else []
    ensures BytesSent(events + [e]) == BytesSent(events) + if e.Sent? then [e.b] else []
    ensures TimeSpent(events + [e]) == TimeSpent(events) + if e.Paused? then e.ms else 0
  {
    assert (events + [e])[..|events|] == events;
  }

  lemma {:induction false} EventsAppend(x: seq<Event>, y: seq<Event>)
    ensures Levels(x + y) == Levels(x) + Levels(y)
    ensures BytesSent(x + y) == BytesSent(x) + BytesSent(y)
    ensures TimeSpent(x + y) == TimeSpent(x) + TimeSpent(y)
    decreases |y|
  {
    hide Levels, BytesSent, TimeSpent;
    if y == [] {
      assert x + y == x;
      NoEvents();
    } else {
      var n := |y| - 1;
      EventsAppend(x, y[..n]);
      EventsSnoc(x + y[..n], y[n]);
      EventsSnoc(y[..n], y[n]);
      assert x + y == x + y[..n] + [y[n]] && y == y[..n] + [y[n]];
    }
  }

  lemma NoEvents()
    ensures Levels([]) == [] && BytesSent([]) == [] && TimeSpent([]) == 0
  {
  }

  /** One attempt sends the four bytes in order, with a pause before each and the target held in reset. */
  lemma AttemptShape(p: EnterParams)
    requires |p.enterProgBytes| == 4
    ensures BytesSent(p.Attempt(4)) == p.enterProgBytes && Levels(p.Attempt(4)) == []
    ensures TimeSpent(p.Attempt(4)) == 4 * (p.byteDelay as nat)
  {
    hide Levels, BytesSent, TimeSpent;
    var b := p.enterProgBytes;
    NoEvents();
    assert b == [b[0], b[1], b[2], b[3]];
    assert p.Attempt(0) == [];
    AttemptNext(p, 1);
    AttemptNext(p, 2);
    AttemptNext(p, 3);
    AttemptNext(p, 4);
  }

  lemma AttemptNext(p: EnterParams, k: nat)
    requires |p.enterProgBytes| == 4 && 0 < k <= 4
    ensures BytesSent(p.Attempt(k)) == BytesSent(p.Attempt(k - 1)) + [p.enterProgBytes[k - 1]]
    ensures Levels(p.Attempt(k)) == Levels(p.Attempt(k - 1))
    ensures TimeSpent(p.Attempt(k)) == TimeSpent(p.Attempt(k - 1)) + p.byteDelay
  {
    hide Levels, BytesSent, TimeSpent;
    var x := p.Attempt(k - 1);
    EventsSnoc(x, Paused(p.byteDelay));
    EventsSnoc(x + [Paused(p.byteDelay)], Sent(p.enterProgBytes[k - 1]));
    assert p.Attempt(k) == x + [Paused(p.byteDelay)] + [Sent(p.enterProgBytes[k - 1])];
  }

  /** A retry releases the target once and resets it again, with the time to settle after each. */
  lemma RetryShape(p: EnterParams)
    ensures Levels(p.Retry()) == [false, true] && BytesSent(p.Retry()) == []
    ensures TimeSpent(p.Retry()) == 2 * (p.pinStabDelayMS as nat)
  {
    hide Levels, BytesSent, TimeSpent;
    NoEvents();
    var a, b := [ResetLine(false), Paused(p.pinStabDelayMS)], [ResetLine(true), Paused(p.pinStabDelayMS)];
    EventsSnoc([], ResetLine(false));
    EventsSnoc([ResetLine(false)], Paused(p.pinStabDelayMS));
    EventsSnoc(a, ResetLine(true));
    EventsSnoc(a + [ResetLine(true)], Paused(p.pinStabDelayMS));
    assert [] + [ResetLine(false)] == [ResetLine(false)] && [ResetLine(false)] + [Paused(p.pinStabDelayMS)] == a;
    assert a + [ResetLine(true)] + [Paused(p.pinStabDelayMS)] == p.Retry();
  }

  /** The whole course: the reset line starts active and is pulsed once after every failed attempt; every attempt
      sends the bytes. */
  lemma {:induction false} CourseShape(p: EnterParams, failed: nat)
    requires |p.enterProgBytes| == 4
    ensures |Levels(p.Course(failed))| == 2 * failed + 1
    ensures forall i | 0 <= i < 2 * failed + 1 :: Levels(p.Course(failed))[i] == (i % 2 == 0)
    ensures |BytesSent(p.Course(failed))| == 4 * failed
  {
    hide Levels, BytesSent, TimeSpent, EnterParams.Attempt, EnterParams.Retry;
    if failed == 0 {
      OpeningShape(p);
      assert p.Course(0) == [Paused(p.executionDelayMS), ResetLine(true), Paused(p.pinStabDelayMS)];
    } else {
      CourseShape(p, failed - 1);
      CourseNext(p, failed);
      hide EnterParams.Course;
      AttemptShape(p);
      RetryShape(p);
    }
  }

  lemma CourseNext(p: EnterParams, failed: nat)
    requires |p.enterProgBytes| == 4 && failed > 0
    ensures var x, a, r := p.Course(failed - 1), p.Attempt(4), p.Retry();
            && Levels(p.Course(failed)) == Levels(x) + Levels(a) + Levels(r)
            && BytesSent(p.Course(failed)) == BytesSent(x) + BytesSent(a) + BytesSent(r)
            && TimeSpent(p.Course(failed)) == TimeSpent(x) + TimeSpent(a) + TimeSpent(r)
  {
    hide Levels, BytesSent, TimeSpent, EnterParams.Attempt, EnterParams.Retry;
    var x := p.Course(failed - 1);
    assert p.Course(failed) == x + p.Attempt(4) + p.Retry();
    EventsAppend(x, p.Attempt(4));
    EventsAppend(x + p.Attempt(4), p.Retry());
  }

  /** ... and every pause is made. */
  lemma {:induction false} CourseTime(p: EnterParams, failed: nat)
    requires |p.enterProgBytes| == 4
    ensures var round := 4 * (p.byteDelay as nat) + 2 * (p.pinStabDelayMS as nat);
            TimeSpent(p.Course(failed)) == p.executionDelayMS as nat + p.pinStabDelayMS as nat + failed * round
  {
    hide Levels, BytesSent, TimeSpent, EnterParams.Attempt, EnterParams.Retry;
    var round := 4 * (p.byteDelay as nat) + 2 * (p.pinStabDelayMS as nat);
    if failed == 0 {
      OpeningShape(p);
      assert p.Course(0) == [Paused(p.executionDelayMS), ResetLine(true), Paused(p.pinStabDelayMS)];
    } else {
      CourseTime(p, failed - 1);
      CourseNext(p, failed);
      AttemptShape(p);
      RetryShape(p);
      assert failed * round == (failed - 1) * round + round;
    }
  }

  lemma OpeningShape(p: EnterParams)
    ensures var first := [Paused(p.executionDelayMS), ResetLine(true), Paused(p.pinStabDelayMS)];
            && Levels(first) == [true] && BytesSent(first) == []
            && TimeSpent(first) == p.executionDelayMS as nat + p.pinStabDelayMS as nat
  {
    hide Levels, BytesSent, TimeSpent;
    NoEvents();
    var a := [Paused(p.executionDelayMS)];
    EventsSnoc([], Paused(p.executionDelayMS));
    EventsSnoc(a, ResetLine(true));
    EventsSnoc(a + [ResetLine(true)], Paused(p.pinStabDelayMS));
    assert [] + a == a;
    assert a + [ResetLine(true)] + [Paused(p.pinStabDelayMS)] ==
           [Paused(p.executionDelayMS), ResetLine(true), Paused(p.pinStabDelayMS)];
  }

  /** The answer to the last attempt, and the byte of it that was looked at. */
  predicate Answers(p: EnterParams, response: seq<byte>, polled: byte)
    requires |p.enterProgBytes| == 4
  {
    && |response| == 4 && response[..3] == p.Echo()[..3] && (!p.Reads() ==> response == p.Echo())
    && (0 < p.pollIndex <= 4 ==> polled == response[p.pollIndex - 1])
  }

  /** Every attempt is answered alike, unless the host asks for a value from the device. */
  lemma SameAnswer(p: EnterParams, a: seq<byte>, polledA: byte, b: seq<byte>, polledB: byte)
    requires |p.enterProgBytes| == 4
    requires |b| == 4 && b[..3] == p.Echo()[..3] && (!p.Reads() ==> b == p.Echo())
    requires 0 < p.pollIndex <= 4 ==> polledB == b[p.pollIndex - 1]
    ensures Answers(p, b, polledB)
    ensures Answers(p, a, polledA) && 0 < p.pollIndex && (p.pollIndex <= 3 || (p.pollIndex == 4 && !p.Reads())) ==>
              polledA == polledB
  {
    if Answers(p, a, polledA) && 0 < p.pollIndex <= 3 {
      assert a[..3][p.pollIndex - 1] == b[..3][p.pollIndex - 1];
    }
  }

  /** A device that ends a wait of the given kind at the first look: ready at once, or busy and telling so. */
  predicate Obliges(t: Avr, how: Method, pollValue: byte) {
    && (how == ReadyBusy ==> t.busy == 0)
    && (how == ValuePoll ==> t.busy > 3 && t.blank != pollValue)
  }

  /** A device that will be so after any commit. */
  ghost predicate Obliging(t: Avr, how: Method, pollValue: byte) {
    forall k: nat :: Obliges(t.(busy := t.latency(k)), how, pollValue)
  }

  lemma ObligesNow(a: Avr, b: Avr, how: Method, pollValue: byte)
    requires Obliging(a, how, pollValue) && SameDevice(a, b) && exists k: nat :: b.busy == b.latency(k)
    ensures Obliges(b, how, pollValue)
  {
    var k: nat :| b.busy == b.latency(k);
    assert Obliges(a.(busy := a.latency(k)), how, pollValue);
  }

  /** A wait that succeeded by asking the device, in a way the device can answer. */
  predicate Asked(blank: byte, pollValue: byte, w: Wait) {
    w.ok && (w.how == ReadyBusy || (w.how == ValuePoll && pollValue == blank))
  }

  ghost predicate AllAsked(blank: byte, pollValue: byte, ws: seq<Wait>) {
    forall w | w in ws :: Asked(blank, pollValue, w)
  }

  ghost predicate EarlierAsked(blank: byte, pollValue: byte, ws: seq<Wait>) {
    forall k | 0 <= k < |ws| - 1 :: Asked(blank, pollValue, ws[k])
  }

  lemma AllAskedBoth(blank: byte, pollValue: byte, x: seq<Wait>, y: seq<Wait>)
    ensures AllAsked(blank, pollValue, x + y) <==> AllAsked(blank, pollValue, x) && AllAsked(blank, pollValue, y)
  {
    hide Asked;
    forall w | w in x || w in y
      ensures w in x + y
    {
    }
  }

  lemma EarlierThan(blank: byte, pollValue: byte, x: seq<Wait>, w: Wait)
    ensures EarlierAsked(blank, pollValue, x + [w]) <==> AllAsked(blank, pollValue, x)
    ensures AllAsked(blank, pollValue, x + [w]) ==> AllAsked(blank, pollValue, x) && Asked(blank, pollValue, w)
  {
    hide Asked;
    AllAskedBoth(blank, pollValue, x, [w]);
    assert w in [w];
    assert forall k | 0 <= k < |x| :: (x + [w])[k] == x[k];
  }

  /** None of the first `n` bytes was waited for in an episode that runs out, unless the wait could not fail. */
  ghost predicate Outlasted(space: Space, start: word, p: WriteParams, planned: seq<Episode>, n: nat) {
    forall k | 0 <= k < n :: RunsOut(EpisodeAt(planned, k)) ==> !Fallible(WordMethod(space, start, p, k))
  }

  function PageOf(t: Avr, space: Space): nat {
    if space.Flash? then t.flash.page else t.eeprom.page
  }

  /** The write instruction for byte `i` of a command. */
  function WriteOpcode(space: Space, paged: bool, i: nat): byte {
    if space.Flash? then 0x40 + HIGH_BYTE * (i % 2) else if paged then 0xC1 else 0xC0
  }

  lemma NextOpcode(space: Space, paged: bool, i: nat)
    ensures WriteOpcode(space, paged, i + 1) ==
            if space.Flash? then ToggleBit(WriteOpcode(space, paged, i), HIGH_BYTE) else WriteOpcode(space, paged, i)
  {
  }

  /** How a block starts ... */
  lemma BlockStart(space: Space, paged: bool, start: word, p: WriteParams, planned: seq<Episode>)
    ensures Opcodes(space, paged)[0] == WriteOpcode(space, paged, 0)
    ensures start == LowAt(space, start, 0)
    ensures Poll(0, Opcodes(space, paged)[2]) == PollAfter(space, start, p, 0)
    ensures |Opcodes(space, paged)| == 3 && Opcodes(space, paged)[2] == ReadOpcode(space)
    ensures Unbroken(space, start, p, []) && Outlasted(space, start, p, planned, 0)
    ensures After(planned, 0) == planned
  {
  }

  /** ... and ends. */
  lemma BlockEnds(l: Link, space: Space, start: word, p: WriteParams, done: nat, q: Poll)
    requires done <= |p.data| && q.command in {ReadOpcode(space), CommandAt(space, 1)}
    ensures q.command in {0x20, 0x28, 0xA0}
    ensures LastPoll(space, start, p, done) ==
            if done < |p.data| then PollAt(space, start, p, done) else PollAfter(space, start, p, done)
    ensures l.Programmed(space, p.data, done, false) ==
            var m := l.Write(space, p.data[..done]);
            if done < |p.data| then m.Stored(space, done, p.data[done]) else m
  {
    hide Link.Write, Link.Stored, PollAt, PollAfter;
  }

  /** The commit instruction. */
  lemma CommitExec(t: Avr, space: Space, start: word)
    ensures var u := t.Exec(Opcodes(space, t.eeprom.page > 0)[1], High(start), Low(start), 0x00);
            && u == t.(flash := u.flash, eeprom := u.eeprom, busy := t.latency(t.writes), writes := t.writes + 1,
                       early := t.early || t.busy > 0)
            && u.flash == (if space.Flash? then t.flash.Commit(t.FlashAddress(start)) else t.flash)
            && u.eeprom == (if space.Flash? then t.eeprom else t.eeprom.Commit(start))
  {
    hide Store.Commit, Store.Put, Store.Direct;
    JoinWord(start);
  }

  lemma WriteNone(l: Link, space: Space)
    ensures l.Write(space, []) == l
  {
  }

  lemma OpcodeStart(space: Space)
    ensures ReadOpcode(space) == CommandAt(space, 0)
  {
  }

  lemma NextRead(space: Space, i: nat)
    ensures CommandAt(space, i + 1) ==
            if space.Flash? then ToggleBit(CommandAt(space, i), HIGH_BYTE) else CommandAt(space, i)
  {
  }

  /** An idle device answers a read with the addressed cell, and reading changes nothing. */
  lemma ReadExec(t: Avr, space: Space, i: nat, hi: byte, lo: byte)
    requires t.frame == []
    ensures Settled(t, t.Elapsed(4).Exec(CommandAt(space, i), hi, lo, 0))
    ensures var r := t.Elapsed(3).(frame := [CommandAt(space, i), hi, lo]).Reply();
            var a16 := Join(hi, lo);
            t.busy == 0 ==> r == if space.Flash? then t.flash.cell(t.FlashAddress(a16) + i % 2) else t.eeprom.cell(a16)
  {
    hide Store.Put, Store.Commit, Store.Direct, Join;
  }

  function ReadCommand(space: Space): byte {
    if space.Flash? then 0x14 else 0x16
  }

  /** What CMD_SPI_MULTI clocks out: the host's bytes, followed by zeros. */
  function Padded(data: seq<byte>, n: nat): (r: seq<byte>)
    ensures |r| == n
  {
    if n == 0 then [] else Padded(data, n - 1) + [if n <= |data| then data[n - 1] else 0]
  }

  lemma {:induction false} PaddedAt(data: seq<byte>, n: nat, i: nat)
    requires i < n
    ensures Padded(data, n)[i] == if i < |data| then data[i] else 0
  {
    if i < n - 1 {
      PaddedAt(data, n - 1, i);
    }
  }

  /** One more exchanged byte. */
  lemma Exchanged(first: Avr, data: seq<byte>, n: nat, start: nat, b: byte)
    requires start <= n && b == if n < |data| then data[n] else 0
    ensures ShiftAll(first, Padded(data, n + 1)) == ShiftAll(first, Padded(data, n)).Shift(b)
    ensures Miso(first, Padded(data, n + 1))[start..] ==
            Miso(first, Padded(data, n))[start..] + [ShiftAll(first, Padded(data, n)).Reply()]
  {
    ShiftSnoc(first, Padded(data, n), b);
  }

  lemma NextLow(p: Pos, space: Space, start: word, i: nat)
    requires p.addr.low == LowAt(space, start, i)
    ensures p.Next(space, i).addr.low == LowAt(space, start, i + 1)
  {
    assert p.addr.Next().low == (p.addr.low + 1) % SEGMENT;
    if i % 2 == 0 {
      assert (i + 1) / 2 == i / 2;
    }
  }

  lemma WriteExec(t: Avr, space: Space, i: nat, hi: byte, lo: byte, b: byte)
    ensures var u := t.Exec(WriteOpcode(space, t.eeprom.page > 0, i), hi, lo, b);
            && u == t.(flash := u.flash, eeprom := u.eeprom, busy := u.busy, writes := u.writes, early := u.early)
            && u.flash == (if space.Flash? then t.flash.Put(t.FlashAddress(Join(hi, lo)) + i % 2, b) else t.flash)
            && u.eeprom == (if space.Flash? then t.eeprom else t.eeprom.Put(Join(hi, lo), b))
            && u.flash.page == t.flash.page && u.eeprom.page == t.eeprom.page
            && (t.busy == 0 ==> u.early == t.early)
            && (t.busy == 0 && (if space.Flash? then t.flash else t.eeprom).page > 0 ==> u.busy == 0)
  {
  }

  /** Byte `i` of the synchronisation bytes: what it is answered, and where it leaves the device. */
  lemma EchoStep(t: Avr, p: EnterParams, i: nat)
    requires |p.enterProgBytes| == 4 && i < 4 && t.frame == p.enterProgBytes[..i]
    ensures i < 3 || !p.Reads() ==> t.Reply() == p.Echo()[i]
    ensures var u := t.(frame := []).Elapsed(1);
            t.Shift(p.enterProgBytes[i]) ==
            if i < 3 then u.(frame := p.enterProgBytes[..i + 1])
            else u.Exec(p.enterProgBytes[0], p.enterProgBytes[1], p.enterProgBytes[2], p.enterProgBytes[3])
  {
    hide Avr.Exec;
    assert p.enterProgBytes[..i + 1] == p.enterProgBytes[..i] + [p.enterProgBytes[i]];
  }

  lemma SynchronisationEffect(t: Avr, p: EnterParams)
    requires |p.enterProgBytes| == 4 && t.frame == []
    ensures var op, hi, lo := p.enterProgBytes[0], p.enterProgBytes[1], p.enterProgBytes[2];
            var u := t.Exec(op, hi, lo, p.enterProgBytes[3]);
            && u.frame == [] && u.ext == (if op == 0x4D then lo else t.ext)
            && (op == 0xAC ==> u.flash == t.flash && u.eeprom == t.eeprom)
            && (u.enabled <==> t.enabled || (op == 0xAC && hi == 0x53))
  {
    hide Store.Put, Store.Commit, Store.Direct;
  }

  class IspEngine {
    var CurrentAddress: long
    var MustLoadExtendedAddress: bool
    const timer: Timer
    var target: Avr
    ghost var waits: seq<Wait>

    /** Programming mode is entered with address zero, on a device that has just been reset. */
    constructor (device: Avr, planned: seq<Episode>)
      requires device.ext == 0 && device.frame == []
      ensures target == device && fresh(timer) && timer.ticks == COMMAND_TIMEOUT_TICKS && timer.planned == planned
      ensures State().pos == Pos(Address(0, 0, 0), false, 0)
    {
      CurrentAddress, MustLoadExtendedAddress, target, waits := 0, false, device, [];
      timer := new Timer(planned);
    }

    ghost function State(): Link
      reads this
    {
      Link(Pos(Parts(CurrentAddress), MustLoadExtendedAddress, target.ext), target.flash, target.eeprom)
    }

    method TransferByte(b: byte) returns (r: byte)
      modifies this`target
      ensures target == old(target).Shift(b) && r == old(target).Reply()
    {
      r := target.Reply();
      target := target.Shift(b);
    }

    method SendByte(b: byte)
      modifies this`target
      ensures target == old(target).Shift(b)
    {
      var _ := TransferByte(b);
    }

    /** Four bytes that make up one instruction. */
    method SendInstruction(op: byte, hi: byte, lo: byte, arg: byte)
      requires target.frame == []
      modifies this`target
      ensures target == old(target).Elapsed(4).Exec(op, hi, lo, arg)
    {
      Instruction(target, op, hi, lo, arg);
      SendByte(op);
      SendByte(hi);
      SendByte(lo);
      SendByte(arg);
    }

    method LoadExtendedAddress()
      requires target.frame == []
      modifies this`target
      ensures Settled(old(target).(ext := (CurrentAddress / 0x1_0000) % 0x100), target)
    {
      SendInstruction(0x4D, 0x00, (CurrentAddress / 0x1_0000) % 0x100, 0x00);
    }

    /** One question to the device, which while busy answers with a value of its own. */
    method Ask(command: byte, address: word) returns (r: byte)
      requires target.frame == []
      requires command in {0x20, 0x28, 0xA0, 0xF0}
      modifies this`target
      ensures Settled(old(target), target)
      ensures old(target).busy > 3 ==> r == if command == 0xF0 then 1 else target.blank
      ensures old(target).busy <= 3 ==> target.busy == 0 && (command == 0xF0 ==> r == 0)
    {
      hide High, Low;
      Instruction(target, command, High(address), Low(address), 0x00);
      SendByte(command);
      SendByte(High(address));
      SendByte(Low(address));
      r := TransferByte(0x00);
    }

    method WaitWhileTargetBusy() returns (status: byte)
      requires target.frame == []
      modifies this`target, timer
      ensures Settled(old(target), target)
      ensures status == if timer.ticks > 0 then 0x00 else 0x81
      ensures status == STATUS_CMD_OK ==> target.busy == 0
      ensures After(timer.planned, 1) == old(After(timer.planned, 1))
      ensures RunsOut(old(Current(timer.planned))) ==> status != STATUS_CMD_OK
      ensures (StandsStill(old(Current(timer.planned))) && old(timer.ticks) > 0 && old(target).busy == 0) ==>
                status == STATUS_CMD_OK
    {
      var polling := true;
      ghost var asked := false;
      while polling
        invariant Settled(old(target), target) && After(timer.planned, 1) == old(After(timer.planned, 1))
        invariant !polling ==> target.busy == 0 || timer.ticks == 0
        invariant !asked ==> polling && timer.ticks == old(timer.ticks) && timer.planned == old(timer.planned)
        invariant asked && RunsOut(old(Current(timer.planned))) ==> timer.ticks == 0
        invariant asked && StandsStill(old(Current(timer.planned))) && old(target).busy == 0 ==>
                    !polling && timer.ticks == old(timer.ticks)
                    && Current(timer.planned) == old(Current(timer.planned))[1..]
        decreases polling, timer.ticks, timer.UntilTick()
      {
        var r := Ask(0xF0, 0x0000);
        timer.Elapse();
        polling := r % 2 == 1 && timer.ticks > 0;
        asked := true;
      }
      timer.Elapse();
      status := if timer.ticks > 0 then STATUS_CMD_OK else STATUS_RDY_BSY_TOUT;
    }

    /** Blocking delay, cut short only by the timeout; the device gets on with its work meanwhile. */
    method DelayMS(delayMS: byte) returns (ghost pause: byte, ghost waited: nat)
      modifies this`target, timer
      ensures Settled(old(target), target)
      ensures After(timer.planned, 1) == old(After(timer.planned, 1))
      ensures pause == delayMS && waited <= delayMS && (waited < delayMS ==> timer.ticks == 0)
    {
      var left := delayMS;
      pause, waited := delayMS, 0;
      while left > 0 && timer.ticks > 0
        invariant Settled(old(target), target) && After(timer.planned, 1) == old(After(timer.planned, 1))
        invariant waited + left == delayMS
        decreases left
      {
        left := left - 1;
        waited := waited + 1;
        var done: nat :| done >= 0;
        target := target.Elapsed(done);
        timer.Elapse();
      }
    }

    method ChangeTargetResetLine(active: bool) returns (ghost e: Event)
      modifies this`target
      ensures target == old(target).Reset() && e == ResetLine(active)
    {
      target := target.Reset();
      e := ResetLine(active);
    }

    /** The target is released from reset, and reset again. */
    method PulseReset(p: EnterParams) returns (ghost events: seq<Event>)
      requires target.frame == []
      modifies this`target, timer
      ensures Settled(old(target).Reset(), target) && events == p.Retry()
    {
      ghost var line := ChangeTargetResetLine(false);
      ghost var released, waited := DelayMS(p.pinStabDelayMS);
      events := [line, Paused(released)];
      line := ChangeTargetResetLine(true);
      ghost var held, more := DelayMS(p.pinStabDelayMS);
      events := events + [line, Paused(held)];
    }

    /** The attempts, up to the first whose polled byte is accepted. */
    method Attempts(p: EnterParams)
      returns (status: byte, ghost attempts: nat, ghost response: seq<byte>, ghost polled: byte,
               ghost events: seq<Event>)
      requires |p.enterProgBytes| == 4 && target.frame == [] && target.ext == 0 && !target.enabled
      modifies this`target, timer
      ensures target.frame == [] && attempts <= p.synchLoops && (attempts > 0 ==> Answers(p, response, polled))
      ensures status == STATUS_CMD_FAILED && attempts < p.synchLoops ==> timer.ticks == 0
      ensures status == if attempts > 0 && p.Accepts(polled) then 0x00 else 0xC0
      ensures status == STATUS_CMD_OK && 0 < p.pollIndex && (p.pollIndex <= 3 || (p.pollIndex == 4 && !p.Reads())) ==>
                attempts == 1
      ensures status == STATUS_CMD_OK && p.pollIndex == 0 ==> attempts == 1
      ensures target.ext == if status == STATUS_CMD_OK && p.enterProgBytes[0] == 0x4D then p.enterProgBytes[2] else 0
      ensures p.enterProgBytes[0] == 0xAC ==>
                target.flash == old(target).flash && target.eeprom == old(target).eeprom
      ensures target.enabled <==>
              status == STATUS_CMD_OK && p.enterProgBytes[0] == 0xAC && p.enterProgBytes[1] == 0x53
      ensures events == p.Tries(if status == STATUS_CMD_OK then attempts - 1 else attempts)
                        + if status == STATUS_CMD_OK then p.Attempt(4) else []
    {
      hide Avr.Exec, EnterParams.Attempt, EnterParams.Retry, Answers, EnterParams.Reads;
      status, attempts, response, polled, events := STATUS_CMD_FAILED, 0, [], 0, [];
      var left := p.synchLoops;
      while left > 0 && timer.ticks > 0
        invariant target.frame == [] && target.ext == 0 && !target.enabled && attempts + left == p.synchLoops
        invariant attempts > 0 ==> Answers(p, response, polled) && !p.Accepts(polled)
        invariant events == p.Tries(attempts)
        invariant p.enterProgBytes[0] == 0xAC ==>
                    target.flash == old(target).flash && target.eeprom == old(target).eeprom
        decreases left
      {
        left := left - 1;
        var responseBytes;
        ghost var before, sent;
        responseBytes, before, sent := Synchronise(p);
        events := events + sent;
        var looked: byte := *;
        if 0 < p.pollIndex <= 4 {
          looked := responseBytes[p.pollIndex - 1];
        }
        SameAnswer(p, response, polled, responseBytes, looked);
        attempts, response, polled := attempts + 1, responseBytes, looked;
        if p.pollIndex == 0 || looked == p.pollValue {
          return STATUS_CMD_OK, attempts, response, polled, events;
        }
        sent := PulseReset(p);
        events := events + sent;
      }
    }

    /** CMD_ENTER_PROGMODE_ISP. Whatever went before, the address globals and the device agree afterwards, although the
        flag for a pending load is not touched, unless the host's synchronisation bytes happen to be a load of the
        register themselves. `polled` is the answer byte that was looked at last, on the stack behind the answer for
        indexes beyond it. */
    method EnterISPMode(p: EnterParams)
      returns (status: byte, ghost attempts: nat, ghost response: seq<byte>, ghost polled: byte,
               ghost events: seq<Event>)
      requires |p.enterProgBytes| == 4
      modifies this`CurrentAddress, this`target, timer
      ensures target.frame == [] && CurrentAddress == 0
      ensures attempts <= p.synchLoops && (attempts > 0 ==> Answers(p, response, polled))
      ensures status == STATUS_CMD_FAILED && attempts < p.synchLoops ==> timer.ticks == 0
      ensures status == if attempts > 0 && p.Accepts(polled) then 0x00 else 0xC0
      ensures (p.pollIndex <= 3 || (p.pollIndex == 4 && !p.Reads())) ==>
                && (status == STATUS_CMD_OK <==>
                    attempts > 0 && (p.pollIndex == 0 || p.Echo()[p.pollIndex - 1] == p.pollValue))
                && (status == STATUS_CMD_OK ==> attempts == 1)
      ensures State().pos.Coherent() <==>
                || MustLoadExtendedAddress
                || p.enterProgBytes[0] != 0x4D || p.enterProgBytes[2] == 0
                || attempts == 0 || !p.Accepts(polled)
      ensures p.enterProgBytes[0] == 0xAC ==>
                target.flash == old(target).flash && target.eeprom == old(target).eeprom
      ensures target.enabled <==>
              status == STATUS_CMD_OK && p.enterProgBytes[0] == 0xAC && p.enterProgBytes[1] == 0x53
      ensures events == p.Course(if status == STATUS_CMD_OK then attempts - 1 else attempts)
                        + if status == STATUS_CMD_OK then p.Attempt(4) else []
    {
      hide Avr.Exec, EnterParams.Attempt, EnterParams.Tries;
      CurrentAddress := 0;
      ghost var pause, waited := DelayMS(p.executionDelayMS);
      ghost var line := ChangeTargetResetLine(true);
      ghost var first := [Paused(pause), line];
      ghost var held, more := DelayMS(p.pinStabDelayMS);
      first := first + [Paused(held)];
      status, attempts, response, polled, events := Attempts(p);
      events := first + events;
    }

    /** One attempt: the four synchronisation bytes go out as one instruction, to the device as it is some time later,
        and what it answers. */
    method Synchronise(p: EnterParams)
      returns (responseBytes: seq<byte>, ghost before: Avr, ghost events: seq<Event>)
      requires |p.enterProgBytes| == 4 && target.frame == [] && target.ext == 0
      modifies this`target, timer
      ensures Settled(old(target), before)
      ensures target == before.Exec(p.enterProgBytes[0], p.enterProgBytes[1], p.enterProgBytes[2], p.enterProgBytes[3])
      ensures target.frame == [] && |responseBytes| == 4
      ensures responseBytes[..3] == p.Echo()[..3] && (!p.Reads() ==> responseBytes == p.Echo())
      ensures target.ext == if p.enterProgBytes[0] == 0x4D then p.enterProgBytes[2] else 0
      ensures p.enterProgBytes[0] == 0xAC ==>
                target.flash == old(target).flash && target.eeprom == old(target).eeprom
      ensures target.enabled <==>
              old(target).enabled || (p.enterProgBytes[0] == 0xAC && p.enterProgBytes[1] == 0x53)
      ensures events == p.Attempt(4)
    {
      hide Avr.Shift, Avr.Reply, Avr.Exec, EnterParams.Echo, EnterParams.Reads;
      responseBytes, before, events := [], target, [];
      var i := 0;
      while i < 4
        invariant i <= 4 && |responseBytes| == i && Settled(old(target), before)
        invariant i < 4 ==> target == before.(frame := p.enterProgBytes[..i])
        invariant forall k | 0 <= k < i && (k < 3 || !p.Reads()) :: responseBytes[k] == p.Echo()[k]
        invariant events == p.Attempt(i)
        invariant i == 4 ==> target == before.Exec(p.enterProgBytes[0], p.enterProgBytes[1], p.enterProgBytes[2],
                                                   p.enterProgBytes[3])
      {
        ghost var pause, waited := DelayMS(p.byteDelay);
        events := events + [Paused(pause), Sent(p.enterProgBytes[i])];
        before := target.(frame := []).Elapsed(1);
        EchoStep(target, p, i);
        var r := TransferByte(p.enterProgBytes[i]);
        responseBytes := responseBytes + [r];
        i := i + 1;
      }
      SynchronisationEffect(before, p);
    }

    method WaitForProgComplete(mode: byte, poll: Poll, pollValue: byte, delayMS: byte) returns (status: byte)
      requires target.frame == []
      requires poll.command in {0x20, 0x28, 0xA0}
      modifies this`target, timer, this`waits
      ensures Settled(old(target), target)
      ensures timer.ticks == COMMAND_TIMEOUT_TICKS && timer.planned == old(After(timer.planned, 1))
      ensures waits ==
              old(waits) + [Wait(WaitMethod(mode), poll, PauseOf(WaitMethod(mode), delayMS), status == STATUS_CMD_OK)]
      ensures status == StatusOf(waits[|old(waits)|])
      ensures !Fallible(WaitMethod(mode)) ==> status == STATUS_CMD_OK
      ensures Asked(target.blank, pollValue, waits[|old(waits)|]) ==> target.busy == 0
      ensures Fallible(WaitMethod(mode)) && RunsOut(old(Current(timer.planned))) ==> status != STATUS_CMD_OK
      ensures (StandsStill(old(Current(timer.planned))) && old(timer.ticks) > 0
               && Obliges(old(target), WaitMethod(mode), pollValue)) ==> status == STATUS_CMD_OK
    {
      status := STATUS_CMD_OK;
      ghost var pause, waited: nat := 0, 0;
      match WaitMethod(mode) {
      case Delayed =>
        pause, waited := DelayMS(delayMS);
      case ValuePoll =>
        status := WaitWhileValue(poll, pollValue);
      case ReadyBusy =>
        status := WaitWhileTargetBusy();
      case NotAtAll =>
      }
      timer.Rearm();
      waits := waits + [Wait(WaitMethod(mode), poll, pause, status == STATUS_CMD_OK)];
    }

    /** The value polling loop of WaitForProgComplete. */
    method WaitWhileValue(poll: Poll, pollValue: byte) returns (status: byte)
      requires target.frame == []
      requires poll.command in {0x20, 0x28, 0xA0}
      modifies this`target, timer
      ensures Settled(old(target), target) && After(timer.planned, 1) == old(After(timer.planned, 1))
      ensures status == if timer.ticks > 0 then 0x00 else 0x80
      ensures status == STATUS_CMD_OK && pollValue == target.blank ==> target.busy == 0
      ensures RunsOut(old(Current(timer.planned))) ==> status != STATUS_CMD_OK
      ensures (StandsStill(old(Current(timer.planned))) && old(timer.ticks) > 0
               && Obliges(old(target), ValuePoll, pollValue)) ==> status == STATUS_CMD_OK
    {
      status := STATUS_CMD_OK;
      var polling := true;
      ghost var asked := false;
      while polling
        invariant Settled(old(target), target) && After(timer.planned, 1) == old(After(timer.planned, 1))
        invariant !polling ==> timer.ticks == 0 || (pollValue == target.blank ==> target.busy == 0)
        invariant !asked ==> polling && timer.ticks == old(timer.ticks) && timer.planned == old(timer.planned)
                             && target == old(target)
        invariant asked && RunsOut(old(Current(timer.planned))) ==> timer.ticks == 0
        invariant (asked && StandsStill(old(Current(timer.planned))) && Obliges(old(target), ValuePoll, pollValue)) ==>
                    !polling && timer.ticks == old(timer.ticks)
                    && Current(timer.planned) == old(Current(timer.planned))[1..]
        decreases polling, timer.ticks, timer.UntilTick()
      {
        var r := Ask(poll.command, poll.address);
        timer.Elapse();
        polling := r == pollValue && timer.ticks > 0;
        asked := true;
      }
      timer.Elapse();
      if timer.ticks == 0 {
        status := STATUS_CMD_TOUT;
      }
    }

    /** CMD_LOAD_ADDRESS. */
    method LoadAddress(address: long)
      modifies this`CurrentAddress, this`MustLoadExtendedAddress
      ensures State() == Do(old(State()), IspLink.LoadAddress(Parts(address)))
    {
      CurrentAddress := address;
      if CurrentAddress >= 0x8000_0000 {
        MustLoadExtendedAddress := true;
      }
    }

    method SyncExtendedAddress()
      requires target.frame == []
      modifies this`target, this`MustLoadExtendedAddress
      ensures State() == old(State()).(pos := old(State()).pos.Synced())
      ensures Settled(old(target).(ext := target.ext), target)
    {
      if MustLoadExtendedAddress {
        LoadExtendedAddress();
        MustLoadExtendedAddress := false;
      }
    }

    /** One data byte goes to the device, with the address that belongs to it. */
    method SendWrite(space: Space, command: byte, i: nat, b: byte)
      requires target.frame == []
      requires command == WriteOpcode(space, target.eeprom.page > 0, i)
      modifies this`target, this`MustLoadExtendedAddress
      ensures State() == old(State()).Stored(space, i, b)
      ensures target.frame == [] && SameDevice(old(target), target)
      ensures old(target).busy == 0 ==> target.early == old(target).early
      ensures old(target).busy == 0 && PageOf(old(target), space) > 0 ==> target.busy == 0
    {
      hide Avr.Exec, WriteOpcode, Join, High, Low;
      SyncExtendedAddress();
      JoinWord(CurrentAddress);
      WriteExec(target.Elapsed(4), space, i, High(CurrentAddress), Low(CurrentAddress), b);
      SendInstruction(command, High(CurrentAddress), Low(CurrentAddress), b);
    }

    /** Address bookkeeping after byte `i` of a command. */
    method Advance(space: Space, i: nat)
      modifies this`CurrentAddress, this`MustLoadExtendedAddress
      ensures State() == old(State()).(pos := old(State()).pos.Next(space, i))
    {
      PartsNext(CurrentAddress);
      if i % 2 == 1 || space.Eeprom? {
        CurrentAddress := (CurrentAddress + 1) % 0x1_0000_0000;
        if space.Flash? && CurrentAddress % 0x1_0000 == 0 {
          MustLoadExtendedAddress := true;
        }
      }
    }

    /** The polling address and read opcode after byte `i` of a command has been sent: the first byte that differs
        from the poll value is kept, but address zero counts as no address. */
    method ChoosePoll(space: Space, p: WriteParams, i: nat, poll: Poll, ghost start: word) returns (next: Poll)
      requires i < |p.data| && CurrentAddress % SEGMENT == LowAt(space, start, i)
      requires poll.command in {ReadOpcode(space), CommandAt(space, 1)}
      ensures next == Update(space, start, p, poll, i)
      ensures next.command in {ReadOpcode(space), CommandAt(space, 1)}
    {
      next := poll;
      if next.address == 0 && p.data[i] != p.PollValue(space) {
        var command;
        if i % 2 == 1 && space.Flash? {
          command := SetBit(next.command, HIGH_BYTE);
        } else {
          command := ClearBit(next.command, HIGH_BYTE);
        }
        next := Poll(CurrentAddress % SEGMENT, command);
      }
    }

    /** Wait for one byte in word mode; without a usable polling address the wait becomes a timed delay. */
    method WaitForWord(p: WriteParams, poll: Poll, pollValue: byte) returns (status: byte)
      requires target.frame == []
      requires poll.command in {0x20, 0x28, 0xA0}
      modifies this`target, timer, this`waits
      ensures Settled(old(target), target)
      ensures timer.ticks == COMMAND_TIMEOUT_TICKS && timer.planned == old(After(timer.planned, 1))
      ensures var how := WaitMethod(WordMode(p.mode, poll.address));
              waits == old(waits) + [Wait(how, poll, PauseOf(how, p.delayMS), status == STATUS_CMD_OK)]
      ensures status == StatusOf(waits[|old(waits)|])
      ensures !Fallible(WaitMethod(WordMode(p.mode, poll.address))) ==> status == STATUS_CMD_OK
      ensures Asked(target.blank, pollValue, waits[|old(waits)|]) ==> target.busy == 0
      ensures Fallible(WaitMethod(WordMode(p.mode, poll.address))) && RunsOut(old(Current(timer.planned))) ==>
                status != STATUS_CMD_OK
    {
      var mode := p.mode;
      if poll.address == 0 && !Has(mode, WORD_READYBUSY) {
        TimedInstead(mode, WORD_VALUE, WORD_TIMEDELAY);
        mode := SetBit(ClearBit(mode, WORD_VALUE), WORD_TIMEDELAY);
      }
      status := WaitForProgComplete(mode, poll, pollValue, p.delayMS);
    }

    /** Wait for a committed page. */
    method WaitForPage(p: WriteParams, poll: Poll, pollValue: byte) returns (status: byte)
      requires target.frame == []
      requires poll.command in {0x20, 0x28, 0xA0}
      modifies this`target, timer, this`waits
      ensures Settled(old(target), target)
      ensures var how := WaitMethod(PageMode(p.mode, poll.address));
              waits == old(waits) + [Wait(how, poll, PauseOf(how, p.delayMS), status == STATUS_CMD_OK)]
      ensures status == StatusOf(waits[|old(waits)|])
      ensures !Fallible(WaitMethod(PageMode(p.mode, poll.address))) ==> status == STATUS_CMD_OK
      ensures Asked(target.blank, pollValue, waits[|old(waits)|]) ==> target.busy == 0
      ensures (StandsStill(old(Current(timer.planned))) && old(timer.ticks) > 0
               && Obliges(old(target), WaitMethod(PageMode(p.mode, poll.address)), pollValue)) ==>
                status == STATUS_CMD_OK
    {
      var mode := p.mode;
      if Has(mode, PAGED_VALUE) && poll.address == 0 {
        TimedInstead(mode, PAGED_VALUE, PAGED_TIMEDELAY);
        mode := SetBit(ClearBit(mode, PAGED_VALUE), PAGED_TIMEDELAY);
      }
      status := WaitForProgComplete(mode, poll, pollValue, p.delayMS);
    }

    /** One byte of a block: load it, choose what to poll, and in word mode wait for it. */
    method WriteByte(space: Space, p: WriteParams, i: nat, command: byte, poll: Poll, ghost start: word)
      returns (status: byte, next: Poll, ghost log: seq<Wait>)
      requires target.frame == [] && i < |p.data|
      requires command == WriteOpcode(space, target.eeprom.page > 0, i)
      requires Parts(CurrentAddress).low == LowAt(space, start, i)
      requires poll == PollAfter(space, start, p, i) && poll.command in {ReadOpcode(space), CommandAt(space, 1)}
      modifies this`target, this`MustLoadExtendedAddress, timer, this`waits
      ensures target.frame == [] && SameDevice(old(target), target)
      ensures State() == old(State()).Stored(space, i, p.data[i])
      ensures next == if status == STATUS_CMD_OK then PollAfter(space, start, p, i + 1) else PollAt(space, start, p, i)
      ensures next.command in {ReadOpcode(space), CommandAt(space, 1)}
      ensures waits == old(waits) + log
      ensures p.Paged() ==> status == STATUS_CMD_OK && log == [] && timer.ticks == old(timer.ticks)
      ensures !p.Paged() ==>
                && log == [WordWait(space, start, p, i, status == STATUS_CMD_OK)] && status == StatusOf(log[0])
                && (status != STATUS_CMD_OK ==> Fallible(WordMethod(space, start, p, i)))
                && (RunsOut(old(Current(timer.planned))) && Fallible(WordMethod(space, start, p, i)) ==>
                      status != STATUS_CMD_OK)
                && timer.ticks == COMMAND_TIMEOUT_TICKS
      ensures timer.planned == old(After(timer.planned, |log|))
      ensures Quiet(old(target)) ==> !target.early
      ensures (Quiet(old(target)) && AllAsked(target.blank, p.PollValue(space), log)
               && (p.Paged() ==> PageOf(old(target), space) > 0)) ==> Quiet(target)
    {
      hide Avr.Exec, Has, Steps, PageMode;
      SendWrite(space, command, i, p.data[i]);
      next := ChoosePoll(space, p, i, poll, start);
      status, log := STATUS_CMD_OK, [];
      if !p.Paged() {
        status := WaitForWord(p, next, p.PollValue(space));
        log := [waits[|waits| - 1]];
        if status == STATUS_CMD_OK {
          next := next.(address := 0);
        }
      }
    }

    /** The next byte's address and opcode. */
    method StepOn(space: Space, i: nat, command: byte, ghost start: word) returns (next: byte)
      requires command == WriteOpcode(space, target.eeprom.page > 0, i)
      requires Parts(CurrentAddress).low == LowAt(space, start, i)
      modifies this`CurrentAddress, this`MustLoadExtendedAddress
      ensures State() == old(State()).(pos := old(State()).pos.Next(space, i))
      ensures next == WriteOpcode(space, target.eeprom.page > 0, i + 1)
      ensures Parts(CurrentAddress).low == LowAt(space, start, i + 1)
    {
      NextLow(State().pos, space, start, i);
      NextOpcode(space, target.eeprom.page > 0, i);
      next := command;
      if space.Flash? {
        next := ToggleBit(command, HIGH_BYTE);
      }
      Advance(space, i);
    }

    /** The byte loop of a block, up to the first byte whose wait fails. */
    method WriteBlock(space: Space, p: WriteParams) returns (status: byte, done: nat, poll: Poll, ghost log: seq<Wait>)
      requires target.frame == []
      requires p.commands == Opcodes(space, target.eeprom.page > 0)
      modifies this, timer
      ensures target.frame == [] && done <= |p.data| && SameDevice(old(target), target)
      ensures State() == old(State()).Programmed(space, p.data, done, false)
      ensures status == STATUS_CMD_OK <==> done == |p.data|
      ensures status == if log == [] then STATUS_CMD_OK else StatusOf(log[|log| - 1])
      ensures waits == old(waits) + log && WordWaits(space, old(State()).pos.addr.low, p, done, log)
      ensures poll == LastPoll(space, old(State()).pos.addr.low, p, done)
      ensures poll.command in {0x20, 0x28, 0xA0}
      ensures timer.planned == old(After(timer.planned, |log|)) && (old(timer.ticks) > 0 ==> timer.ticks > 0)
      ensures !p.Paged() ==> Outlasted(space, old(State()).pos.addr.low, p, old(timer.planned), done)
      ensures Undisturbed(space, p, old(target), target, log)
    {
      hide Undisturbed, WriteOpcode, Has, Steps, Parts, Link.Stored, Link.Write, Pos.Next, AllAsked, EarlierAsked,
           PollAfter, PollAt, Unbroken, WordWaits, Outlasted, WordWait, WordMethod, WriteParams.Paged, After, Current,
           StatusOf, Fallible, RunsOut, WriteParams.PollValue, LowAt, LastPoll, Link.Programmed, ReadOpcode, CommandAt;
      ghost var start := Parts(CurrentAddress).low;
      ghost var before := State();
      BlockStart(space, target.eeprom.page > 0, start, p, timer.planned);
      UndisturbedYet(space, p, target);
      WriteNone(before, space);
      PagedBit(p);
      var command := p.commands[0];
      status, poll, log := STATUS_CMD_OK, Poll(0, p.commands[2]), [];
      done := 0;
      while done < |p.data|
        invariant done <= |p.data| && status == STATUS_CMD_OK
        invariant target.frame == [] && SameDevice(old(target), target)
        invariant command == WriteOpcode(space, target.eeprom.page > 0, done)
        invariant State() == before.Write(space, p.data[..done])
        invariant Parts(CurrentAddress).low == LowAt(space, start, done)
        invariant poll == PollAfter(space, start, p, done) && poll.command in {ReadOpcode(space), CommandAt(space, 1)}
        invariant waits == old(waits) + log && |log| == (if p.Paged() then 0 else done)
        invariant Unbroken(space, start, p, log)
        invariant timer.planned == old(After(timer.planned, |log|)) && (old(timer.ticks) > 0 ==> timer.ticks > 0)
        invariant !p.Paged() ==> Outlasted(space, start, p, old(timer.planned), done)
        invariant Undisturbed(space, p, old(target), target, log)
      {
        ghost var one, was := [], target;
        status, poll, one := WriteByte(space, p, done, command, poll, start);
        UndisturbedNext(space, p, old(target), was, target, log, one);
        NextWait(space, start, p, old(timer.planned), log, done, one, status == STATUS_CMD_OK);
        log := log + one;
        if status != STATUS_CMD_OK {
          BlockEnds(before, space, start, p, done, poll);
          return;
        }
        command := StepOn(space, done, command, start);
        WriteSnoc(before, space, p.data, done);
        done := done + 1;
      }
      BlockEnds(before, space, start, p, done, poll);
      UnbrokenEnds(space, start, p, log);
      UnbrokenStatus(space, start, p, log);
    }

    /** Commit the page a block was loaded for, and notice when the address has reached a 64K-word boundary. */
    method CommitPage(space: Space, command: byte, start: word)
      requires target.frame == []
      requires command == Opcodes(space, target.eeprom.page > 0)[1]
      modifies this`target, this`MustLoadExtendedAddress
      ensures State() == old(State()).Commit(space, start)
      ensures target.frame == [] && SameDevice(old(target), target)
      ensures exists k: nat :: target.busy == target.latency(k)
      ensures Quiet(old(target)) ==> !target.early
    {
      hide Avr.Exec, High, Low, Opcodes;
      CommitExec(target.Elapsed(4), space, start);
      SendInstruction(command, High(start), Low(start), 0x00);
      if space.Flash? && CurrentAddress % 0x1_0000 == 0 {
        MustLoadExtendedAddress := true;
      }
    }

    /** CMD_PROGRAM_FLASH_ISP and CMD_PROGRAM_EEPROM_ISP. `done` counts the bytes that were completed, `log` lists
        the waits for the device. */
    method ProgramMemory(space: Space, p: WriteParams) returns (status: byte, ghost done: nat, ghost log: seq<Wait>)
      requires target.frame == []
      requires p.bytesToWrite <= 256 ==> |p.data| == p.bytesToWrite
      requires p.commands == Opcodes(space, target.eeprom.page > 0)
      modifies this, timer
      ensures target.frame == [] && waits == old(waits) + log
      ensures p.bytesToWrite > 256 ==>
                && status == 0xC0 && State() == old(State()) && target == old(target)
                && done == 0 && log == []
      ensures p.bytesToWrite <= 256 ==>
                && done <= |p.data|
                && State() == Do(old(State()), Program(space, p.data, done, p.Commits()))
                && Reported(space, old(State()).pos.addr.low, p, status, done, log)
                && (AllDecidable(space, old(State()).pos.addr.low, p, log) <==>
                    !Mismatched(p.mode) || NameableOne(space, old(State()).pos.addr.low, p, done == |p.data|))
      ensures p.bytesToWrite <= 256 && p.Commits() && AsksReady(p.mode) && status == STATUS_CMD_OK ==> target.busy == 0
      ensures (Quiet(old(target)) && AllAsked(target.blank, p.PollValue(space), log)
               && (p.Paged() ==> p.Commits() || PageOf(old(target), space) > 0)) ==> target.busy == 0
      ensures (Quiet(old(target)) && EarlierAsked(target.blank, p.PollValue(space), log)
               && (p.Paged() ==> PageOf(old(target), space) > 0)) ==> !target.early
      ensures p.bytesToWrite <= 256 && !p.Paged() ==>
                Outlasted(space, old(State()).pos.addr.low, p, old(timer.planned), done)
      ensures (p.bytesToWrite <= 256 && p.Commits() && old(timer.ticks) > 0
               && StandsStill(EpisodeAt(old(timer.planned), Waited(p, done)))
               && Obliging(old(target), PageMethod(space, old(State()).pos.addr.low, p, done), p.PollValue(space))) ==>
                status == STATUS_CMD_OK
    {
      hide Has, Steps, Link.Write, Link.Commit, Completion, LowAt, AllAsked, EarlierAsked, WordWaits, Outlasted,
           LastPoll, PageMode, WriteParams.Paged, After, Current, Reported, AllDecidable, NameableOne, Mismatched,
           StandsStill, Obliging, Obliges, WaitMethod;
      if p.bytesToWrite > 256 {
        return STATUS_CMD_FAILED, 0, [];
      }
      ghost var before := State();
      var pageStart := CurrentAddress % 0x1_0000;
      var n, poll;
      status, n, poll, log := WriteBlock(space, p);
      done := n;
      if p.Commits() {
        CommitState(before, space, p.data, done);
        CommitPage(space, p.commands[1], pageStart);
        PageMethods(p.mode, poll.address);
        if Obliging(old(target), WaitMethod(PageMode(p.mode, poll.address)), p.PollValue(space)) {
          ObligesNow(old(target), target, WaitMethod(PageMode(p.mode, poll.address)), p.PollValue(space));
        }
        status := WaitForPage(p, poll, p.PollValue(space));
        ghost var w := waits[|waits| - 1];
        EarlierThan(target.blank, p.PollValue(space), log, w);
        PageReported(space, before.pos.addr.low, p, status, done, log, w);
        log := log + [w];
      } else {
        BlockReported(space, before.pos.addr.low, p, status, done, log);
      }
      DecidableExactly(space, before.pos.addr.low, p, status, done, log);
    }

    /** One byte of a read command. */
    method ReadByte(space: Space, i: nat, command: byte) returns (r: byte)
      requires target.frame == [] && command == CommandAt(space, i)
      modifies this`target, this`MustLoadExtendedAddress
      ensures State() == old(State()).(pos := old(State()).pos.Synced())
      ensures target.frame == [] && target.busy <= old(target).busy
      ensures old(target).busy == 0 ==> r == old(State()).StoreOf(space).cell(old(State()).pos.Synced().Hit(space, i))
    {
      hide Avr.Exec, Avr.Reply, High, Low, Join, CommandAt;
      SyncExtendedAddress();
      JoinWord(CurrentAddress);
      ReadExec(target, space, i, High(CurrentAddress), Low(CurrentAddress));
      Instruction(target, command, High(CurrentAddress), Low(CurrentAddress), 0);
      SendByte(command);
      SendByte(High(CurrentAddress));
      SendByte(Low(CurrentAddress));
      r := TransferByte(0x00);
    }

    /** The byte loop of a read command. */
    method ReadData(space: Space, bytesToRead: word, endpoint: DataEndpoint) returns (ghost data: seq<byte>)
      requires target.frame == [] && endpoint.Open()
      modifies this`CurrentAddress, this`MustLoadExtendedAddress, this`target, endpoint
      ensures target.frame == [] && |data| == bytesToRead
      ensures State() == old(State()).(pos := old(State()).pos.Skip(space, bytesToRead))
      ensures old(target).busy == 0 ==> data == old(State()).Read(space, bytesToRead)
      ensures endpoint.Open() && endpoint.Payload() == old(endpoint.Payload()) + data
    {
      hide CommandAt, DataEndpoint.Open, DataEndpoint.Payload, ToggleBit, Pos.Synced, Pos.Next, Pos.Hit;
      ghost var before := State();
      data := [];
      var command := ReadOpcode(space);
      OpcodeStart(space);
      var i := 0;
      while i < bytesToRead
        invariant i <= bytesToRead && |data| == i
        invariant target.frame == [] && target.busy <= old(target).busy
        invariant State() == before.(pos := before.pos.Skip(space, i))
        invariant command == CommandAt(space, i)
        invariant endpoint.Open() && endpoint.Payload() == old(endpoint.Payload()) + data
        invariant old(target).busy == 0 ==> data == before.Read(space, i)
      {
        var r := ReadByte(space, i, command);
        endpoint.WriteData(r);
        data := data + [r];
        NextRead(space, i);
        if space.Flash? {
          command := ToggleBit(command, HIGH_BYTE);
        }
        Advance(space, i);
        i := i + 1;
      }
    }

    /** CMD_READ_FLASH_ISP and CMD_READ_EEPROM_ISP: the reply packets, and the memory bytes they carry. */
    method ReadMemory(space: Space, bytesToRead: word) returns (reply: seq<seq<byte>>, ghost data: seq<byte>)
      requires target.frame == []
      modifies this`CurrentAddress, this`MustLoadExtendedAddress, this`target
      ensures target.frame == [] && |data| == bytesToRead
      ensures State() == old(State()).(pos := old(State()).pos.Skip(space, bytesToRead))
      ensures old(target).busy == 0 ==> data == old(State()).Read(space, bytesToRead)
      ensures Framed(reply, [if space.Flash? then 0x14 else 0x16, 0x00] + data + [0x00])
    {
      var endpoint := new DataEndpoint();
      endpoint.Write8(ReadCommand(space));
      endpoint.Write8(STATUS_CMD_OK);
      assert endpoint.Payload() == [ReadCommand(space), STATUS_CMD_OK];
      data := ReadData(space, bytesToRead, endpoint);
      endpoint.Close(STATUS_CMD_OK);
      reply := endpoint.packets;
    }

    /** A host that programs an erased page and reads it back: when the engine reports OK after asking the device
        whether it is ready, the reply carries the data, and no other cell has changed. */
    method ProgramAndReadBack(a: long, p: WriteParams)
      returns (status: byte, reply: seq<seq<byte>>)
      requires target.frame == [] && p.data != [] && |p.data| == p.bytesToWrite <= 256
      requires p.commands == Opcodes(Flash, target.eeprom.page > 0)
      requires p.mode >= COMMIT_PAGE && Has(p.mode, PAGED_WRITES) && AsksReady(p.mode)
      requires var at := Parts(a);
               && at.Extended() && Fits(at, Flash, |p.data|) && at.low + (|p.data| - 1) / 2 < SEGMENT
               && target.flash.page > 0 && target.flash.Clean() && !target.flash.autoErase
               && Offset(2 * at.Cursor(), target.flash.page) + |p.data| <= target.flash.page
               && forall c | 2 * at.Cursor() <= c < 2 * at.Cursor() + |p.data| :: target.flash.cell(c) == 0xFF
      modifies this, timer
      ensures status == 0x00 ==> Framed(reply, [0x14, 0x00] + p.data + [0x00])
      ensures var start := 2 * Parts(a).Cursor();
              forall c: nat | !(start <= c < start + |p.data|) :: target.flash.cell(c) == old(target).flash.cell(c)
    {
      hide Link.Programmed, Link.Read, Store.Clean, Fits, Completion, Has, AllDecidable, AllAsked, Obliging;
      PageRoundTrip(State(), Parts(a), p.data);
      LoadAddress(a);
      ghost var done, log, data;
      status, done, log := ProgramMemory(Flash, p);
      LoadAddress(a);
      reply, data := ReadMemory(Flash, p.bytesToWrite);
    }

    /** The bytes of CMD_SPI_MULTI before the first one whose answer the host wants. */
    method SendLead(txData: seq<byte>, rxStartAddr: byte)
      modifies this`target
      ensures target == ShiftAll(old(target), Padded(txData, rxStartAddr))
    {
      hide Avr.Shift, Avr.Reply;
      var currTxPos := 0;
      while currTxPos < rxStartAddr
        invariant currTxPos <= rxStartAddr
        invariant target == ShiftAll(old(target), Padded(txData, currTxPos))
      {
        Exchanged(old(target), txData, currTxPos, 0, if currTxPos < |txData| then txData[currTxPos] else 0);
        if currTxPos < |txData| {
          SendByte(txData[currTxPos]);
        } else {
          SendByte(0);
        }
        currTxPos := currTxPos + 1;
      }
    }

    /** The bytes whose answers the host wants. `lead` is what was sent before them. */
    method Exchange(txData: seq<byte>, rxBytes: byte, rxStartAddr: byte, endpoint: DataEndpoint, ghost first: Avr)
      returns (ghost got: seq<byte>)
      requires target == ShiftAll(first, Padded(txData, rxStartAddr)) && endpoint.Open()
      modifies this`target, endpoint
      ensures target == ShiftAll(first, Padded(txData, rxStartAddr + rxBytes))
      ensures got == Miso(first, Padded(txData, rxStartAddr + rxBytes))[rxStartAddr..]
      ensures endpoint.Open() && endpoint.Payload() == old(endpoint.Payload()) + got
    {
      hide Avr.Shift, Avr.Reply, DataEndpoint.Open, DataEndpoint.Payload, ShiftAll, Miso, Padded;
      var currTxPos: nat := rxStartAddr;
      var currRxPos := 0;
      got := [];
      while currRxPos < rxBytes
        invariant currRxPos <= rxBytes
        invariant currTxPos == rxStartAddr + currRxPos || |txData| <= currTxPos <= rxStartAddr + currRxPos
        invariant target == ShiftAll(first, Padded(txData, rxStartAddr + currRxPos))
        invariant got == Miso(first, Padded(txData, rxStartAddr + currRxPos))[rxStartAddr..]
        invariant endpoint.Open() && endpoint.Payload() == old(endpoint.Payload()) + got
      {
        ghost var n := rxStartAddr + currRxPos;
        Exchanged(first, txData, n, rxStartAddr, if n < |txData| then txData[n] else 0);
        var r;
        if currTxPos < |txData| {
          r := TransferByte(txData[currTxPos]);
          currTxPos := currTxPos + 1;
        } else {
          r := TransferByte(0);
        }
        endpoint.WriteData(r);
        got := got + [r];
        currRxPos := currRxPos + 1;
      }
    }

    /** CMD_SPI_MULTI: the device sees the host's bytes cut or padded to the requested length, and the reply carries
        exactly the answers from `rxStartAddr` on. */
    method SPIMulti(txData: seq<byte>, rxBytes: byte, rxStartAddr: byte) returns (reply: seq<seq<byte>>)
      requires |txData| < 0x100
      modifies this`target
      ensures var mosi := Padded(txData, rxStartAddr + rxBytes);
              && target == ShiftAll(old(target), mosi)
              && Framed(reply, [0x1D, 0x00] + Miso(old(target), mosi)[rxStartAddr..] + [0x00])
    {
      ghost var first := target;
      var endpoint := new DataEndpoint();
      endpoint.Write8(0x1D);
      endpoint.Write8(STATUS_CMD_OK);
      assert endpoint.Payload() == [0x1D, STATUS_CMD_OK];
      SendLead(txData, rxStartAddr);
      ghost var got := Exchange(txData, rxBytes, rxStartAddr, endpoint, first);
      endpoint.Close(STATUS_CMD_OK);
      reply := endpoint.packets;
    }
  }

  /** A device that was ready at the start is ready for the next write while all waits have asked it, and has had no
      write early while all but the last have; paged writes need pages. */
  ghost predicate Undisturbed(space: Space, p: WriteParams, was: Avr, now: Avr, log: seq<Wait>) {
    Quiet(was) && (p.Paged() ==> PageOf(was, space) > 0) ==>
      && (AllAsked(now.blank, p.PollValue(space), log) ==> Quiet(now))
      && (EarlierAsked(now.blank, p.PollValue(space), log) ==> !now.early)
  }

  lemma UndisturbedYet(space: Space, p: WriteParams, t: Avr)
    ensures Undisturbed(space, p, t, t, [])
  {
  }

  lemma UndisturbedNext(space: Space, p: WriteParams, was: Avr, mid: Avr, now: Avr, log: seq<Wait>, one: seq<Wait>)
    requires SameDevice(was, mid) && SameDevice(mid, now) && Undisturbed(space, p, was, mid, log)
    requires (p.Paged() ==> log == [] && one == []) && |one| <= 1 && (!p.Paged() ==> |one| == 1)
    requires Quiet(mid) ==> !now.early
    requires (Quiet(mid) && AllAsked(now.blank, p.PollValue(space), one) && (p.Paged() ==> PageOf(mid, space) > 0)) ==>
               Quiet(now)
    ensures Undisturbed(space, p, was, now, log + one)
  {
    hide AllAsked, EarlierAsked;
    AllAskedBoth(now.blank, p.PollValue(space), log, one);
    AllAskedNone(now.blank, p.PollValue(space));
    if |one| == 1 {
      EarlierThan(now.blank, p.PollValue(space), log, one[0]);
      assert one == [one[0]];
    } else {
      assert log + one == [];
    }
  }

  /** The wait for the page completes the report. */
  lemma PageReported(space: Space, start: word, p: WriteParams, status: byte, done: nat, log: seq<Wait>, w: Wait)
    requires done <= |p.data| && WordWaits(space, start, p, done, log) && p.Commits()
    requires w == PageWait(space, start, p, done, status == STATUS_CMD_OK) && (Fallible(w.how) || w.ok)
    requires status == StatusOf(w)
    ensures Reported(space, start, p, status, done, log + [w]) && |log| == Waited(p, done)
  {
    hide WordWait, PageMethod, LastPoll;
    assert (log + [w])[..|log|] == log;
  }

  lemma BlockReported(space: Space, start: word, p: WriteParams, status: byte, done: nat, log: seq<Wait>)
    requires done <= |p.data| && WordWaits(space, start, p, done, log) && !p.Commits()
    requires status == if log == [] then STATUS_CMD_OK else StatusOf(log[|log| - 1])
    ensures Reported(space, start, p, status, done, log)
  {
    hide WordMethod, PollAt;
    assert log[..|log|] == log;
  }

  /** A command that waits by ready/busy throughout asks whenever its waits succeed. */
  lemma ReadyAsked(space: Space, start: word, p: WriteParams, status: byte, done: nat, log: seq<Wait>, blank: byte)
    requires Reported(space, start, p, status, done, log)
    requires Completion(p.mode) == WORD_READYBUSY || (p.Paged() && AsksReady(p.mode))
    ensures AllAsked(blank, p.PollValue(space), log) <==> forall w | w in log :: w.ok
  {
    hide PollAt, PageMode, WordMode, LastPoll;
    var n := Waited(p, done);
    forall k | 0 <= k < |log|
      ensures log[k].how == ReadyBusy
    {
      if k < n {
        assert log[..n][k] == WordWait(space, start, p, k, k < done);
        ReadyWords(p.mode, PollAt(space, start, p, k).address);
      } else {
        PageMethods(p.mode, LastPoll(space, start, p, done).address);
      }
    }
  }

  /** What the wait for one more byte adds to the log of a block. */
  lemma NextWait(space: Space, start: word, p: WriteParams, planned: seq<Episode>, log: seq<Wait>, done: nat,
                 one: seq<Wait>, ok: bool)
    requires done < |p.data| && Unbroken(space, start, p, log) && |log| == if p.Paged() then 0 else done
    requires if p.Paged() then ok && one == [] else one == [WordWait(space, start, p, done, ok)]
    requires !p.Paged() && !ok ==> Fallible(WordMethod(space, start, p, done))
    requires !p.Paged() ==> Outlasted(space, start, p, planned, done)
    requires !p.Paged() && ok && RunsOut(EpisodeAt(planned, done)) ==> !Fallible(WordMethod(space, start, p, done))
    ensures if ok then Unbroken(space, start, p, log + one) else WordWaits(space, start, p, done, log + one)
    ensures !p.Paged() && ok ==> Outlasted(space, start, p, planned, done + 1)
    ensures After(After(planned, |log|), |one|) == After(planned, |log + one|)
  {
    hide WordWait, WordMethod, WordWaits, Unbroken;
    if p.Paged() {
      assert log + one == [];
    } else {
      AfterNext(planned, done);
      if ok {
        UnbrokenNext(space, start, p, log);
      } else {
        UnbrokenStops(space, start, p, log);
      }
    }
  }

  lemma AllAskedNone(blank: byte, pollValue: byte)
    ensures AllAsked(blank, pollValue, [])
  {
  }

  /** The first byte whose wait can fail. */
  function FirstFailing(space: Space, start: word, p: WriteParams, k: nat): (f: nat)
    requires exists j :: k <= j < |p.data| && MayFail(space, start, p, j)
    ensures k <= f < |p.data| && MayFail(space, start, p, f)
    ensures forall j | k <= j < f :: !MayFail(space, start, p, j)
    decreases |p.data| - k
  {
    if MayFail(space, start, p, k) then k else FirstFailing(space, start, p, k + 1)
  }

  /** An erased device that ends every wait of the command at the first look. */
  function Accomplice(space: Space, p: WriteParams, paged: bool): (t: Avr)
    ensures t.ext == 0 && t.frame == [] && t.eeprom.page == Bit(paged)
    ensures Obliging(t, if AsksReady(p.mode) then ReadyBusy else ValuePoll, p.PollValue(space))
  {
    var flash := Store(_ => 0xFF, _ => Empty, 0, true);
    var latency := if AsksReady(p.mode) then 0 else 8;
    var blank := if p.PollValue(space) == 0 then 1 else 0;
    Avr(0, flash, flash.(page := Bit(paged)), [], 0, 0, _ => latency, blank, false, true)
  }

  /** The timer runs out during episode `f`, and stands still during the next. */
  function RunOutOnce(f: nat): seq<Episode> {
    seq(f, _ => []) + [[COMMAND_TIMEOUT_TICKS], [0, 0]]
  }

  lemma EpisodesOf(f: nat)
    ensures EpisodeAt(RunOutOnce(f), f) == [COMMAND_TIMEOUT_TICKS]
    ensures EpisodeAt(RunOutOnce(f), f + 1) == [0, 0]
  {
  }

  /** It does happen: for every such command there is an engine and a device on which it reports OK with bytes missing.
      The timeout runs out while the first byte that can fail is waited for, and is re-armed when the page is. */
  method FailureReportedAsOk(space: Space, paged: bool, start: word, p: WriteParams)
    returns (status: byte, ghost done: nat)
    requires p.bytesToWrite <= 256 && |p.data| == p.bytesToWrite
    requires p.commands == Opcodes(space, paged)
    requires ReportsFalsely(space, start, p)
    ensures status == STATUS_CMD_OK && done < |p.data|
  {
    hide MayFail, FirstFailing, RunOutOnce, Reported, Outlasted, Obliging, PageMethod, AllDecidable, NameableOne,
         AllAsked, EarlierAsked, Link.Programmed, Opcodes, AsksReady, Mismatched, EpisodeAt;
    var f := FirstFailing(space, start, p, 0);
    var device := Accomplice(space, p, paged);
    var engine := new IspEngine(device, RunOutOnce(f));
    EpisodesOf(f);
    PageFollows(space, start, p, f);
    engine.LoadAddress(start);
    ghost var log;
    status, done, log := engine.ProgramMemory(space, p);
    StopsThere(space, start, p, RunOutOnce(f), f, status, done, log);
  }

  /** The page is then waited for in the same way as the byte. */
  lemma PageFollows(space: Space, start: word, p: WriteParams, f: nat)
    requires !p.Paged() && f < |p.data| && MayFail(space, start, p, f)
    ensures PageMethod(space, start, p, f) == if AsksReady(p.mode) then ReadyBusy else ValuePoll
  {
    hide PollAt, PageMode, WordMode;
    WordFails(space, start, p, f);
    WordPoll(space, start, p, f);
    SameMode(p.mode, PollAt(space, start, p, f).address);
    PageMethods(p.mode, PollAt(space, start, p, f).address);
  }

  lemma StopsThere(space: Space, start: word, p: WriteParams, planned: seq<Episode>, f: nat,
                   status: byte, done: nat, log: seq<Wait>)
    requires Reported(space, start, p, status, done, log) && !p.Paged() && f < |p.data|
    requires Outlasted(space, start, p, planned, done) && RunsOut(EpisodeAt(planned, f))
    requires MayFail(space, start, p, f) && forall j | 0 <= j < f :: !MayFail(space, start, p, j)
    ensures done == f
  {
    hide MayFail, WordMethod, RunsOut, EpisodeAt, PageWait, WordWait;
    WordFails(space, start, p, f);
  }
}
