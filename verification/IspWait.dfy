/** How the AVRISP engine waits for a write to finish, as a function of the command alone: by which method, which byte
    it polls, whether that poll can tell anything, and what the status then says (ISPProtocol.c, ISPTarget.c). */
module IspWait {
  import opened Bytes
  import opened IspLink

  const STATUS_CMD_OK: byte := 0x00
  const STATUS_CMD_TOUT: byte := 0x80
  const STATUS_RDY_BSY_TOUT: byte := 0x81
  const STATUS_CMD_FAILED: byte := 0xC0

  const PAGED_WRITES: nat := 0x01
  const WORD_TIMEDELAY: nat := 0x02
  const WORD_VALUE: nat := 0x04
  const WORD_READYBUSY: nat := 0x08
  const PAGED_TIMEDELAY: nat := 0x10
  const PAGED_VALUE: nat := 0x20
  const PAGED_READYBUSY: nat := 0x40
  const COMMIT_PAGE: nat := 0x80
  const HIGH_BYTE: nat := 0x08

  datatype Method = Delayed | ValuePoll | ReadyBusy | NotAtAll

  /** The address and the read instruction of a value poll; address zero counts as none. */
  datatype Poll = Poll(address: word, command: byte)

  /** One wait: how, with which poll at hand, for how many milliseconds if it is a timed one, and whether it
      succeeded. */
  datatype Wait = Wait(how: Method, poll: Poll, pause: byte, ok: bool)

  /** The completion bits of a programming mode. */
  function Completion(mode: byte): nat {
    mode % COMMIT_PAGE - mode % 2
  }

  function WaitMethod(mode: byte): Method {
    var c := Completion(mode);
    if c == WORD_TIMEDELAY || c == PAGED_TIMEDELAY then Delayed
    else if c == WORD_VALUE || c == PAGED_VALUE then ValuePoll
    else if c == WORD_READYBUSY || c == PAGED_READYBUSY then ReadyBusy
    else NotAtAll
  }

  /** The mode bytes of each method: with paged writes or without, committing or not. */
  lemma ByModeByte(mode: byte)
    ensures WaitMethod(mode) ==
            if mode in {0x02, 0x03, 0x82, 0x83, 0x10, 0x11, 0x90, 0x91} then Delayed
            else if mode in {0x04, 0x05, 0x84, 0x85, 0x20, 0x21, 0xA0, 0xA1} then ValuePoll
            else if mode in {0x08, 0x09, 0x88, 0x89, 0x40, 0x41, 0xC0, 0xC1} then ReadyBusy
            else NotAtAll
  {
    assert mode == Completion(mode) + mode % 2 + if mode >= COMMIT_PAGE then 0x80 else 0;
  }

  /** Waits that the timeout can end. */
  predicate Fallible(how: Method) {
    how == ValuePoll || how == ReadyBusy
  }

  predicate AsksReady(mode: byte) {
    Completion(mode) == WORD_READYBUSY || Completion(mode) == PAGED_READYBUSY
  }

  /** Parameters of CMD_PROGRAM_FLASH_ISP and CMD_PROGRAM_EEPROM_ISP. */
  datatype WriteParams = WriteParams(bytesToWrite: word, mode: byte, delayMS: byte, commands: seq<byte>,
                                     pollValue1: byte, pollValue2: byte, data: seq<byte>) {
    function PollValue(space: Space): byte {
      if space.Flash? then pollValue1 else pollValue2
    }

    predicate Paged() {
      Has(mode, PAGED_WRITES)
    }

    predicate Commits() {
      mode >= COMMIT_PAGE
    }
  }

  lemma PagedBit(p: WriteParams)
    ensures p.Paged() <==> p.mode % 2 == 1
  {
  }

  function ReadOpcode(space: Space): byte {
    if space.Flash? then 0x20 else 0xA0
  }

  /** The low 16 address bits of byte `k` of a command. */
  function LowAt(space: Space, start: word, k: nat): word {
    (start + Steps(space, k)) % SEGMENT
  }

  /** The instruction that reads byte `k` of a command back. */
  function CommandAt(space: Space, k: nat): byte {
    ReadOpcode(space) + if space.Flash? && k % 2 == 1 then HIGH_BYTE else 0
  }

  predicate Differs(space: Space, p: WriteParams, k: nat) {
    k < |p.data| && p.data[k] != if space.Flash? then p.pollValue1 else p.pollValue2
  }

  /** The poll after byte `k` has been sent. */
  function Update(space: Space, start: word, p: WriteParams, q: Poll, k: nat): Poll {
    if q.address == 0 && Differs(space, p, k) then Poll(LowAt(space, start, k), CommandAt(space, k)) else q
  }

  /** The poll after `n` bytes have been completed: word writes start over with every byte. */
  function PollAfter(space: Space, start: word, p: WriteParams, n: nat): Poll {
    if n == 0 then Poll(0, ReadOpcode(space))
    else
      var q := Update(space, start, p, PollAfter(space, start, p, n - 1), n - 1);
      if p.Paged() then q else q.(address := 0)
  }

  /** The poll at hand when byte `k` is waited for. */
  function PollAt(space: Space, start: word, p: WriteParams, k: nat): Poll {
    Update(space, start, p, PollAfter(space, start, p, k), k)
  }

  /** The poll at hand when the page is waited for. */
  function LastPoll(space: Space, start: word, p: WriteParams, done: nat): Poll {
    if done < |p.data| then PollAt(space, start, p, done) else PollAfter(space, start, p, done)
  }

  /** Replacing a value poll by a timed delay stays within the mode byte. */
  lemma TimedInstead(mode: byte, value: nat, delay: nat)
    requires (value == WORD_VALUE && delay == WORD_TIMEDELAY) || (value == PAGED_VALUE && delay == PAGED_TIMEDELAY)
    ensures SetBit(ClearBit(mode, value), delay) < 0x100 && Has(SetBit(ClearBit(mode, value), delay), delay)
  {
  }

  /** The mode a byte is waited for with: without a polling address a timed delay is asked for. */
  function WordMode(mode: byte, address: word): byte {
    TimedInstead(mode, WORD_VALUE, WORD_TIMEDELAY);
    if address == 0 && !Has(mode, WORD_READYBUSY) then SetBit(ClearBit(mode, WORD_VALUE), WORD_TIMEDELAY) else mode
  }

  /** The mode the page is waited for with. */
  function PageMode(mode: byte, address: word): byte {
    TimedInstead(mode, PAGED_VALUE, PAGED_TIMEDELAY);
    if Has(mode, PAGED_VALUE) && address == 0 then SetBit(ClearBit(mode, PAGED_VALUE), PAGED_TIMEDELAY) else mode
  }

  function WordMethod(space: Space, start: word, p: WriteParams, k: nat): Method {
    WaitMethod(WordMode(p.mode, PollAt(space, start, p, k).address))
  }

  function PageMethod(space: Space, start: word, p: WriteParams, done: nat): Method {
    WaitMethod(PageMode(p.mode, LastPoll(space, start, p, done).address))
  }

  lemma WordMethods(mode: byte, address: word)
    ensures Fallible(WaitMethod(WordMode(mode, address))) <==>
            || Completion(mode) == WORD_READYBUSY
            || (Completion(mode) in {WORD_VALUE, PAGED_VALUE, PAGED_READYBUSY} && address != 0)
    ensures WaitMethod(WordMode(mode, address)) == ValuePoll ==> address != 0
  {
    TimedInstead(mode, WORD_VALUE, WORD_TIMEDELAY);
    hide SetBit, ClearBit;
    if address == 0 {
      if Has(mode, WORD_READYBUSY) {
        BusyBit(mode);
      } else {
        NeverFails(SetBit(ClearBit(mode, WORD_VALUE), WORD_TIMEDELAY));
        assert Completion(mode) != WORD_READYBUSY;
      }
    }
  }

  /** Without an address a value poll for words, or for the page, is replaced by a timed delay. */
  lemma DelayedInstead(mode: byte)
    ensures Completion(mode) == WORD_VALUE ==> WaitMethod(WordMode(mode, 0)) == Delayed
    ensures Completion(mode) == PAGED_VALUE ==> WaitMethod(PageMode(mode, 0)) == Delayed
  {
    assert Completion(mode) == WORD_VALUE ==> mode in {0x04, 0x05, 0x84, 0x85};
    assert Completion(mode) == PAGED_VALUE ==> mode in {0x20, 0x21, 0xA0, 0xA1};
  }

  lemma BusyBit(mode: byte)
    requires Has(mode, WORD_READYBUSY)
    ensures Completion(mode) !in {WORD_VALUE, PAGED_VALUE, PAGED_READYBUSY}
  {
  }

  /** A mode that asks for a timed delay does not end up with a wait that can fail. */
  lemma NeverFails(mode: byte)
    requires Has(mode, WORD_TIMEDELAY)
    ensures !Fallible(WaitMethod(mode))
  {
  }

  lemma SameMode(mode: byte, address: word)
    requires Fallible(WaitMethod(WordMode(mode, address)))
    ensures PageMode(mode, address) == WordMode(mode, address)
  {
    WordMethods(mode, address);
    hide WaitMethod, SetBit, ClearBit;
    if Completion(mode) == WORD_READYBUSY {
      assert mode in {0x08, 0x09, 0x88, 0x89};
    }
  }

  lemma ReadyWords(mode: byte, address: word)
    requires Completion(mode) == WORD_READYBUSY
    ensures WaitMethod(WordMode(mode, address)) == ReadyBusy
  {
  }

  lemma PageMethods(mode: byte, address: word)
    ensures WaitMethod(PageMode(mode, address)) == ValuePoll <==>
            Completion(mode) == WORD_VALUE || (Completion(mode) == PAGED_VALUE && address != 0)
    ensures AsksReady(mode) ==> WaitMethod(PageMode(mode, address)) == ReadyBusy
  {
  }

  /** In word mode byte `k` is polled for if and only if it differs from the poll value itself. */
  lemma WordPoll(space: Space, start: word, p: WriteParams, k: nat)
    requires !p.Paged()
    ensures PollAfter(space, start, p, k).address == 0
    ensures PollAt(space, start, p, k).address == if Differs(space, p, k) then LowAt(space, start, k) else 0
    ensures Differs(space, p, k) ==> PollAt(space, start, p, k).command == CommandAt(space, k)
  {
  }

  /** Whether the wait for byte `k` can fail, in terms of the mode, the byte and its address. */
  predicate MayFail(space: Space, start: word, p: WriteParams, k: nat) {
    || Completion(p.mode) == WORD_READYBUSY
    || (Completion(p.mode) in {WORD_VALUE, PAGED_VALUE, PAGED_READYBUSY}
        && Differs(space, p, k) && LowAt(space, start, k) != 0)
  }

  lemma WordFails(space: Space, start: word, p: WriteParams, k: nat)
    requires !p.Paged()
    ensures MayFail(space, start, p, k) <==> Fallible(WordMethod(space, start, p, k))
  {
    WordPoll(space, start, p, k);
    WordMethods(p.mode, PollAt(space, start, p, k).address);
  }

  /** The length of a timed wait. */
  function PauseOf(how: Method, delayMS: byte): byte {
    if how == Delayed then delayMS else 0
  }

  /** How many bytes are waited for one by one. */
  function Waited(p: WriteParams, done: nat): nat
    requires done <= |p.data|
  {
    if p.mode % 2 == 1 then 0 else Sent(p.data, done)
  }

  function WordWait(space: Space, start: word, p: WriteParams, k: nat, ok: bool): Wait {
    var how := WordMethod(space, start, p, k);
    Wait(how, PollAt(space, start, p, k), PauseOf(how, p.delayMS), ok)
  }

  function PageWait(space: Space, start: word, p: WriteParams, done: nat, ok: bool): Wait {
    var how := PageMethod(space, start, p, done);
    Wait(how, LastPoll(space, start, p, done), PauseOf(how, p.delayMS), ok)
  }

  /** The waits for the bytes sent: only the one for the byte after the completed ones has failed, and only if it is
      one that can. */
  ghost predicate WordWaits(space: Space, start: word, p: WriteParams, done: nat, log: seq<Wait>)
    requires done <= |p.data|
  {
    && |log| == Waited(p, done)
    && (forall k | 0 <= k < |log| :: log[k] == WordWait(space, start, p, k, k < done))
    && (p.Paged() ==> done == |p.data|)
    && (done < |p.data| ==> MayFail(space, start, p, done))
  }

  /** Waits for single bytes that have all succeeded. */
  ghost predicate Unbroken(space: Space, start: word, p: WriteParams, log: seq<Wait>) {
    forall k | 0 <= k < |log| :: log[k] == WordWait(space, start, p, k, true)
  }

  lemma UnbrokenNext(space: Space, start: word, p: WriteParams, log: seq<Wait>)
    requires Unbroken(space, start, p, log)
    ensures Unbroken(space, start, p, log + [WordWait(space, start, p, |log|, true)])
  {
    hide WordWait;
  }

  lemma UnbrokenEnds(space: Space, start: word, p: WriteParams, log: seq<Wait>)
    requires Unbroken(space, start, p, log) && |log| == Waited(p, |p.data|)
    ensures WordWaits(space, start, p, |p.data|, log)
  {
    hide WordWait;
  }

  lemma UnbrokenStatus(space: Space, start: word, p: WriteParams, log: seq<Wait>)
    requires Unbroken(space, start, p, log)
    ensures log != [] ==> StatusOf(log[|log| - 1]) == STATUS_CMD_OK
  {
    hide WordMethod, PollAt;
  }

  lemma UnbrokenStops(space: Space, start: word, p: WriteParams, log: seq<Wait>)
    requires Unbroken(space, start, p, log) && |log| < |p.data| && !p.Paged()
    requires Fallible(WordMethod(space, start, p, |log|))
    ensures WordWaits(space, start, p, |log|, log + [WordWait(space, start, p, |log|, false)])
  {
    hide WordWait, MayFail, WordMethod;
    WordFails(space, start, p, |log|);
  }

  /** What a wait reports. */
  function StatusOf(w: Wait): byte {
    if w.ok then 0x00 else if w.how == ValuePoll then 0x80 else 0x81
  }

  /** How a program command waits and reports: for every byte sent, unless writes are paged, then for the page if it is
      committed. The status is that of the last wait. */
  ghost predicate Reported(space: Space, start: word, p: WriteParams, status: byte, done: nat, log: seq<Wait>) {
    && done <= |p.data| && |log| == Waited(p, done) + Bit(p.mode >= 0x80)
    && WordWaits(space, start, p, done, log[..Waited(p, done)])
    && status == (if log == [] then 0x00 else StatusOf(log[|log| - 1]))
    && (p.mode >= 0x80 ==>
          var w := log[|log| - 1];
          && w == PageWait(space, start, p, done, w.ok)
          && (Fallible(w.how) || w.ok))
  }

  /** Committed word writes of which some byte is waited for in a way that can fail. */
  predicate ReportsFalsely(space: Space, start: word, p: WriteParams) {
    p.mode >= 0x80 && p.mode % 2 == 0 && exists k | 0 <= k < |p.data| :: MayFail(space, start, p, k)
  }

  /** The waits of a command that got as far as `done`, with a page wait that succeeded. */
  function Waits(space: Space, start: word, p: WriteParams, done: nat): (log: seq<Wait>)
    requires done <= |p.data|
  {
    WaitsFor(space, start, p, done, Waited(p, done))
    + if p.Commits() then [PageWait(space, start, p, done, true)] else []
  }

  function WaitsFor(space: Space, start: word, p: WriteParams, done: nat, n: nat): (log: seq<Wait>)
    ensures |log| == n && forall k | 0 <= k < n :: log[k] == WordWait(space, start, p, k, k < done)
  {
    if n == 0 then [] else WaitsFor(space, start, p, done, n - 1) + [WordWait(space, start, p, n - 1, n - 1 < done)]
  }

  lemma WaitsReported(space: Space, start: word, p: WriteParams, done: nat)
    requires done <= |p.data| && (p.Paged() ==> done == |p.data|)
    requires done < |p.data| ==> p.Commits() && MayFail(space, start, p, done)
    ensures Reported(space, start, p, STATUS_CMD_OK, done, Waits(space, start, p, done))
  {
    hide WordMethod, PageMethod, PollAt, LastPoll, MayFail;
    var log := Waits(space, start, p, done);
    assert log[..Waited(p, done)] == WaitsFor(space, start, p, done, Waited(p, done));
  }

  lemma CommitsOrFails(space: Space, start: word, p: WriteParams, status: byte, done: nat, log: seq<Wait>)
    requires Reported(space, start, p, status, done, log) && !p.Commits()
    ensures status == STATUS_CMD_OK <==> done == |p.data|
  {
    hide MayFail, WordMethod, PollAt;
    if log != [] {
      assert log[..Waited(p, done)] == log;
    }
  }

  /** A command that reports OK has completed all its bytes, whatever happens, exactly when its writes are paged, it
      does not commit, or none of its bytes is waited for in a way that can fail. */
  lemma OkMeansComplete(space: Space, start: word, p: WriteParams)
    ensures (forall status: byte, done: nat, log: seq<Wait> ::
               Reported(space, start, p, status, done, log) && status == STATUS_CMD_OK ==> done == |p.data|)
            <==> !ReportsFalsely(space, start, p)
  {
    hide MayFail, PageWait, Waits, WordMethod, PollAt;
    if ReportsFalsely(space, start, p) {
      var k :| 0 <= k < |p.data| && MayFail(space, start, p, k);
      WaitsReported(space, start, p, k);
    } else {
      forall status: byte, done: nat, log: seq<Wait> |
        Reported(space, start, p, status, done, log) && status == STATUS_CMD_OK
        ensures done == |p.data|
      {
        if !p.Commits() {
          CommitsOrFails(space, start, p, status, done, log);
        }
      }
    }
  }

  /** One past the last byte that differs from the poll value. */
  function Differing(data: seq<byte>, pollValue: byte): (n: nat)
    ensures n <= |data| && (n > 0 ==> data[n - 1] != pollValue)
    ensures forall k | n <= k < |data| :: data[k] == pollValue
  {
    if data == [] then 0
    else if data[|data| - 1] != pollValue then |data|
    else Differing(data[..|data| - 1], pollValue)
  }

  /** The poll names a byte of the command, one that differs from what a busy device answers. */
  predicate Names(space: Space, start: word, p: WriteParams, q: Poll, k: nat) {
    Differs(space, p, k) && q == Poll(LowAt(space, start, k), CommandAt(space, k))
  }

  /** A value poll can tell when the write is done. */
  predicate Decidable(space: Space, start: word, p: WriteParams, w: Wait) {
    w.how == ValuePoll ==> NamesOne(space, start, p, w.poll, |p.data|)
  }

  predicate NamesOne(space: Space, start: word, p: WriteParams, q: Poll, n: nat) {
    exists k | 0 <= k < n :: Names(space, start, p, q, k)
  }

  predicate DiffersOne(space: Space, p: WriteParams, n: nat) {
    exists k | 0 <= k < n :: Differs(space, p, k)
  }

  ghost predicate AllDecidable(space: Space, start: word, p: WriteParams, log: seq<Wait>) {
    forall w | w in log :: Decidable(space, start, p, w)
  }

  /** Modes that wait for a page by the value poll meant for single words. */
  predicate Mismatched(mode: byte) {
    mode >= COMMIT_PAGE && Completion(mode) == WORD_VALUE
  }

  /** A byte that the poll for the page can name: with paged writes, or when the command stops early, any that differs
      from the poll value; after completed word writes one at address zero, on the side of the last differing byte. */
  predicate Nameable(space: Space, start: word, p: WriteParams, complete: bool, k: nat) {
    && Differs(space, p, k)
    && (p.Paged() || !complete
        || (LowAt(space, start, k) == 0
            && CommandAt(space, k) == CommandAt(space, Differing(p.data, p.PollValue(space)) - 1)))
  }

  predicate NameableOne(space: Space, start: word, p: WriteParams, complete: bool) {
    exists k | 0 <= k < |p.data| :: Nameable(space, start, p, complete, k)
  }

  /** With paged writes the poll is none until a byte differs, and from then on names one. */
  lemma {:induction false} PagedPoll(space: Space, start: word, p: WriteParams, n: nat)
    requires p.Paged() && n <= |p.data|
    ensures var q := PollAfter(space, start, p, n);
            if DiffersOne(space, p, n) then NamesOne(space, start, p, q, n) else q == Poll(0, ReadOpcode(space))
  {
    hide LowAt, CommandAt;
    if n > 0 {
      PagedPoll(space, start, p, n - 1);
      var q := PollAfter(space, start, p, n);
      if Differs(space, p, n - 1) && PollAfter(space, start, p, n - 1).address == 0 {
        assert Names(space, start, p, q, n - 1);
        assert NamesOne(space, start, p, q, n);
      } else {
        assert q == PollAfter(space, start, p, n - 1);
      }
    }
  }

  /** After word writes the read instruction is that of the last differing byte. */
  lemma {:induction false} WordCommand(space: Space, start: word, p: WriteParams, n: nat)
    requires !p.Paged() && n <= |p.data|
    ensures var m := Differing(p.data[..n], p.PollValue(space));
            PollAfter(space, start, p, n) ==
            Poll(0, if m == 0 then ReadOpcode(space) else CommandAt(space, m - 1))
  {
    hide LowAt, CommandAt;
    if n > 0 {
      WordCommand(space, start, p, n - 1);
      assert p.data[..n][..n - 1] == p.data[..n - 1];
    }
  }

  /** The waits for single bytes are always decidable. */
  lemma WordDecidable(space: Space, start: word, p: WriteParams, k: nat, ok: bool)
    requires !p.Paged() && k < |p.data|
    ensures Decidable(space, start, p, WordWait(space, start, p, k, ok))
  {
    hide LowAt, CommandAt, PollAt, PollAfter, WordMode, WaitMethod;
    WordPoll(space, start, p, k);
    WordMethods(p.mode, PollAt(space, start, p, k).address);
    if Differs(space, p, k) {
      WordNames(space, start, p, k);
    }
  }

  lemma WordNames(space: Space, start: word, p: WriteParams, k: nat)
    requires !p.Paged() && Differs(space, p, k)
    ensures Names(space, start, p, PollAt(space, start, p, k), k)
  {
  }

  /** The poll for the page names a differing byte exactly when some byte is nameable. */
  lemma LastPollNames(space: Space, start: word, p: WriteParams, done: nat)
    requires done <= |p.data| && (p.Paged() ==> done == |p.data|)
    requires done < |p.data| ==> Differs(space, p, done)
    ensures NamesOne(space, start, p, LastPoll(space, start, p, done), |p.data|)
            <==> NameableOne(space, start, p, done == |p.data|)
  {
    hide LowAt, CommandAt, PollAfter, PollAt, Differing, Differs;
    var n := |p.data|;
    if p.Paged() {
      PagedPoll(space, start, p, n);
      SomeNameable(space, start, p);
    } else if done < n {
      WordNames(space, start, p, done);
      assert Nameable(space, start, p, false, done);
      assert Names(space, start, p, LastPoll(space, start, p, done), done);
    } else {
      WordCommand(space, start, p, n);
      assert p.data[..n] == p.data;
      WordNameable(space, start, p, PollAfter(space, start, p, n));
    }
  }

  lemma SomeNameable(space: Space, start: word, p: WriteParams)
    requires p.Paged()
    ensures DiffersOne(space, p, |p.data|) <==> NameableOne(space, start, p, true)
    ensures NamesOne(space, start, p, Poll(0, ReadOpcode(space)), |p.data|) ==> DiffersOne(space, p, |p.data|)
  {
    hide LowAt, CommandAt, Differing, Differs;
    if DiffersOne(space, p, |p.data|) {
      var k :| 0 <= k < |p.data| && Differs(space, p, k);
      assert Nameable(space, start, p, true, k);
    }
  }

  lemma WordNameable(space: Space, start: word, p: WriteParams, q: Poll)
    requires !p.Paged()
    requires var m := Differing(p.data, p.PollValue(space));
             q == Poll(0, if m == 0 then ReadOpcode(space) else CommandAt(space, m - 1))
    ensures NamesOne(space, start, p, q, |p.data|) <==> NameableOne(space, start, p, true)
  {
    hide LowAt, CommandAt;
    forall k | 0 <= k < |p.data|
      ensures Names(space, start, p, q, k) <==> Nameable(space, start, p, true, k)
    {
    }
  }

  /** A poll with an address names a byte of the command. */
  lemma AddressNames(space: Space, start: word, p: WriteParams, done: nat)
    requires done <= |p.data| && (p.Paged() ==> done == |p.data|)
    requires done < |p.data| ==> Differs(space, p, done)
    requires LastPoll(space, start, p, done).address != 0
    ensures NamesOne(space, start, p, LastPoll(space, start, p, done), |p.data|)
  {
    hide LowAt, CommandAt, Differs;
    if p.Paged() {
      PagedPoll(space, start, p, |p.data|);
    } else if done < |p.data| {
      WordNames(space, start, p, done);
      assert Names(space, start, p, LastPoll(space, start, p, done), done);
    }
  }

  lemma PageDecidable(space: Space, start: word, p: WriteParams, done: nat, ok: bool)
    requires done <= |p.data| && (p.Paged() ==> done == |p.data|) && p.Commits()
    requires done < |p.data| ==> MayFail(space, start, p, done)
    ensures Decidable(space, start, p, PageWait(space, start, p, done, ok))
            <==> !Mismatched(p.mode) || NameableOne(space, start, p, done == |p.data|)
  {
    hide LastPoll, LowAt, NamesOne, NameableOne, Differs, PageMode, WaitMethod;
    PageMethods(p.mode, LastPoll(space, start, p, done).address);
    if Completion(p.mode) in {WORD_VALUE, PAGED_VALUE} {
      LastPollNames(space, start, p, done);
      if LastPoll(space, start, p, done).address != 0 {
        AddressNames(space, start, p, done);
      }
    }
  }

  /** Every value poll of a command can tell when the write is done exactly when the mode is not mismatched, or a byte
      is nameable. */
  lemma DecidableExactly(space: Space, start: word, p: WriteParams, status: byte, done: nat, log: seq<Wait>)
    requires Reported(space, start, p, status, done, log)
    ensures AllDecidable(space, start, p, log)
            <==> !Mismatched(p.mode) || NameableOne(space, start, p, done == |p.data|)
  {
    hide Decidable, WordWait, PageWait, MayFail, NameableOne;
    var n := Waited(p, done);
    forall k | 0 <= k < n
      ensures Decidable(space, start, p, log[k])
    {
      assert log[..n][k] == WordWait(space, start, p, k, k < done);
      WordDecidable(space, start, p, k, k < done);
    }
    if p.Commits() {
      PageDecidable(space, start, p, done, log[n].ok);
      assert log[n] in log;
    }
  }

  /** What a caller can know beforehand: every outcome polls decidably exactly when the completed one does. */
  lemma AlwaysDecidable(space: Space, start: word, p: WriteParams)
    ensures (forall status: byte, done: nat, log: seq<Wait> ::
               Reported(space, start, p, status, done, log) ==> AllDecidable(space, start, p, log))
            <==> !Mismatched(p.mode) || NameableOne(space, start, p, true)
  {
    hide AllDecidable, Reported, Waits, Mismatched;
    var n := |p.data|;
    if !Mismatched(p.mode) || NameableOne(space, start, p, true) {
      forall status: byte, done: nat, log: seq<Wait> | Reported(space, start, p, status, done, log)
        ensures AllDecidable(space, start, p, log)
      {
        DecidableExactly(space, start, p, status, done, log);
        StoppedNameable(space, start, p);
      }
    } else {
      WaitsReported(space, start, p, n);
      DecidableExactly(space, start, p, STATUS_CMD_OK, n, Waits(space, start, p, n));
    }
  }

  lemma StoppedNameable(space: Space, start: word, p: WriteParams)
    ensures NameableOne(space, start, p, true) ==> NameableOne(space, start, p, false)
  {
    if k: nat :| k < |p.data| && Nameable(space, start, p, true, k) {
      assert Nameable(space, start, p, false, k);
    }
  }

  /** Word writes in a mismatched mode that stay clear of address zero are never nameable, whatever their data. */
  lemma MismatchedWords(space: Space, start: word, p: WriteParams, log: seq<Wait>, status: byte)
    requires Mismatched(p.mode) && !p.Paged() && 0 < start && start + |p.data| < SEGMENT
    requires Reported(space, start, p, status, |p.data|, log)
    ensures !AllDecidable(space, start, p, log)
  {
    hide AllDecidable, Reported, Mismatched;
    DecidableExactly(space, start, p, status, |p.data|, log);
    forall k | 0 <= k < |p.data|
      ensures !Nameable(space, start, p, true, k)
    {
      assert start + Steps(space, k) < SEGMENT;
    }
  }

  /** One such command: mode 0x84, one byte that differs from the poll value. */
  lemma MismatchedInput()
    ensures var p := WriteParams(1, 0x84, 0, [0x40, 0x4C, 0x20], 0xFF, 0xFF, [0x00]);
            var log := Waits(Flash, 0x100, p, 1);
            && Reported(Flash, 0x100, p, STATUS_CMD_OK, 1, log)
            && log == [Wait(ValuePoll, Poll(0x100, 0x20), 0, true), Wait(ValuePoll, Poll(0, 0x20), 0, true)]
            && !AllDecidable(Flash, 0x100, p, log)
  {
    var p := WriteParams(1, 0x84, 0, [0x40, 0x4C, 0x20], 0xFF, 0xFF, [0x00]);
    WaitsReported(Flash, 0x100, p, 1);
    MismatchedWords(Flash, 0x100, p, Waits(Flash, 0x100, p, 1), STATUS_CMD_OK);
    assert LowAt(Flash, 0x100, 0) == 0x100;
    assert PollAt(Flash, 0x100, p, 0) == Poll(0x100, 0x20);
    assert PollAfter(Flash, 0x100, p, 1) == Poll(0, 0x20);
    var log := WaitsFor(Flash, 0x100, p, 1, 1);
    assert log == [log[0]];
  }
}
