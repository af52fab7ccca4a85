/** USBasp's paged flash programming (main.c): bytes arriving in blocks and packets of any size, a page counter that is
    one byte wide, and a page size that is not. */
module UsbaspFlash {
  import opened Bytes
  import opened Pages
  import opened AvrTarget
  import opened UsbaspIsp

  const PROG_BLOCKFLAG_FIRST: nat := 1
  const PROG_BLOCKFLAG_LAST: nat := 2

  datatype Stage = Idle | WriteFlash | WriteEeprom

  /** The variables of main.c, and what they have done to the device's memories. */
  datatype Writer = Writer(stage: Stage, address: nat, nbytes: word, pagesize: word, flags: byte, counter: byte,
                           flash: Store, eeprom: Store) {

    /** One byte of usbFunctionWrite's loop. */
    function Accept(b: byte): Writer {
      var w := if stage.WriteFlash? then AcceptFlash(b) else this.(eeprom := eeprom.Direct(address % 0x1_0000, b));
      w.Counted()
    }

    function AcceptFlash(b: byte): Writer {
      var w := this.(flash := flash.Put(address, b));
      if pagesize == 0 then w
      else if counter == 1 then w.(counter := pagesize % 0x100).Flushed()
      else w.(counter := if counter == 0 then 0xFF else counter - 1)
    }

    /** The waits that one byte of the loop calls for: without pages one for every byte, otherwise one for every
        flush. */
    function Due(b: byte): seq<Wait> {
      if stage.WriteFlash? then AcceptDue(b) + AcceptFlash(b).CountDue(b) else [Paused(30, true)] + CountDue(b)
    }

    /** ... and the closing flush of the last block. */
    function CountDue(b: byte): seq<Wait> {
      if nbytes == 1 && Has(flags, PROG_BLOCKFLAG_LAST) && counter != pagesize then [FlushDue(b)] else []
    }

    function AcceptDue(b: byte): seq<Wait> {
      if pagesize == 0 then [if b == 0x7F then Paused(15, true) else Polled(0x7F, true)]
      else if counter == 1 then [FlushDue(b)]
      else []
    }

    function FlushDue(b: byte): Wait {
      if b == 0xFF then Paused(15, true) else Polled(0xFF, true)
    }

    function DueAll(data: seq<byte>): seq<Wait> {
      if data == [] then []
      else DueAll(data[..|data| - 1]) + Feed(data[..|data| - 1]).Due(data[|data| - 1])
    }

    function Flushed(): Writer {
      this.(flash := flash.Commit(address - address % 2))
    }

    /** The last byte of the block ends the data stage, and may flush what is pending. */
    function Counted(): Writer {
      var w := this.(nbytes := if nbytes == 0 then 0xFFFF else nbytes - 1);
      var x := if w.nbytes == 0 then w.(stage := Idle) else w;
      var y := if w.nbytes == 0 && Has(flags, PROG_BLOCKFLAG_LAST) && counter != pagesize then x.Flushed() else x;
      y.(address := address + 1)
    }

    function Feed(data: seq<byte>): Writer {
      if data == [] then this else Feed(data[..|data| - 1]).Accept(data[|data| - 1])
    }

    /** The WRITEFLASH request for the next block. */
    function Begin(start: nat, n: word, page: word, blockFlags: byte): Writer {
      this.(stage := WriteFlash, address := start, nbytes := n, pagesize := page, flags := blockFlags,
            counter := if Has(blockFlags, PROG_BLOCKFLAG_FIRST) then page % 0x100 else counter)
    }
  }

  lemma {:induction false} FeedAdd(w: Writer, x: seq<byte>, y: seq<byte>)
    ensures w.Feed(x).Feed(y) == w.Feed(x + y)
    decreases |y|
  {
    if y == [] {
      assert x + y == x;
    } else {
      var z := y[..|y| - 1];
      FeedAdd(w, x, z);
      assert (x + y)[..|x + y| - 1] == x + z;
    }
  }

  /** Bytes between two flushes: the counter is one byte wide. */
  function Period(page: nat): (d: nat)
    ensures 0 < d <= 0x100
  {
    if page % 0x100 == 0 then 0x100 else page % 0x100
  }

  /** The first `k` bytes are in the cells, and nothing else has changed. */
  ghost predicate Holds(s: Store, was: Store, a: nat, data: seq<byte>, k: nat)
    requires k <= |data|
  {
    && s.Clean() && s.page == was.page && !s.autoErase
    && forall c: nat :: s.cell(c) == if a <= c < a + k then data[c - a] else was.cell(c)
  }

  /** No chunk of a transfer of `n` bytes from a page start straddles a page; so it is for pages of up to 256 bytes. */
  predicate NoStraddle(page: nat, n: nat) {
    n <= page || Offset(page, Period(page)) == 0
  }

  /** A device with `n` erased bytes of flash from a page start on, and pages of the size the host gives. */
  ghost predicate Erased(s: Store, a: nat, n: nat) {
    && s.Clean() && !s.autoErase && s.page > 0 && s.page % 2 == 0 && Offset(a, s.page) == 0
    && forall c | a <= c < a + n :: s.cell(c) == 0xFF
  }

  ghost predicate Prepared(s: Store, a: nat, data: seq<byte>) {
    Erased(s, a, |data|) && NoStraddle(s.page, |data|)
  }

  /** Where the writer is after `i` bytes: whole chunks are programmed, the rest of the bytes are in the page buffer. */
  ghost predicate Reached(w: Writer, base: Store, was: Store, a: nat, data: seq<byte>, i: nat)
    requires i <= |data|
  {
    var d := Period(was.page);
    var k := Base(i, d);
    && Holds(base, was, a, data, k)
    && w.flash == base.PutAll(a + k, data[k..i])
    && w.address == a + i && w.pagesize == was.page
    && w.counter == (d - (i - k)) % 0x100
  }

  /** Multiples of `d` below a multiple of `d` leave room for another `d`. */
  lemma {:induction false} RoomFor(x: nat, page: nat, d: nat)
    requires d > 0 && Offset(x, d) == 0 && Offset(page, d) == 0 && x < page
    ensures x + d <= page
  {
    if d <= x {
      RoomFor(x - d, page - d, d);
    }
  }

  lemma {:induction false} OffsetSum(x: nat, y: nat, d: nat)
    requires d > 0 && Offset(y, d) == 0
    ensures Offset(x + y, d) == Offset(x, d)
    decreases y
  {
    if y >= d {
      OffsetSum(x, y - d, d);
    }
  }

  /** Chunks counted from a page start never straddle a page. */
  lemma {:induction false} ChunkInPage(a: nat, k: nat, page: nat, d: nat)
    requires page > 0 && d > 0 && Offset(a, page) == 0 && Offset(page, d) == 0 && Offset(k, d) == 0
    ensures Offset(a + k, page) + d <= page
    decreases a + k
  {
    if a >= page {
      ChunkInPage(a - page, k, page, d);
    } else if k >= page {
      OffsetSum(k - page, page, d);
      ChunkInPage(a, k - page, page, d);
    } else {
      RoomFor(k, page, d);
    }
  }

  lemma {:induction false} OffsetBelow(a: nat, k: nat, page: nat)
    requires page > 0 && Offset(a, page) == 0 && k < page
    ensures Offset(a + k, page) == k
  {
    if a >= page {
      OffsetBelow(a - page, k, page);
    }
  }

  /** A part of a chunk stays in its page. */
  lemma ChunkFits(a: nat, k: nat, i: nat, page: nat, n: nat)
    requires page > 0 && Offset(a, page) == 0 && NoStraddle(page, n) && k < i <= n
    requires Offset(k, Period(page)) == 0 && i - k <= Period(page)
    ensures Offset(a + k, page) + (i - k) <= page
  {
    if n <= page {
      OffsetBelow(a, k, page);
    } else {
      ChunkInPage(a, k, page, Period(page));
    }
  }

  lemma {:induction false} NextBase(i: nat, d: nat)
    requires d > 0
    ensures Base(i + 1, d) == if Offset(i, d) + 1 == d then i + 1 else Base(i, d)
    ensures Offset(Base(i, d), d) == 0
  {
    if i >= d {
      NextBase(i - d, d);
    }
  }

  /** A byte of the chunk lies in the page of the chunk, and so does the word it belongs to. */
  lemma {:induction false} SamePageInChunk(a: nat, r: nat, page: nat)
    requires page > 0 && page % 2 == 0 && Offset(a, page) + r < page
    ensures Base(a + r - (a + r) % 2, page) == Base(a, page)
  {
    EvenBase(a, page);
    SamePage(a, a + r - (a + r) % 2, page);
  }

  lemma {:induction false} EvenBase(a: nat, page: nat)
    requires page > 0 && page % 2 == 0
    ensures Base(a, page) % 2 == 0
  {
    if a >= page {
      EvenBase(a - page, page);
    }
  }

  lemma SameCommit(s: Store, a: nat, b: nat)
    requires s.page > 0 && Base(a, s.page) == Base(b, s.page)
    ensures s.Commit(a) == s.Commit(b)
  {
  }

  /** Committing a chunk, complete or not, programs exactly its bytes. */
  lemma CommitChunk(base: Store, was: Store, a: nat, data: seq<byte>, k: nat, i: nat)
    requires k < i <= |data| && Prepared(was, a, data) && Holds(base, was, a, data, k)
    requires Offset(k, Period(was.page)) == 0 && i - k <= Period(was.page)
    ensures var last := a + i - 1;
            Holds(base.PutAll(a + k, data[k..i]).Commit(last - last % 2), was, a, data, i)
  {
    hide Store.PutAll, Store.Commit, Base, Period;
    var at := a + k;
    var chunk := data[k..i];
    var loaded := base.PutAll(at, chunk);
    ChunkFits(a, k, i, was.page, |data|);
    hide Offset;
    ErasedBlock(base, at, chunk);
    SamePageInChunk(at, i - k - 1, was.page);
    PutAllFrame(base, at, chunk);
    SameCommit(loaded, a + i - 1 - (a + i - 1) % 2, at);
    CommitFrame(loaded, at);
    var t := loaded.Commit(at);
    forall c: nat
      ensures t.cell(c) == if a <= c < a + i then data[c - a] else was.cell(c)
    {
      if at <= c < a + i {
        assert chunk[c - at] == data[c - a];
      }
    }
  }

  lemma CommitFrame(s: Store, a: nat)
    ensures s.Commit(a).page == s.page && s.Commit(a).autoErase == s.autoErase
  {
  }

  /** Committing an empty buffer changes nothing. */
  lemma CommitClean(s: Store, was: Store, a: nat, data: seq<byte>, k: nat, at: nat)
    requires k <= |data| && Holds(s, was, a, data, k)
    ensures Holds(s.Commit(at), was, a, data, k)
  {
  }

  /** One byte further: the chunk grows, or is complete and programmed. The last byte of a `LAST` block leaves
      everything programmed. */
  lemma AcceptReached(w: Writer, base: Store, was: Store, a: nat, data: seq<byte>, i: nat) returns (next: Store)
    requires i < |data| && Prepared(was, a, data) && Reached(w, base, was, a, data, i)
    requires w.stage.WriteFlash? && w.nbytes > 0
    ensures var t := w.Accept(data[i]);
            && t.stage == (if w.nbytes == 1 then Idle else WriteFlash)
            && t.nbytes == w.nbytes - 1 && t.flags == w.flags && t.eeprom == w.eeprom
            && if w.nbytes == 1 && Has(w.flags, PROG_BLOCKFLAG_LAST) then Holds(t.flash, was, a, data, i + 1)
               else Reached(t, next, was, a, data, i + 1)
  {
    hide Holds, Prepared, Store.Commit, Store.PutAll;
    var d := Period(was.page);
    var k := Base(i, d);
    var v := w.AcceptFlash(data[i]);
    next := FlashReached(w, base, was, a, data, i);
    if w.nbytes == 1 && Has(w.flags, PROG_BLOCKFLAG_LAST) {
      LastFlush(v, next, was, a, data, i);
    }
  }

  /** The flash side of one byte. */
  lemma FlashReached(w: Writer, base: Store, was: Store, a: nat, data: seq<byte>, i: nat) returns (next: Store)
    requires i < |data| && Prepared(was, a, data) && Reached(w, base, was, a, data, i)
    ensures var t := w.AcceptFlash(data[i]);
            && t == w.(flash := t.flash, counter := t.counter)
            && Reached(t.(address := a + i + 1), next, was, a, data, i + 1)
  {
    hide Holds, Store.Commit, Store.PutAll, Prepared, Base, Period;
    var d := Period(was.page);
    var k := Base(i, d);
    NextBase(i, d);
    PutOne(base, a + k, data, k, i);
    PeriodLow(was.page);
    PeriodBound(was, a, data);
    if i + 1 - k == d {
      CommitChunk(base, was, a, data, k, i + 1);
      next := w.AcceptFlash(data[i]).flash;
      PutNone(next, a + i + 1, data, i + 1);
    } else {
      next := base;
    }
  }

  lemma PeriodLow(page: nat)
    ensures Period(page) % 0x100 == page % 0x100
  {
  }

  lemma PutOne(base: Store, at: nat, data: seq<byte>, k: nat, i: nat)
    requires k <= i < |data|
    ensures base.PutAll(at, data[k..i]).Put(at + i - k, data[i]) == base.PutAll(at, data[k..i + 1])
  {
    assert data[k..i + 1][..i - k] == data[k..i];
  }

  lemma PutNone(s: Store, at: nat, data: seq<byte>, i: nat)
    requires i <= |data|
    ensures s.PutAll(at, data[i..i]) == s
  {
  }

  /** The flush that closes a `LAST` block: what is pending is programmed, and when nothing is pending (pages of 256
      bytes, whose counter never equals the page size) the extra flush changes nothing. */
  lemma LastFlush(v: Writer, base: Store, was: Store, a: nat, data: seq<byte>, i: nat)
    requires i < |data| && Prepared(was, a, data) && v.address == a + i
    requires Reached(v.(address := a + i + 1), base, was, a, data, i + 1)
    ensures Holds(if v.counter != v.pagesize then v.flash.Commit(v.address - v.address % 2) else v.flash,
                  was, a, data, i + 1)
  {
    hide Holds, Store.Commit, Store.PutAll, Prepared, Base, Period;
    var d := Period(was.page);
    var k := Base(i + 1, d);
    if k == i + 1 {
      PutNone(base, a + k, data, k);
      CommitClean(base, was, a, data, k, v.address - v.address % 2);
    } else {
      NextBase(i + 1, d);
      PeriodBound(was, a, data);
      CommitChunk(base, was, a, data, k, i + 1);
    }
  }

  lemma PeriodBound(s: Store, a: nat, data: seq<byte>)
    requires Prepared(s, a, data)
    ensures 0 < Period(s.page) <= s.page
  {
    hide NoStraddle;
  }

  /** A stretch of a block. */
  lemma {:induction false} FeedReached(w: Writer, base: Store, was: Store, a: nat, data: seq<byte>, i: nat, n: nat)
    returns (next: Store)
    requires i + n <= |data| && Prepared(was, a, data) && Reached(w, base, was, a, data, i)
    requires w.stage.WriteFlash? && n <= w.nbytes
    ensures var t := w.Feed(data[i..i + n]);
            && t.stage == (if n > 0 && n == w.nbytes then Idle else WriteFlash)
            && t.nbytes == w.nbytes - n && t.flags == w.flags && t.eeprom == w.eeprom
            && if n > 0 && n == w.nbytes && Has(w.flags, PROG_BLOCKFLAG_LAST) then Holds(t.flash, was, a, data, i + n)
               else Reached(t, next, was, a, data, i + n)
  {
    hide Holds, Prepared, Reached, Writer.Accept;
    if n == 0 {
      assert data[i..i + n] == [];
      next := base;
    } else {
      var t := FeedReached(w, base, was, a, data, i, n - 1);
      assert data[i..i + n][..n - 1] == data[i..i + n - 1];
      assert w.Feed(data[i..i + n]) == w.Feed(data[i..i + n - 1]).Accept(data[i + n - 1]);
      hide Writer.Feed;
      next := AcceptReached(w.Feed(data[i..i + n - 1]), t, was, a, data, i + n - 1);
    }
  }

  function Flags(first: bool, last: bool): byte {
    (if first then 1 else 0) + (if last then 2 else 0)
  }

  /** A host programming consecutive blocks: the first one flagged `FIRST`, the very last one `LAST`. */
  function Program(w: Writer, a: nat, page: word, blocks: seq<seq<byte>>, closing: bool): Writer
    requires forall b | b in blocks :: 0 < |b| < 0x1_0000
  {
    if blocks == [] then w
    else
      var n := |blocks| - 1;
      Program(w, a, page, blocks[..n], false)
      .Begin(a + |Concat(blocks[..n])|, |blocks[n]|, page, Flags(n == 0, closing))
      .Feed(blocks[n])
  }

  lemma StartReached(w: Writer, a: nat, page: word, n: word, flags: byte, data: seq<byte>)
    requires Prepared(w.flash, a, data) && page == w.flash.page && Has(flags, PROG_BLOCKFLAG_FIRST)
    ensures Reached(w.Begin(a, n, page, flags), w.flash, w.flash, a, data, 0)
  {
    hide NoStraddle;
    assert data[0..0] == [];
  }

  lemma ContinueReached(w: Writer, base: Store, was: Store, a: nat, data: seq<byte>, i: nat, n: word, flags: byte)
    requires i <= |data| && Reached(w, base, was, a, data, i) && !Has(flags, PROG_BLOCKFLAG_FIRST)
    requires was.page < 0x1_0000
    ensures Reached(w.Begin(a + i, n, was.page, flags), base, was, a, data, i)
  {
    hide Holds, Base, Store.PutAll;
  }

  lemma {:induction false} BlocksReached(w: Writer, a: nat, page: word, blocks: seq<seq<byte>>, data: seq<byte>)
    returns (next: Store)
    requires forall b | b in blocks :: 0 < |b| < 0x1_0000
    requires blocks != [] && Concat(blocks) <= data && Prepared(w.flash, a, data) && page == w.flash.page
    ensures var t := Program(w, a, page, blocks, false);
            Reached(t, next, w.flash, a, data, |Concat(blocks)|) && t.stage == Idle && t.eeprom == w.eeprom
  {
    hide Holds, Prepared, Reached, Writer.Accept, Writer.Feed;
    var n := |blocks| - 1;
    var i := |Concat(blocks[..n])|;
    assert n == 0 ==> i == 0;
    assert Concat(blocks) == Concat(blocks[..n]) + blocks[n];
    assert blocks[n] == data[i..i + |blocks[n]|];
    hide Concat;
    if n == 0 {
      StartReached(w, a, page, |blocks[0]|, Flags(true, false), data);
      next := FeedReached(w.Begin(a, |blocks[0]|, page, Flags(true, false)), w.flash, w.flash, a, data, 0, |blocks[0]|);
    } else {
      var base := BlocksReached(w, a, page, blocks[..n], data);
      var v := Program(w, a, page, blocks[..n], false);
      ContinueReached(v, base, w.flash, a, data, i, |blocks[n]|, Flags(false, false));
      next := FeedReached(v.Begin(a + i, |blocks[n]|, page, Flags(false, false)), base, w.flash, a, data, i,
                          |blocks[n]|);
    }
  }

  /** Any split into blocks programs the erased device with exactly the data. */
  lemma BlocksProgrammed(w: Writer, a: nat, page: word, blocks: seq<seq<byte>>)
    requires forall b | b in blocks :: 0 < |b| < 0x1_0000
    requires blocks != [] && Prepared(w.flash, a, Concat(blocks)) && page == w.flash.page
    ensures var t := Program(w, a, page, blocks, true);
            && Holds(t.flash, w.flash, a, Concat(blocks), |Concat(blocks)|)
            && t.stage == Idle && t.eeprom == w.eeprom
  {
    hide Holds, Prepared, Reached, Writer.Accept, Writer.Feed;
    var n := |blocks| - 1;
    var data := Concat(blocks);
    var i := |Concat(blocks[..n])|;
    var m := |blocks[n]|;
    assert n == 0 ==> i == 0;
    assert data == Concat(blocks[..n]) + blocks[n];
    assert blocks[n] == data[i..i + m];
    hide Concat;
    if n == 0 {
      StartReached(w, a, page, m, Flags(true, true), data);
      var _ := FeedReached(w.Begin(a, m, page, Flags(true, true)), w.flash, w.flash, a, data, 0, m);
    } else {
      var base := BlocksReached(w, a, page, blocks[..n], data);
      var v := Program(w, a, page, blocks[..n], false);
      ContinueReached(v, base, w.flash, a, data, i, m, Flags(false, true));
      var _ := FeedReached(v.Begin(a + i, m, page, Flags(false, true)), base, w.flash, a, data, i, m);
    }
  }

  /** One packet, as usbFunctionWrite takes it. */
  function Take(w: Writer, packet: seq<byte>): Writer {
    if w.stage.Idle? then w else w.Feed(packet)
  }

  function TakeAll(w: Writer, packets: seq<seq<byte>>): Writer {
    if packets == [] then w else Take(TakeAll(w, packets[..|packets| - 1]), packets[|packets| - 1])
  }

  lemma {:induction false} FeedStage(w: Writer, data: seq<byte>)
    requires w.stage.WriteFlash? && |data| <= w.nbytes
    ensures w.Feed(data).nbytes == w.nbytes - |data|
    ensures |data| < w.nbytes || data == [] ==> w.Feed(data).stage.WriteFlash?
  {
    hide Store.Put, Store.Commit;
    if data != [] {
      FeedStage(w, data[..|data| - 1]);
    }
  }

  /** The packets of a block are taken as the block. */
  lemma {:induction false} PacketsTaken(w: Writer, packets: seq<seq<byte>>)
    requires w.stage.WriteFlash? && |Concat(packets)| <= w.nbytes
    ensures TakeAll(w, packets) == w.Feed(Concat(packets))
  {
    hide Writer.Accept;
    if packets != [] {
      var init, x := packets[..|packets| - 1], packets[|packets| - 1];
      PacketsTaken(w, init);
      FeedStage(w, Concat(init));
      FeedAdd(w, Concat(init), x);
      assert w.Feed(Concat(init)).stage.Idle? ==> x == [];
      FeedNothing(w.Feed(Concat(init)));
    }
  }

  lemma FeedNothing(w: Writer)
    ensures w.Feed([]) == w
  {
  }

  /** Every block has a length that fits a request. */
  predicate Sized(blocks: seq<seq<seq<byte>>>) {
    forall i | 0 <= i < |blocks| :: 0 < |Concat(blocks[i])| < 0x1_0000
  }

  /** Consecutive blocks, each arriving in packets. */
  function ProgramPackets(w: Writer, a: nat, page: word, blocks: seq<seq<seq<byte>>>, closing: bool): Writer
    requires Sized(blocks)
  {
    if blocks == [] then w
    else
      var n := |blocks| - 1;
      TakeAll(ProgramPackets(w, a, page, blocks[..n], false)
              .Begin(a + |Concat(Payloads(blocks[..n]))|, |Concat(blocks[n])|, page, Flags(n == 0, closing)),
              blocks[n])
  }

  function Payloads(blocks: seq<seq<seq<byte>>>): (r: seq<seq<byte>>)
    ensures |r| == |blocks| && forall i | 0 <= i < |r| :: r[i] == Concat(blocks[i])
  {
    if blocks == [] then [] else Payloads(blocks[..|blocks| - 1]) + [Concat(blocks[|blocks| - 1])]
  }

  lemma PayloadsSized(blocks: seq<seq<seq<byte>>>)
    requires Sized(blocks)
    ensures forall b | b in Payloads(blocks) :: 0 < |b| < 0x1_0000
  {
    hide Concat;
    var r := Payloads(blocks);
    forall b | b in r
      ensures 0 < |b| < 0x1_0000
    {
      var i :| 0 <= i < |r| && r[i] == b;
      assert 0 < |Concat(blocks[i])| < 0x1_0000;
    }
  }

  lemma {:induction false} PacketsAsBlocks(w: Writer, a: nat, page: word, blocks: seq<seq<seq<byte>>>, closing: bool)
    requires Sized(blocks)
    requires forall b | b in Payloads(blocks) :: 0 < |b| < 0x1_0000
    ensures ProgramPackets(w, a, page, blocks, closing) == Program(w, a, page, Payloads(blocks), closing)
  {
    hide Writer.Feed, TakeAll, Concat, Payloads;
    if blocks == [] {
      NoPayloads();
    } else {
      var n := |blocks| - 1;
      var front := Payloads(blocks[..n]);
      PayloadsSized(blocks[..n]);
      PacketsAsBlocks(w, a, page, blocks[..n], false);
      PayloadsLast(blocks);
      assert Payloads(blocks)[..n] == front;
      var v := Program(w, a, page, front, false);
      PacketsTaken(v.Begin(a + |Concat(front)|, |Concat(blocks[n])|, page, Flags(n == 0, closing)), blocks[n]);
    }
  }

  lemma NoPayloads()
    ensures Payloads([]) == []
  {
  }

  lemma PayloadsLast(blocks: seq<seq<seq<byte>>>)
    requires blocks != []
    ensures Payloads(blocks) == Payloads(blocks[..|blocks| - 1]) + [Concat(blocks[|blocks| - 1])]
  {
  }

  /** Any split into blocks and packets programs the erased device with exactly the data. */
  lemma PacketsProgrammed(w: Writer, a: nat, page: word, blocks: seq<seq<seq<byte>>>)
    requires blocks != [] && Sized(blocks)
    requires Prepared(w.flash, a, Concat(Payloads(blocks))) && page == w.flash.page
    ensures var t := ProgramPackets(w, a, page, blocks, true);
            var data := Concat(Payloads(blocks));
            Holds(t.flash, w.flash, a, data, |data|) && t.stage == Idle && t.eeprom == w.eeprom
  {
    hide Holds, Prepared, Program, ProgramPackets, Concat;
    PayloadsSized(blocks);
    PacketsAsBlocks(w, a, page, blocks, true);
    BlocksProgrammed(w, a, page, Payloads(blocks));
  }

  lemma {:induction false} BaseBeyond(a: nat, y: nat, page: nat)
    requires page > 0 && Offset(a, page) == 0 && y >= a
    ensures Base(y, page) >= a
  {
    if a >= page {
      BaseBeyond(a - page, y - page, page);
    }
  }

  /** A cell in a page that the writer has left behind keeps its value. */
  lemma {:induction false} LeftBehind(w: Writer, data: seq<byte>, edge: nat, c: nat)
    requires w.flash.page > 0 && Offset(edge, w.flash.page) == 0 && edge % 2 == 0
    requires c < edge <= w.address && |data| <= w.nbytes && w.stage.WriteFlash?
    ensures var t := w.Feed(data);
            && t.flash.cell(c) == w.flash.cell(c) && t.flash.page == w.flash.page
            && t.address == w.address + |data| && t.nbytes == w.nbytes - |data|
            && (|data| < w.nbytes ==> t.stage.WriteFlash?)
  {
    if data != [] {
      var t := w.Feed(data[..|data| - 1]);
      LeftBehind(w, data[..|data| - 1], edge, c);
      hide Store.Merged;
      BaseBeyond(edge, t.address - t.address % 2, w.flash.page);
      LeftBehindOne(t, data[|data| - 1], c);
    }
  }

  lemma LeftBehindOne(w: Writer, b: byte, c: nat)
    requires w.flash.page > 0 && w.stage.WriteFlash? && w.nbytes > 0
    requires c < Base(w.address - w.address % 2, w.flash.page)
    ensures w.Accept(b).flash.cell(c) == w.flash.cell(c) && w.Accept(b).flash.page == w.flash.page
    ensures w.Accept(b).address == w.address + 1 && w.Accept(b).nbytes == w.nbytes - 1
    ensures w.nbytes > 1 ==> w.Accept(b).stage.WriteFlash?
  {
    hide Base;
  }

  /** Where the chunk that straddles the end of the first page begins. */
  function Straddler(a: nat, page: nat): nat {
    a + Base(page, Period(page))
  }

  /** The writer is past the first page, and the first byte of the straddling chunk is not in its cell. */
  ghost predicate Behind(t: Writer, a: nat, page: nat) {
    t.flash.page == page && t.flash.cell(Straddler(a, page)) == 0xFF && t.address >= a + page
  }

  /** After exactly one page the straddling chunk is still pending. */
  lemma ReachedEdge(t: Writer, base: Store, was: Store, a: nat, data: seq<byte>)
    requires Erased(was, a, |data|) && |data| == was.page && Offset(was.page, Period(was.page)) != 0
    requires Reached(t, base, was, a, data, was.page)
    ensures Behind(t, a, was.page)
  {
    hide Holds, Store.PutAll, Period;
    var k := Base(was.page, Period(was.page));
    PutAllFrame(base, a + k, data[k..was.page]);
    HoldsAt(base, was, a, data, k, a + k);
  }

  /** What is written from the second page on does not come back to the first. */
  lemma StaysBehind(t: Writer, a: nat, page: nat, data: seq<byte>)
    requires Behind(t, a, page) && t.stage.WriteFlash? && |data| <= t.nbytes
    requires page > 0 && page % 2 == 0 && Offset(a, page) == 0 && Offset(page, Period(page)) != 0
    ensures Behind(t.Feed(data), a, page)
  {
    hide Period, Writer.Feed;
    Edge(a, page);
    LeftBehind(t, data, a + page, Straddler(a, page));
  }

  /** A block that crosses the end of the first page. */
  lemma CrossesEdge(t: Writer, base: Store, was: Store, a: nat, data: seq<byte>, i: nat, block: seq<byte>)
    requires Erased(was, a, |data|) && |data| == was.page && Offset(was.page, Period(was.page)) != 0
    requires i <= |data| < i + |block| == i + t.nbytes && block[..|data| - i] == data[i..]
    requires t.stage.WriteFlash? && Reached(t, base, was, a, data, i)
    ensures Behind(t.Feed(block), a, was.page)
  {
    hide Reached, Behind, Writer.Feed, Period, Holds, Offset;
    var m := |data| - i;
    var next := FeedReached(t, base, was, a, data, i, m);
    assert data[i..i + m] == block[..m];
    ReachedEdge(t.Feed(block[..m]), next, was, a, data);
    StaysBehind(t.Feed(block[..m]), a, was.page, block[m..]);
    FeedAdd(t, block[..m], block[m..]);
    assert block[..m] + block[m..] == block;
  }

  /** When a chunk straddles the end of the first page, its bytes before the end are programmed into the wrong page,
      however the transfer is split into blocks: the first of them stays erased. */
  lemma {:induction false} Straddling(w: Writer, a: nat, page: word, blocks: seq<seq<byte>>, closing: bool)
    requires forall b | b in blocks :: 0 < |b| < 0x1_0000
    requires Erased(w.flash, a, |Concat(blocks)|) && page == w.flash.page && !NoStraddle(page, |Concat(blocks)|)
    ensures Behind(Program(w, a, page, blocks, closing), a, page)
  {
    hide *;
    ErasedPart(w.flash, a, |Concat(blocks)|, 0);
    Straddles(page, |Concat(blocks)|);
    ErasedPart(w.flash, a, |Concat(blocks)|, page);
    LastBlock(blocks);
    ProgramLast(w, a, page, blocks, closing);
    var n := |blocks| - 1;
    var i := |Concat(blocks[..n])|;
    if i > page {
      Straddles(page, i);
      ErasedPart(w.flash, a, |Concat(blocks)|, i);
      Straddling(w, a, page, blocks[..n], false);
      var v := Program(w, a, page, blocks[..n], false);
      BehindBegin(v, a, page, i, |blocks[n]|, Flags(n == 0, closing));
      StaysBehind(v.Begin(a + i, |blocks[n]|, page, Flags(n == 0, closing)), a, page, blocks[n]);
    } else {
      CrossingBlock(w, a, page, blocks, Flags(n == 0, closing));
    }
  }

  lemma Straddles(page: nat, n: nat)
    ensures page > 0 ==> (!NoStraddle(page, n) <==> n > page && Offset(page, Period(page)) != 0)
    ensures Period(page) > 0
  {
  }

  lemma LastBlock(blocks: seq<seq<byte>>)
    ensures if blocks == [] then Concat(blocks) == []
            else Concat(blocks) == Concat(blocks[..|blocks| - 1]) + blocks[|blocks| - 1]
  {
  }

  lemma ProgramLast(w: Writer, a: nat, page: word, blocks: seq<seq<byte>>, closing: bool)
    requires forall b | b in blocks :: 0 < |b| < 0x1_0000
    requires blocks != []
    ensures var n := |blocks| - 1;
            var v := Program(w, a, page, blocks[..n], false)
                     .Begin(a + |Concat(blocks[..n])|, |blocks[n]|, page, Flags(n == 0, closing));
            && Program(w, a, page, blocks, closing) == v.Feed(blocks[n])
            && v.stage.WriteFlash? && v.nbytes == |blocks[n]|
            && (Has(Flags(n == 0, closing), PROG_BLOCKFLAG_FIRST) <==> n == 0)
  {
  }

  lemma Cut(blocks: seq<seq<byte>>, page: nat)
    requires blocks != [] && |Concat(blocks[..|blocks| - 1])| <= page < |Concat(blocks)|
    ensures var n := |blocks| - 1;
            var i := |Concat(blocks[..n])|;
            var data := Concat(blocks)[..page];
            && Concat(blocks[..n]) == data[..i] && blocks[n][..page - i] == data[i..]
            && |Concat(blocks)| == i + |blocks[n]| && (n == 0 ==> i == 0)
  {
    assert Concat(blocks) == Concat(blocks[..|blocks| - 1]) + blocks[|blocks| - 1];
  }

  /** Where the writer is when the next block begins, while it is within the first page. */
  lemma BegunReached(w: Writer, a: nat, page: word, blocks: seq<seq<byte>>, n: word, flags: byte, data: seq<byte>)
    returns (base: Store)
    requires forall b | b in blocks :: 0 < |b| < 0x1_0000
    requires page == w.flash.page && Concat(blocks) <= data && Prepared(w.flash, a, data)
    requires Has(flags, PROG_BLOCKFLAG_FIRST) <==> blocks == []
    ensures var v := Program(w, a, page, blocks, false).Begin(a + |Concat(blocks)|, n, page, flags);
            Reached(v, base, w.flash, a, data, |Concat(blocks)|)
  {
    hide Reached, Prepared, Holds, Writer.Feed;
    base := w.flash;
    if blocks == [] {
      StartReached(w, a, page, n, flags, data);
    } else {
      base := BlocksReached(w, a, page, blocks, data);
      ContinueReached(Program(w, a, page, blocks, false), base, w.flash, a, data, |Concat(blocks)|, n, flags);
    }
  }

  lemma OnePage(s: Store, a: nat, data: seq<byte>)
    requires Erased(s, a, |data|) && |data| == s.page
    ensures Prepared(s, a, data)
  {
  }

  lemma Begun(v: Writer, start: nat, n: word, page: word, flags: byte)
    ensures v.Begin(start, n, page, flags).stage.WriteFlash? && v.Begin(start, n, page, flags).nbytes == n
  {
  }

  /** The block of a transfer that reaches the second page. */
  lemma CrossingBlock(w: Writer, a: nat, page: word, blocks: seq<seq<byte>>, flags: byte)
    requires forall b | b in blocks :: 0 < |b| < 0x1_0000
    requires blocks != [] && page == w.flash.page && Offset(page, Period(page)) != 0
    requires |Concat(blocks[..|blocks| - 1])| <= page < |Concat(blocks)| && Erased(w.flash, a, page)
    requires Has(flags, PROG_BLOCKFLAG_FIRST) <==> |blocks| == 1
    ensures var n := |blocks| - 1;
            var i := |Concat(blocks[..n])|;
            Behind(Program(w, a, page, blocks[..n], false).Begin(a + i, |blocks[n]|, page, flags).Feed(blocks[n]),
                   a, page)
  {
    hide *;
    Cut(blocks, page);
    var n := |blocks| - 1;
    var i := |Concat(blocks[..n])|;
    var data := Concat(blocks)[..page];
    OnePage(w.flash, a, data);
    var v := Program(w, a, page, blocks[..n], false).Begin(a + i, |blocks[n]|, page, flags);
    Begun(Program(w, a, page, blocks[..n], false), a + i, |blocks[n]|, page, flags);
    var base := BegunReached(w, a, page, blocks[..n], |blocks[n]|, flags, data);
    CrossesEdge(v, base, w.flash, a, data, i, blocks[n]);
  }

  lemma BehindBegin(v: Writer, a: nat, page: word, i: nat, n: word, flags: byte)
    requires Behind(v, a, page) && i >= page
    ensures Behind(v.Begin(a + i, n, page, flags), a, page)
  {
  }

  lemma ErasedPart(s: Store, a: nat, n: nat, m: nat)
    requires Erased(s, a, n) && m <= n
    ensures Erased(s, a, m) && s.page > 0 && s.page % 2 == 0 && Offset(a, s.page) == 0
  {
  }

  ghost predicate HasSizes(blocks: seq<seq<byte>>, sizes: seq<word>) {
    |blocks| == |sizes| && forall i | 0 <= i < |sizes| :: |blocks[i]| == sizes[i]
  }

  function Total(sizes: seq<word>): nat {
    if sizes == [] then 0 else Total(sizes[..|sizes| - 1]) + sizes[|sizes| - 1]
  }

  lemma SizedBlocks(blocks: seq<seq<byte>>, sizes: seq<word>)
    requires HasSizes(blocks, sizes) && forall n | n in sizes :: n > 0
    ensures forall b | b in blocks :: 0 < |b| < 0x1_0000
    ensures |Concat(blocks)| == Total(sizes)
  {
    forall b | b in blocks
      ensures 0 < |b| < 0x1_0000
    {
      var i :| 0 <= i < |blocks| && blocks[i] == b;
      assert sizes[i] in sizes;
    }
    SizeOf(blocks, sizes);
  }

  lemma {:induction false} SizeOf(blocks: seq<seq<byte>>, sizes: seq<word>)
    requires HasSizes(blocks, sizes)
    ensures |Concat(blocks)| == Total(sizes)
  {
    if blocks != [] {
      SizeOf(blocks[..|blocks| - 1], sizes[..|sizes| - 1]);
    }
  }

  function ZeroBlocks(sizes: seq<word>): (r: seq<seq<byte>>)
    ensures HasSizes(r, sizes)
    ensures forall i | 0 <= i < |Concat(r)| :: Concat(r)[i] == 0
  {
    if sizes == [] then []
    else
      var init := ZeroBlocks(sizes[..|sizes| - 1]);
      var r := init + [Zeros(sizes[|sizes| - 1])];
      assert r[..|init|] == init;
      r
  }

  /** The device holds the data of the blocks afterwards. */
  ghost predicate Programs(w: Writer, a: nat, page: word, blocks: seq<seq<byte>>) {
    && (forall b | b in blocks :: 0 < |b| < 0x1_0000)
    && Holds(Program(w, a, page, blocks, true).flash, w.flash, a, Concat(blocks), |Concat(blocks)|)
  }

  /** Page sizes the one-byte counter can serve: a transfer from a page start, split into blocks of any sizes, is
      programmed right whatever its bytes are, exactly when no chunk between two flushes straddles a page. */
  lemma PageSizes(w: Writer, a: nat, page: word, sizes: seq<word>)
    requires sizes != [] && forall n | n in sizes :: n > 0
    requires Erased(w.flash, a, Total(sizes)) && page == w.flash.page
    ensures NoStraddle(page, Total(sizes)) <==>
            forall blocks | HasSizes(blocks, sizes) :: Programs(w, a, page, blocks)
  {
    hide Holds, Erased, Program, NoStraddle, HasSizes, Concat, Behind;
    if NoStraddle(page, Total(sizes)) {
      forall blocks | HasSizes(blocks, sizes)
        ensures Programs(w, a, page, blocks)
      {
        SizedBlocks(blocks, sizes);
        SomeBlocks(blocks, sizes);
        BlocksProgrammed(w, a, page, blocks);
      }
    } else {
      var blocks := ZeroBlocks(sizes);
      SizedBlocks(blocks, sizes);
      Straddling(w, a, page, blocks, true);
      ErasedPart(w.flash, a, Total(sizes), 0);
      ZerosMissing(w, a, page, Program(w, a, page, blocks, true), Concat(blocks));
    }
  }

  lemma SomeBlocks(blocks: seq<seq<byte>>, sizes: seq<word>)
    requires HasSizes(blocks, sizes) && sizes != []
    ensures blocks != []
  {
  }

  lemma ZerosMissing(w: Writer, a: nat, page: word, t: Writer, data: seq<byte>)
    requires Behind(t, a, page) && !NoStraddle(page, |data|) && page > 0
    requires forall i | 0 <= i < |data| :: data[i] == 0
    ensures !Holds(t.flash, w.flash, a, data, |data|)
  {
    hide Period;
    assert Base(page, Period(page)) < |data|;
  }

  lemma Edge(a: nat, page: nat)
    requires page > 0 && page % 2 == 0 && Offset(a, page) == 0
    ensures Offset(a + page, page) == 0 && (a + page) % 2 == 0
  {
    EvenBase(a, page);
    OffsetSum(a, page, page);
  }

  lemma HoldsAt(s: Store, was: Store, a: nat, data: seq<byte>, k: nat, c: nat)
    requires k <= |data| && Holds(s, was, a, data, k)
    ensures s.cell(c) == if a <= c < a + k then data[c - a] else was.cell(c)
    ensures s.page == was.page
  {
  }

  lemma SmallPages(page: nat, n: nat)
    requires 0 < page <= 0x100
    ensures NoStraddle(page, n)
  {
  }

  /** Without pages every byte is programmed as it arrives. */
  lemma {:induction false} Unpaged(w: Writer, data: seq<byte>)
    requires w.flash.page == 0 && w.pagesize == 0 && w.stage.WriteFlash? && |data| <= w.nbytes
    ensures var t := w.Feed(data);
            && t.flash == w.flash.PutAll(w.address, data) && t.eeprom == w.eeprom
            && t.address == w.address + |data| && t.nbytes == w.nbytes - |data|
            && t.pagesize == 0 && t.stage == (if data != [] && |data| == w.nbytes then Idle else WriteFlash)
  {
    if data != [] {
      var init := data[..|data| - 1];
      Unpaged(w, init);
      PutAllFrame(w.flash, w.address, init);
      hide Store.PutAll, Store.Direct;
      UnpagedOne(w.Feed(init), data[|data| - 1]);
      PutAllSnoc(w.flash, w.address, data);
    }
  }

  lemma UnpagedOne(w: Writer, b: byte)
    requires w.flash.page == 0 && w.pagesize == 0 && w.stage.WriteFlash? && w.nbytes > 0
    ensures var t := w.Accept(b);
            && t.flash == w.flash.Put(w.address, b) && t.eeprom == w.eeprom && t.pagesize == 0
            && t.address == w.address + 1 && t.nbytes == w.nbytes - 1
            && t.stage == if w.nbytes == 1 then Idle else WriteFlash
  {
    assert w.flash.Put(w.address, b).page == 0;
    hide Store.Direct;
  }

  lemma PutAllSnoc(s: Store, a: nat, data: seq<byte>)
    requires data != []
    ensures var n := |data| - 1;
            s.PutAll(a, data) == s.PutAll(a, data[..n]).Put(a + n, data[n])
  {
  }

  /** So any split into blocks writes exactly the data ... */
  lemma {:induction false} UnpagedBlocks(w: Writer, a: nat, blocks: seq<seq<byte>>, closing: bool)
    requires forall b | b in blocks :: 0 < |b| < 0x1_0000
    requires w.flash.page == 0
    ensures var t := Program(w, a, 0, blocks, closing);
            && t.flash == w.flash.PutAll(a, Concat(blocks)) && t.eeprom == w.eeprom
            && (blocks != [] ==> t.stage == Idle)
  {
    hide Store.PutAll, Store.Put, Writer.Accept;
    LastBlock(blocks);
    if blocks == [] {
      PutAllNone(w.flash, a);
    } else {
      var n := |blocks| - 1;
      UnpagedBlocks(w, a, blocks[..n], false);
      ProgramLast(w, a, 0, blocks, closing);
      hide Concat, Program, Writer.Feed;
      var init := Concat(blocks[..n]);
      var v := Program(w, a, 0, blocks[..n], false);
      PutAllFrame(w.flash, a, init);
      Unpaged(v.Begin(a + |init|, |blocks[n]|, 0, Flags(n == 0, closing)), blocks[n]);
      PutAllAppend(w.flash, a, init, blocks[n]);
    }
  }

  lemma PutAllNone(s: Store, a: nat)
    ensures s.PutAll(a, []) == s
  {
  }

  /** ... and on erased cells the device holds it afterwards, in whatever packets the blocks arrive. */
  lemma UnpagedProgrammed(w: Writer, a: nat, blocks: seq<seq<seq<byte>>>)
    requires Sized(blocks) && blocks != [] && w.flash.page == 0 && w.flash.Clean() && !w.flash.autoErase
    requires forall c | a <= c < a + |Concat(Payloads(blocks))| :: w.flash.cell(c) == 0xFF
    ensures var t := ProgramPackets(w, a, 0, blocks, true);
            var data := Concat(Payloads(blocks));
            && t.stage == Idle && t.eeprom == w.eeprom
            && forall c: nat :: t.flash.cell(c) == if a <= c < a + |data| then data[c - a] else w.flash.cell(c)
  {
    hide Program, ProgramPackets, Store.PutAll, Payloads, And, Concat;
    PayloadsSized(blocks);
    PacketsAsBlocks(w, a, 0, blocks, true);
    UnpagedBlocks(w, a, Payloads(blocks), true);
    var data := Concat(Payloads(blocks));
    forall c: nat
      ensures w.flash.PutAll(a, data).cell(c) == if a <= c < a + |data| then data[c - a] else w.flash.cell(c)
    {
      PutAllDirect(w.flash, a, data, c);
      if a <= c < a + |data| {
        AndErased(data[c - a]);
      }
    }
  }

  function Directs(s: Store, a: nat, data: seq<byte>): Store {
    if data == [] then s
    else Directs(s, a, data[..|data| - 1]).Direct((a + |data| - 1) % 0x1_0000, data[|data| - 1])
  }

  /** Bytes of a packet beyond the announced length are not dropped: they are written to the EEPROM, at the addresses
      that would have come next. The flash is left alone. */
  lemma {:induction false} Spill(w: Writer, data: seq<byte>)
    requires w.stage == Idle && w.nbytes == 0 && |data| < 0x1_0000
    ensures var t := w.Feed(data);
            && t.stage == Idle && t.flash == w.flash && t.address == w.address + |data|
            && t.nbytes == (if data == [] then 0 else 0x1_0000 - |data|)
            && t.eeprom == Directs(w.eeprom, w.address, data)
  {
    hide Store.Commit, Store.Direct;
    if data != [] {
      Spill(w, data[..|data| - 1]);
    }
  }

  /** So a packet leaves the EEPROM alone exactly when it is not longer than announced, provided its extra bytes would
      show. */
  lemma NoSpill(w: Writer, data: seq<byte>)
    requires w.stage == Idle && w.nbytes == 0 && w.eeprom.autoErase && |data| <= 8
    requires forall i | 0 <= i < |data| :: data[i] != w.eeprom.cell((w.address + i) % 0x1_0000)
    ensures w.Feed(data).eeprom == w.eeprom <==> data == []
  {
    if data != [] {
      hide Store.Commit;
      Spill(w, data);
      var n := |data| - 1;
      var at := (w.address + n) % 0x1_0000;
      DirectsFrame(w.eeprom, w.address, data[..n]);
      assert w.Feed(data).eeprom.cell(at) == data[n];
    }
  }

  lemma {:induction false} DirectsFrame(s: Store, a: nat, data: seq<byte>)
    ensures Directs(s, a, data).autoErase == s.autoErase
  {
    if data != [] {
      DirectsFrame(s, a, data[..|data| - 1]);
    }
  }

  /** The address a request delivers without SETLONGADDRESS: the two bytes are joined in a 16-bit signed integer, whose
      sign is carried into the upper half of the 32-bit address. */
  function ShortAddress(lo: byte, hi: byte): nat {
    Join(hi, lo) + if hi >= 0x80 then 0xFFFF_0000 else 0
  }

  /** Such an address reaches the cell it names only in the lower half of its range. */
  lemma ShortAddressReaches(lo: byte, hi: byte)
    ensures Hit(Ext(ShortAddress(lo, hi)), ShortAddress(lo, hi)) == Join(hi, lo) <==> hi < 0x80
  {
    hide Ext, Hit;
    var k := Reassembled(ShortAddress(lo, hi));
  }

  class FlashWriter {
    const isp: Isp
    var progState: Stage
    var progAddress: nat
    var progAddressNewmode: bool
    var progNbytes: word
    var progPagesize: word
    var progBlockflags: byte
    var progPagecounter: byte

    constructor (programmer: Isp)
      ensures isp == programmer && !progAddressNewmode
      ensures progState == Idle && progAddress == progNbytes == progPagesize == 0
      ensures progBlockflags == progPagecounter == 0
    {
      isp := programmer;
      progState, progAddress, progAddressNewmode := Idle, 0, false;
      progNbytes, progPagesize, progBlockflags, progPagecounter := 0, 0, 0, 0;
    }

    ghost predicate Valid()
      reads this, isp
    {
      isp.Ready() && isp.State().Coherent()
    }

    ghost function State(): Writer
      reads this, isp
    {
      Writer(progState, progAddress, progNbytes, progPagesize, progBlockflags, progPagecounter,
             isp.target.flash, isp.target.eeprom)
    }

    method SetLongAddress(address: long)
      modifies this
      ensures progAddressNewmode && State() == old(State()).(address := address)
    {
      progAddressNewmode, progAddress := true, address;
    }

    /** The WRITEFLASH request: a 12-bit page size, of which the counter takes 8. */
    method SetupWriteFlash(data: seq<byte>)
      requires |data| == 8
      modifies this
      ensures progAddressNewmode == old(progAddressNewmode)
      ensures State() ==
              old(State()).Begin(if progAddressNewmode then old(progAddress) else ShortAddress(data[2], data[3]),
                                 Join(data[7], data[6]), Join(data[5] / 0x10, data[4]), data[5] % 0x10)
    {
      if !progAddressNewmode {
        progAddress := ShortAddress(data[2], data[3]);
      }
      progPagesize := data[4];
      progBlockflags := data[5] % 0x10;
      progPagesize := Join(data[5] / 0x10, progPagesize);
      if Has(progBlockflags, PROG_BLOCKFLAG_FIRST) {
        progPagecounter := progPagesize % 0x100;
      }
      progNbytes := Join(data[7], data[6]);
      progState := WriteFlash;
    }

    method Store1(b: byte)
      requires Valid() && progState == WriteFlash && progAddress < REACH
      modifies this`progPagecounter, isp
      ensures Valid() && State() == old(State()).AcceptFlash(b)
      ensures SameDevice(old(isp.target), isp.target)
      ensures old(isp.Kept()) && (progPagesize > 0 ==> isp.target.flash.page > 0) ==> isp.Kept()
      ensures Kinds(isp.waits) == old(Kinds(isp.waits)) + old(State()).AcceptDue(b)
    {
      hide Ext, Hit, Store.Put, Store.Commit, AllServed, Kinds;
      Reaches(isp.State(), progAddress);
      ghost var was := isp.waits;
      assert Kinds(was) + [] == Kinds(was);
      if progPagesize == 0 {
        var _ := isp.WriteFlash(progAddress, b, 1);
        KindsSnoc(was, isp.waits[|was|]);
      } else {
        var _ := isp.WriteFlash(progAddress, b, 0);
        assert isp.waits == was;
        progPagecounter := if progPagecounter == 0 then 0xFF else progPagecounter - 1;
        if progPagecounter == 0 {
          Reaches(isp.State(), progAddress);
          var _ := isp.FlushPage(progAddress, b);
          KindsSnoc(was, isp.waits[|was|]);
          progPagecounter := progPagesize % 0x100;
        }
      }
    }

    /** The closing part of the byte loop. */
    method Count(b: byte)
      requires Valid() && progAddress < REACH
      modifies this`progNbytes, this`progState, this`progAddress, isp
      ensures Valid() && State() == old(State()).Counted() && progAddressNewmode == old(progAddressNewmode)
      ensures SameDevice(old(isp.target), isp.target) && (old(isp.Kept()) ==> isp.Kept())
      ensures Kinds(isp.waits) == old(Kinds(isp.waits)) + old(State()).CountDue(b)
    {
      hide Ext, Hit, Store.Put, Store.Commit, AllServed, Kinds;
      ghost var was := isp.waits;
      progNbytes := if progNbytes == 0 then 0xFFFF else progNbytes - 1;
      if progNbytes == 0 {
        progState := Idle;
        if Has(progBlockflags, PROG_BLOCKFLAG_LAST) && progPagecounter != progPagesize {
          Reaches(isp.State(), progAddress);
          var _ := isp.FlushPage(progAddress, b);
          KindsSnoc(was, isp.waits[|was|]);
        }
      }
      progAddress := progAddress + 1;
    }

    /** One turn of the byte loop. */
    method AcceptByte(b: byte)
      requires Valid() && progAddress < REACH
      modifies this`progPagecounter, this`progNbytes, this`progState, this`progAddress, isp
      ensures Valid() && State() == old(State()).Accept(b)
      ensures progAddress == old(progAddress) + 1
      ensures progNbytes == if old(progNbytes) == 0 then 0xFFFF else old(progNbytes) - 1
      ensures SameDevice(old(isp.target), isp.target)
      ensures old(isp.Kept()) && (progPagesize > 0 ==> isp.target.flash.page > 0) ==> isp.Kept()
      ensures Kinds(isp.waits) == old(Kinds(isp.waits)) + old(State()).Due(b)
    {
      hide Writer.Accept, Writer.AcceptFlash, Writer.Counted, Writer.AcceptDue, Link.Coherent, Isp.Kept, Kinds;
      ghost var was := isp.waits;
      AcceptSteps(State(), b);
      if progState == WriteFlash {
        Store1(b);
      } else {
        isp.WriteEEPROM(progAddress, b);
        KindsSnoc(was, isp.waits[|was|]);
      }
      ghost var due := old(State()).Due(b);
      Count(b);
      assert Kinds(isp.waits) == Kinds(was) + due;
    }

    /** The byte loop. */
    method TakeBytes(data: seq<byte>) returns (retVal: byte)
      requires Valid() && progState != Idle && progAddress + |data| <= REACH
      modifies this`progPagecounter, this`progNbytes, this`progState, this`progAddress, isp
      ensures Valid() && State() == old(State()).Feed(data)
      ensures |data| < 0x1_0000 ==> retVal == if 0 < old(progNbytes) <= |data| then 1 else 0
      ensures old(isp.Kept()) && (progPagesize > 0 ==> isp.target.flash.page > 0) ==> isp.Kept()
      ensures Kinds(isp.waits) == old(Kinds(isp.waits)) + old(State()).DueAll(data)
    {
      hide Writer.Accept, Writer.AcceptFlash, Writer.Counted, Writer.Due, Writer.Feed, Writer.DueAll, Link.Coherent,
           Isp.Kept, Kinds;
      ghost var w, kinds := State(), Kinds(isp.waits);
      FedNone(w, data, kinds);
      retVal := 0;
      for i := 0 to |data|
        invariant Valid() && progAddress == old(progAddress) + i
        invariant State() == w.Feed(data[..i]) && Kinds(isp.waits) == kinds + w.DueAll(data[..i])
        invariant SameDevice(old(isp.target), isp.target)
        invariant old(isp.Kept()) && (progPagesize > 0 ==> isp.target.flash.page > 0) ==> isp.Kept()
        invariant i < 0x1_0000 ==>
                    && progNbytes == (if i <= w.nbytes then w.nbytes - i else 0x1_0000 + w.nbytes - i)
                    && retVal == (if 0 < w.nbytes <= i then 1 else 0)
      {
        FedNext(w, data, i, kinds);
        AcceptByte(data[i]);
        if progNbytes == 0 {
          retVal := 1;
        }
      }
      assert data[..|data|] == data;
    }

    /** usbFunctionWrite during a flash transfer: the packet is fed byte by byte, and the answer tells whether it
        completed the announced length. No write comes early while every wait has served. */
    method FunctionWrite(data: seq<byte>) returns (retVal: byte)
      requires Valid() && |data| <= 8 && progAddress + |data| <= REACH
      modifies this, isp
      ensures Valid() && progAddressNewmode == old(progAddressNewmode)
      ensures old(progState) == Idle ==> retVal == 0xFF && State() == old(State()) && isp.waits == old(isp.waits)
      ensures old(progState) != Idle ==> State() == old(State()).Feed(data)
      ensures old(progState) != Idle ==> retVal == if 0 < old(progNbytes) <= |data| then 1 else 0
      ensures old(isp.Kept()) && (progPagesize > 0 ==> isp.target.flash.page > 0) ==> isp.Kept()
      ensures old(progState) != Idle ==> Kinds(isp.waits) == old(Kinds(isp.waits)) + old(State()).DueAll(data)
    {
      if progState != WriteFlash && progState != WriteEeprom {
        return 0xFF;
      }
      retVal := TakeBytes(data);
    }
  }

  lemma FedNone(w: Writer, data: seq<byte>, kinds: seq<Wait>)
    ensures w.Feed(data[..0]) == w && kinds + w.DueAll(data[..0]) == kinds
  {
  }

  lemma FedNext(w: Writer, data: seq<byte>, i: nat, kinds: seq<Wait>)
    requires i < |data|
    ensures w.Feed(data[..i + 1]) == w.Feed(data[..i]).Accept(data[i])
    ensures kinds + w.DueAll(data[..i + 1]) == kinds + w.DueAll(data[..i]) + w.Feed(data[..i]).Due(data[i])
  {
    hide Writer.Accept, Writer.Due;
    assert data[..i + 1][..i] == data[..i];
  }

  lemma AcceptSteps(w: Writer, b: byte)
    ensures w.Accept(b) == (if w.stage.WriteFlash? then w.AcceptFlash(b)
                            else w.(eeprom := w.eeprom.Direct(w.address % 0x1_0000, b))).Counted()
    ensures w.Accept(b).address == w.address + 1
    ensures w.Accept(b).nbytes == if w.nbytes == 0 then 0xFFFF else w.nbytes - 1
  {
  }
}
