/** How the AVRISP engine drives the extended address register, as a function of its commands, and why the
    device cannot tell it from one with a full-width address (V2Protocol.c, ISPProtocol.c, ISPTarget.c). */
module IspLink {
  import opened Bytes
  import opened Pages
  import opened AvrTarget

  datatype Space = Flash | Eeprom

  const SEGMENT: nat := 0x1_0000
  const WORDS: nat := 0x100_0000

  /** The 32-bit `CurrentAddress`: flag bits, the byte for the extended address register, and the 16 bits that go
      with every instruction. */
  datatype Address = Address(top: byte, upper: byte, low: word) {

    function Cursor(): nat {
      upper * SEGMENT + low
    }

    /** The host announces a changed upper byte with bit 31. */
    predicate Extended() {
      top >= 0x80
    }

    function Next(): Address {
      if low < SEGMENT - 1 then this.(low := low + 1)
      else if upper < 0xFF then Address(top, upper + 1, 0)
      else Address((top + 1) % 0x100, 0, 0)
    }
  }

  function Parts(a: long): Address {
    Address((a / 0x100_0000) % 0x100, (a / 0x1_0000) % 0x100, a % 0x1_0000)
  }

  lemma PartsValue(a: long, p: Address)
    ensures Parts(a) == p <==> a == p.top * WORDS + p.Cursor()
  {
    var q := a / 0x1_0000;
    var t := q / 0x100;
    assert a / 0x100_0000 == t < 0x100;
    assert a == (t * 0x100 + q % 0x100) * 0x1_0000 + a % 0x1_0000;
    assert Parts(a) == Address(t, q % 0x100, a % 0x1_0000);
  }

  /** Incrementing the C variable carries through the pieces. */
  lemma PartsNext(a: long)
    ensures Parts((a + 1) % 0x1_0000_0000) == Parts(a).Next()
  {
    hide Parts;
    var p := Parts(a);
    var b := (a + 1) % 0x1_0000_0000;
    PartsValue(a, p);
    assert b == if a < 0xFFFF_FFFF then a + 1 else 0;
    PartsValue(b, p.Next());
  }

  /** The engine's address globals, and the device register they must agree with. */
  datatype Pos = Pos(addr: Address, must: bool, ext: byte) {

    /** The deferred update invariant: the register is right, or it will be loaded before it is used. */
    predicate Coherent() {
      must || ext == addr.upper
    }

    function Synced(): Pos {
      if must then this.(ext := addr.upper, must := false) else this
    }

    /** Where the device puts byte number `i` of a command, given the register it has. */
    function Hit(space: Space, i: nat): nat {
      match space
      case Flash => 2 * (ext * SEGMENT + addr.low) + i % 2
      case Eeprom => addr.low
    }

    /** Flash advances on every second byte and notices a 64K-word boundary, EEPROM advances on every byte. */
    function Next(space: Space, i: nat): Pos {
      if space.Eeprom? then this.(addr := addr.Next())
      else if i % 2 == 0 then this
      else this.(addr := addr.Next(), must := must || addr.Next().low == 0)
    }

    /** Position after `n` bytes of a command. */
    function Skip(space: Space, n: nat): Pos {
      if n == 0 then this else Skip(space, n - 1).Synced().Next(space, n - 1)
    }
  }

  datatype Link = Link(pos: Pos, flash: Store, eeprom: Store) {

    function StoreOf(space: Space): Store {
      if space.Flash? then flash else eeprom
    }

    function With(space: Space, s: Store): Link {
      if space.Flash? then this.(flash := s) else this.(eeprom := s)
    }

    /** The register is brought up to date and byte `i` of a command goes out. */
    function Stored(space: Space, i: nat, b: byte): Link {
      var p := pos.Synced();
      With(space, StoreOf(space).Put(p.Hit(space, i), b)).(pos := p)
    }

    function Write1(space: Space, i: nat, b: byte): Link {
      var l := Stored(space, i, b);
      l.(pos := l.pos.Next(space, i))
    }

    function Write(space: Space, data: seq<byte>): Link {
      if data == [] then this
      else Write(space, data[..|data| - 1]).Write1(space, |data| - 1, data[|data| - 1])
    }

    function Commit(space: Space, start: word): Link {
      var a := if space.Flash? then 2 * (pos.ext * SEGMENT + start) else start;
      With(space, StoreOf(space).Commit(a)).(pos := pos.(must := pos.must || (space.Flash? && pos.addr.low == 0)))
    }

    /** A block of which `done` bytes were completed; the byte a failure stopped at was sent, but not counted. */
    function Programmed(space: Space, data: seq<byte>, done: nat, commit: bool): Link
      requires done <= |data|
    {
      var l := Write(space, data[..done]);
      var m := if done < |data| then l.Stored(space, done, data[done]) else l;
      if commit then m.Commit(space, pos.addr.low) else m
    }

    function Read(space: Space, n: nat): seq<byte> {
      if n == 0 then []
      else Read(space, n - 1) + [StoreOf(space).cell(pos.Skip(space, n - 1).Synced().Hit(space, n - 1))]
    }
  }

  lemma WriteSnoc(l: Link, space: Space, data: seq<byte>, i: nat)
    requires i < |data|
    ensures var s := l.Write(space, data[..i]).Stored(space, i, data[i]);
            l.Write(space, data[..i + 1]) == s.(pos := s.pos.Next(space, i))
  {
    assert data[..i + 1][..i] == data[..i];
  }

  /** How many bytes of a block have gone out when `done` were completed. */
  function Sent(data: seq<byte>, done: nat): (n: nat)
    requires done <= |data|
    ensures done <= n <= |data|
  {
    if done < |data| then done + 1 else done
  }

  /** The reference device: one flat word address, no register. */
  datatype Flat = Flat(cursor: nat, flash: Store, eeprom: Store) {

    function StoreOf(space: Space): Store {
      if space.Flash? then flash else eeprom
    }

    function At(space: Space): nat {
      if space.Flash? then 2 * cursor else cursor % SEGMENT
    }

    function Moved(space: Space, n: nat): Flat {
      this.(cursor := Wrapped(cursor + Steps(space, n)))
    }

    /** A block of which `done` bytes were completed and the next one, if any, was sent. */
    function Programmed(space: Space, data: seq<byte>, done: nat, commit: bool): Flat
      requires done <= |data|
    {
      var s := StoreOf(space).PutAll(At(space), data[..Sent(data, done)]);
      var t := if commit then s.Commit(At(space)) else s;
      (if space.Flash? then this.(flash := t) else this.(eeprom := t)).Moved(space, done)
    }

    function Read(space: Space, n: nat): (r: seq<byte>)
      ensures |r| == n && forall i | 0 <= i < n :: r[i] == StoreOf(space).cell(At(space) + i)
    {
      seq<byte>(n, i requires 0 <= i => StoreOf(space).cell(At(space) + i))
    }
  }

  /** The address counter wraps at the end of the 24-bit word address space. */
  function Wrapped(c: nat): nat {
    if c < WORDS then c else c - WORDS
  }

  /** How far the address counter moves during `n` bytes. */
  function Steps(space: Space, n: nat): nat {
    if space.Flash? then n / 2 else n
  }

  function Seen(l: Link): Flat {
    Flat(l.pos.addr.Cursor(), l.flash, l.eeprom)
  }

  lemma CursorLow(a: Address)
    ensures a.Cursor() % SEGMENT == a.low
    ensures Parts(a.Cursor() % WORDS) == a.(top := 0)
  {
    PartsValue(a.Cursor(), a.(top := 0));
  }

  lemma CursorNext(a: Address)
    ensures a.Next().Cursor() == Wrapped(a.Cursor() + 1)
    ensures a.Next().low != 0 ==> a.Next().upper == a.upper && a.low + 1 < SEGMENT
  {
  }

  /** A block of `n` bytes stays inside the address space its command can reach. */
  predicate Fits(a: Address, space: Space, n: nat) {
    if space.Flash? then a.Cursor() + (n + 1) / 2 <= WORDS else a.low + n < SEGMENT
  }

  lemma FitsLess(a: Address, space: Space, n: nat, k: nat)
    requires Fits(a, space, n) && k <= n
    ensures Fits(a, space, k)
  {
  }

  /** `q` is the position after `n` bytes of a command started at `p`. */
  ghost predicate Along(p: Pos, q: Pos, space: Space, n: nat) {
    && q.Coherent()
    && q.addr.Cursor() == Wrapped(p.addr.Cursor() + Steps(space, n))
    && (n > 0 && space.Flash? ==> q.ext * SEGMENT <= p.addr.Cursor() + (n - 1) / 2 < q.ext * SEGMENT + SEGMENT)
    && (n == 0 ==> q == p)
  }

  /** The byte about to be transferred goes where the flat device would put it. */
  lemma FlashStep(p: Pos, q: Pos, n: nat)
    requires Along(p, q, Flash, n) && Fits(p.addr, Flash, n + 1)
    ensures q.Synced().Hit(Flash, n) == 2 * p.addr.Cursor() + n
    ensures Along(p, q.Synced().Next(Flash, n), Flash, n + 1)
  {
    CursorNext(q.addr);
    assert q.Synced().ext == q.addr.upper;
    assert (n + 1) / 2 == n / 2 + n % 2;
  }

  lemma EepromStep(p: Pos, q: Pos, n: nat)
    requires Along(p, q, Eeprom, n) && Fits(p.addr, Eeprom, n + 1)
    ensures q.Synced().Hit(Eeprom, n) == p.addr.low + n
    ensures Along(p, q.Synced().Next(Eeprom, n), Eeprom, n + 1)
  {
    CursorNext(q.addr);
  }

  /** Address of byte `i` of a block, in full. */
  function Spot(p: Pos, space: Space): nat {
    if space.Flash? then 2 * p.addr.Cursor() else p.addr.low
  }

  lemma StepAlong(p: Pos, q: Pos, space: Space, n: nat)
    requires Along(p, q, space, n) && Fits(p.addr, space, n + 1)
    ensures q.Synced().Hit(space, n) == Spot(p, space) + n
    ensures Along(p, q.Synced().Next(space, n), space, n + 1)
  {
    if space.Flash? {
      FlashStep(p, q, n);
    } else {
      EepromStep(p, q, n);
    }
  }

  /** During a block the invariant holds throughout. */
  lemma {:induction false} SkipAlong(p: Pos, space: Space, n: nat)
    requires p.Coherent() && Fits(p.addr, space, n)
    ensures Along(p, p.Skip(space, n), space, n)
  {
    hide Along, Fits;
    if n == 0 {
      AlongStart(p, space);
    } else {
      var k := n - 1;
      FitsLess(p.addr, space, n, k);
      SkipAlong(p, space, k);
      StepAlong(p, p.Skip(space, k), space, k);
    }
  }

  lemma AlongStart(p: Pos, space: Space)
    requires p.Coherent()
    ensures Along(p, p, space, 0)
  {
  }

  /** Every byte of a block goes where the flat device puts it. */
  lemma HitAlong(p: Pos, space: Space, k: nat)
    requires p.Coherent() && Fits(p.addr, space, k + 1)
    ensures p.Skip(space, k).Synced().Hit(space, k) == Spot(p, space) + k
  {
    FitsLess(p.addr, space, k + 1, k);
    SkipAlong(p, space, k);
    StepAlong(p, p.Skip(space, k), space, k);
  }

  /** A block is stored as by the flat device. */
  lemma {:induction false} WriteAlong(l: Link, space: Space, data: seq<byte>)
    requires l.pos.Coherent() && Fits(l.pos.addr, space, |data|)
    ensures l.Write(space, data) ==
            l.With(space, l.StoreOf(space).PutAll(Spot(l.pos, space), data)).(pos := l.pos.Skip(space, |data|))
  {
    if data != [] {
      FitsLess(l.pos.addr, space, |data|, |data| - 1);
      WriteAlong(l, space, data[..|data| - 1]);
      HitAlong(l.pos, space, |data| - 1);
    }
  }

  /** An EEPROM block may reach up to the last address and is stored as it should be; but if it does, the carry into
      bits 16 to 23 schedules no load, and flash accesses that follow without a new address go astray. */
  lemma EepromEnds(l: Link, data: seq<byte>)
    requires l.pos.Coherent() && data != [] && l.pos.addr.low + |data| <= SEGMENT
    ensures var m := l.Write(Eeprom, data);
            && m.eeprom == l.eeprom.PutAll(l.pos.addr.low, data) && m.flash == l.flash
            && (m.pos.Coherent() <==> l.pos.addr.low + |data| < SEGMENT)
            && (m.pos.Synced().Hit(Flash, 0) == Spot(m.pos, Flash) <==> m.pos.Coherent())
  {
    hide Fits, Store.Put;
    var n := |data| - 1;
    FitsEeprom(l.pos.addr, n);
    WriteAlong(l, Eeprom, data[..n]);
    SkipAlong(l.pos, Eeprom, n);
    LowAlong(l.pos, l.pos.Skip(Eeprom, n), n);
  }

  lemma FitsEeprom(a: Address, n: nat)
    ensures Fits(a, Eeprom, n) <==> a.low + n < SEGMENT
  {
  }

  lemma LowAlong(p: Pos, q: Pos, n: nat)
    requires Along(p, q, Eeprom, n) && p.addr.low + n < SEGMENT
    ensures q.addr.low == p.addr.low + n
  {
  }

  lemma ReadSnoc(f: Flat, space: Space, n: nat)
    ensures f.Read(space, n + 1) == f.Read(space, n) + [f.StoreOf(space).cell(f.At(space) + n)]
  {
  }

  lemma SpotSeen(l: Link, space: Space)
    ensures Spot(l.pos, space) == Seen(l).At(space)
  {
    CursorLow(l.pos.addr);
  }

  /** Reading returns what the flat device holds. */
  lemma {:induction false} ReadAlong(l: Link, space: Space, n: nat)
    requires l.pos.Coherent() && Fits(l.pos.addr, space, n)
    ensures l.Read(space, n) == Seen(l).Read(space, n)
  {
    if n > 0 {
      FitsLess(l.pos.addr, space, n, n - 1);
      ReadAlong(l, space, n - 1);
      HitAlong(l.pos, space, n - 1);
      SpotSeen(l, space);
      ReadSnoc(Seen(l), space, n - 1);
    }
  }

  /** Host commands; a program command comes with how far it got before a wait failed. */
  datatype Command =
    | LoadAddress(a: Address)
    | Program(space: Space, data: seq<byte>, done: nat, commit: bool)
    | ReadOut(space: Space, n: nat)

  /** What the host has to respect, in terms of the flat device only: tell the engine when the upper address byte
      changes, stay inside the address space, and commit a block that does not straddle a 64K-word boundary. */
  predicate Respects(f: Flat, c: Command) {
    var at := Parts(f.cursor % WORDS);
    match c
    case LoadAddress(a) => a.Extended() || a.upper == at.upper
    case Program(space, data, done, commit) =>
      && done <= |data|
      && Fits(at, space, Sent(data, done))
      && (commit && space.Flash? ==> data != [] && at.low + (Sent(data, done) - 1) / 2 < SEGMENT)
    case ReadOut(space, n) => Fits(at, space, n)
  }

  function Do(l: Link, c: Command): Link {
    match c
    case LoadAddress(a) => l.(pos := l.pos.(addr := a, must := l.pos.must || a.Extended()))
    case Program(space, data, done, commit) => if done <= |data| then l.Programmed(space, data, done, commit) else l
    case ReadOut(space, n) => l.(pos := l.pos.Skip(space, n))
  }

  function Answer(l: Link, c: Command): seq<byte> {
    if c.ReadOut? then l.Read(c.space, c.n) else []
  }

  function FlatDo(f: Flat, c: Command): Flat {
    match c
    case LoadAddress(a) => f.(cursor := a.Cursor())
    case Program(space, data, done, commit) => if done <= |data| then f.Programmed(space, data, done, commit) else f
    case ReadOut(space, n) => f.Moved(space, n)
  }

  function FlatAnswer(f: Flat, c: Command): seq<byte> {
    if c.ReadOut? then f.Read(c.space, c.n) else []
  }

  /** The position when the commit goes out: after a failed wait the register has been brought up to date for the byte
      that failed, and the address has not moved on. */
  function Reached(p: Pos, space: Space, data: seq<byte>, done: nat): Pos
    requires done <= |data|
  {
    if done < |data| then p.Skip(space, done).Synced() else p.Skip(space, done)
  }

  lemma ReachedAlong(p: Pos, data: seq<byte>, done: nat)
    requires done <= |data| && p.Coherent() && Fits(p.addr, Flash, Sent(data, done))
    ensures var q := Reached(p, Flash, data, done);
            var n := Sent(data, done);
            && q.Coherent() && q.addr.Cursor() == Wrapped(p.addr.Cursor() + done / 2)
            && (n > 0 ==> q.ext * SEGMENT <= p.addr.Cursor() + (n - 1) / 2 < q.ext * SEGMENT + SEGMENT)
            && (n == 0 ==> q == p)
  {
    FitsLess(p.addr, Flash, Sent(data, done), done);
    SkipAlong(p, Flash, done);
    if done < |data| {
      FlashStep(p, p.Skip(Flash, done), done);
    }
  }

  /** A page commit reaches the page the block was loaded for exactly when the register still (or, for an empty
      block, already) has the upper byte of the start address. */
  lemma CommitReaches(p: Pos, data: seq<byte>, done: nat)
    requires done <= |data| && p.Coherent() && Fits(p.addr, Flash, Sent(data, done))
    ensures 2 * (Reached(p, Flash, data, done).ext * SEGMENT + p.addr.low) == Spot(p, Flash)
            <==> if data == [] then p.ext == p.addr.upper else p.addr.low + (Sent(data, done) - 1) / 2 < SEGMENT
  {
    hide Fits, Reached;
    ReachedAlong(p, data, done);
  }

  lemma ReachedCoherent(p: Pos, space: Space, data: seq<byte>, done: nat)
    requires done <= |data| && p.Coherent() && Fits(p.addr, space, Sent(data, done))
    ensures var q := Reached(p, space, data, done);
            q.Coherent() && q.addr.Cursor() == Wrapped(p.addr.Cursor() + Steps(space, done))
  {
    hide Fits;
    FitsLess(p.addr, space, Sent(data, done), done);
    SkipAlong(p, space, done);
  }

  /** Up to the commit, a block that got as far as `done` is stored as by the flat device. */
  lemma PartAlong(l: Link, space: Space, data: seq<byte>, done: nat)
    requires done <= |data| && l.pos.Coherent() && Fits(l.pos.addr, space, Sent(data, done))
    ensures l.Programmed(space, data, done, false) ==
            l.With(space, l.StoreOf(space).PutAll(Spot(l.pos, space), data[..Sent(data, done)]))
            .(pos := Reached(l.pos, space, data, done))
  {
    hide Fits, Pos.Hit, Store.Put;
    FitsLess(l.pos.addr, space, Sent(data, done), done);
    WriteAlong(l, space, data[..done]);
    if done < |data| {
      HitAlong(l.pos, space, done);
      assert data[..done + 1][..done] == data[..done];
    }
  }

  lemma SeenParts(l: Link, space: Space, s: Store, pos: Pos, n: nat)
    requires pos.addr.Cursor() == Wrapped(l.pos.addr.Cursor() + Steps(space, n))
    ensures Seen(l.With(space, s).(pos := pos)) ==
            (if space.Flash? then Seen(l).(flash := s) else Seen(l).(eeprom := s)).Moved(space, n)
  {
  }

  lemma ProgramRefines(l: Link, space: Space, data: seq<byte>, done: nat, commit: bool)
    requires l.pos.Coherent() && Respects(Seen(l), Program(space, data, done, commit))
    ensures l.Programmed(space, data, done, commit).pos.Coherent()
    ensures Seen(l.Programmed(space, data, done, commit)) == Seen(l).Programmed(space, data, done, commit)
  {
    CursorLow(l.pos.addr);
    FitsAlias(l.pos.addr, space, Sent(data, done));
    SpotSeen(l, space);
    PartAlong(l, space, data, done);
    ReachedCoherent(l.pos, space, data, done);
    var m := l.Programmed(space, data, done, false);
    if commit {
      if space.Flash? {
        CommitReaches(l.pos, data, done);
      }
      CommitRefines(l, m, space);
      CommitState(l, space, data, done);
    }
    hide Link.Programmed, Link.Commit, Store.Commit, Store.PutAll, Reached, Fits, Respects;
    var s := l.StoreOf(space).PutAll(Spot(l.pos, space), data[..Sent(data, done)]);
    var t := l.Programmed(space, data, done, commit);
    SeenParts(l, space, if commit then s.Commit(Spot(l.pos, space)) else s, t.pos, done);
  }

  lemma CommitState(l: Link, space: Space, data: seq<byte>, done: nat)
    requires done <= |data|
    ensures l.Programmed(space, data, done, true) ==
            l.Programmed(space, data, done, false).Commit(space, l.pos.addr.low)
  {
  }

  lemma CommitRefines(l: Link, m: Link, space: Space)
    requires (if space.Flash? then 2 * (m.pos.ext * SEGMENT + l.pos.addr.low) else l.pos.addr.low) == Spot(l.pos, space)
    requires m.pos.Coherent()
    ensures var t := m.Commit(space, l.pos.addr.low);
            && t.pos.Coherent() && t.pos.addr == m.pos.addr
            && t == m.With(space, m.StoreOf(space).Commit(Spot(l.pos, space))).(pos := t.pos)
  {
  }

  /** One command, whether it completes or stops early: the engine stays coherent and does what the flat device does. */
  lemma Refines(l: Link, c: Command)
    requires l.pos.Coherent() && Respects(Seen(l), c)
    ensures Do(l, c).pos.Coherent()
    ensures Seen(Do(l, c)) == FlatDo(Seen(l), c)
    ensures Answer(l, c) == FlatAnswer(Seen(l), c)
  {
    match c
    case LoadAddress(a) =>
      CursorLow(l.pos.addr);
    case Program(space, data, done, commit) =>
      ProgramRefines(l, space, data, done, commit);
    case ReadOut(space, n) =>
      CursorLow(l.pos.addr);
      SkipAlong(l.pos, space, n);
      ReadAlong(l, space, n);
  }

  function Run(l: Link, cs: seq<Command>): Link {
    if cs == [] then l else Do(Run(l, cs[..|cs| - 1]), cs[|cs| - 1])
  }

  function FlatRun(f: Flat, cs: seq<Command>): Flat {
    if cs == [] then f else FlatDo(FlatRun(f, cs[..|cs| - 1]), cs[|cs| - 1])
  }

  /** Every command of the run respects the state the flat device has reached. */
  ghost predicate Disciplined(f: Flat, cs: seq<Command>) {
    forall k | 0 <= k < |cs| :: Respects(FlatRun(f, cs[..k]), cs[k])
  }

  lemma DisciplinedInit(f: Flat, cs: seq<Command>)
    requires cs != [] && Disciplined(f, cs)
    ensures Disciplined(f, cs[..|cs| - 1])
    ensures Respects(FlatRun(f, cs[..|cs| - 1]), cs[|cs| - 1])
  {
    var init := cs[..|cs| - 1];
    forall k | 0 <= k < |init|
      ensures Respects(FlatRun(f, init[..k]), init[k])
    {
      assert init[..k] == cs[..k] && init[k] == cs[k];
    }
  }

  /** Over every run, the device behind the lazily loaded register ends up as one with full addresses would. */
  lemma {:induction false} RunRefines(l: Link, cs: seq<Command>)
    requires l.pos.Coherent() && Disciplined(Seen(l), cs)
    ensures Run(l, cs).pos.Coherent()
    ensures Seen(Run(l, cs)) == FlatRun(Seen(l), cs)
  {
    if cs != [] {
      DisciplinedInit(Seen(l), cs);
      RunRefines(l, cs[..|cs| - 1]);
      Refines(Run(l, cs[..|cs| - 1]), cs[|cs| - 1]);
    }
  }

  /** ... and after every run a read answers what the flat device holds. */
  lemma RunAnswers(l: Link, cs: seq<Command>, c: Command)
    requires l.pos.Coherent() && Disciplined(Seen(l), cs + [c])
    ensures Answer(Run(l, cs), c) == FlatAnswer(FlatRun(Seen(l), cs), c)
  {
    assert (cs + [c])[..|cs|] == cs;
    DisciplinedInit(Seen(l), cs + [c]);
    RunRefines(l, cs);
    Refines(Run(l, cs), c);
  }

  /** The host's bit 31 is needed: without it a new address keeps the invariant only if nothing had to change. */
  lemma LoadAddressKeeps(l: Link, a: Address)
    ensures Do(l, LoadAddress(a)).pos.Coherent() <==> a.top >= 0x80 || l.pos.must || l.pos.ext == a.upper
  {
  }

  /** Whatever went wrong before, a page commit with the address on a 64K-word boundary schedules a load, so that the
      invariant holds again; elsewhere it leaves things as they were. */
  lemma CommitRestores(l: Link, start: word)
    ensures l.Commit(Flash, start).pos.Coherent() <==> l.pos.Coherent() || l.pos.addr.low == 0
    ensures l.Commit(Eeprom, start).pos == l.pos
  {
  }

  /** Load an address, program and commit one page, load the address again and read: an erased page gives back the
      data, and no other cell of the device has changed. */
  lemma PageRoundTrip(l: Link, a: Address, data: seq<byte>)
    requires a.Extended() && data != [] && Fits(a, Flash, |data|) && a.low + (|data| - 1) / 2 < SEGMENT
    requires l.flash.page > 0 && l.flash.Clean() && !l.flash.autoErase
    requires Offset(2 * a.Cursor(), l.flash.page) + |data| <= l.flash.page
    requires forall c | 2 * a.Cursor() <= c < 2 * a.Cursor() + |data| :: l.flash.cell(c) == 0xFF
    ensures var m := Do(Do(Do(l, LoadAddress(a)), Program(Flash, data, |data|, true)), LoadAddress(a));
            && m.Read(Flash, |data|) == data
            && forall c: nat | !(2 * a.Cursor() <= c < 2 * a.Cursor() + |data|) :: m.flash.cell(c) == l.flash.cell(c)
  {
    hide Store.PutAll, Store.Commit, Link.Programmed, Fits, Along;
    var start := 2 * a.Cursor();
    var loaded := Do(l, LoadAddress(a));
    CursorLow(a);
    assert Respects(Seen(loaded), Program(Flash, data, |data|, true)) by {
      FitsAlias(a, Flash, |data|);
    }
    ProgramRefines(loaded, Flash, data, |data|, true);
    assert data[..|data|] == data;
    var m := Do(Do(loaded, Program(Flash, data, |data|, true)), LoadAddress(a));
    assert m.flash == l.flash.PutAll(start, data).Commit(start);
    ErasedBlock(l.flash, start, data);
    assert m.pos == Pos(a, true, m.pos.ext);
    ReadAlong(m, Flash, |data|);
    assert Seen(m).Read(Flash, |data|) == data;
  }

  lemma FitsAlias(a: Address, space: Space, n: nat)
    ensures Fits(a.(top := 0), space, n) == Fits(a, space, n)
  {
  }
}
