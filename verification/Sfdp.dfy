/** The SFDP fixture builder (make_sfdp_fixtures.py), and a reader of the published encoding (sections 6.2, 6.3 and 6.5
    of JESD216B) that gets back what was put in. */
module Sfdp {
  import opened Bytes

  datatype Option<T> = None | Some(value: T)

  /** `struct.pack('<I', v)`. */
  function Le(v: long): (r: seq<byte>)
    ensures |r| == 4
  {
    [v % 0x100, (v / 0x100) % 0x100, (v / 0x1_0000) % 0x100, (v / 0x100_0000) % 0x100]
  }

  function Dword(a: byte, b: byte, c: byte, d: byte): long {
    a + 0x100 * (b + 0x100 * (c + 0x100 * d))
  }

  lemma LeDword(v: long)
    ensures Dword(Le(v)[0], Le(v)[1], Le(v)[2], Le(v)[3]) == v
  {
    var x := v / 0x100;
    var y := x / 0x100;
    assert v / 0x1_0000 == y && v / 0x100_0000 == y / 0x100;
  }

  /** `dw(*words)`. */
  function Pack(words: seq<long>): (r: seq<byte>)
    ensures |r| == 4 * |words|
  {
    if words == [] then [] else Le(words[0]) + Pack(words[1..])
  }

  function Unpack(bytes: seq<byte>): seq<long> {
    if |bytes| < 4 then [] else [Dword(bytes[0], bytes[1], bytes[2], bytes[3])] + Unpack(bytes[4..])
  }

  lemma {:induction false} Unpacked(words: seq<long>)
    ensures Unpack(Pack(words)) == words
  {
    if words != [] {
      LeDword(words[0]);
      Unpacked(words[1..]);
      assert Pack(words)[4..] == Pack(words[1..]);
      assert Pack(words)[..4] == Le(words[0]);
    }
  }

  datatype Region = Region(size: nat, mask: nat)

  /** region_dword: the count of 256-byte units minus one, reserved ones, and the erase types. */
  function RegionDword(size: nat, mask: nat): long
    requires size > 0 && size % 0x100 == 0
  {
    0xF0 + mask % 0x10 + 0x100 * ((size / 0x100 - 1) % 0x100_0000)
  }

  function ReadRegion(d: long): Region {
    Region((d / 0x100 + 1) * 0x100, d % 0x10)
  }

  /** A region reads back as it was written exactly when its size fits 32 bits (in 256-byte units, 24) and its mask
      4 bits. */
  lemma RegionRoundTrip(size: nat, mask: nat)
    requires size > 0 && size % 0x100 == 0
    ensures ReadRegion(RegionDword(size, mask)) == Region(size, mask) <==> size <= 0x1_0000_0000 && mask < 0x10
    ensures (RegionDword(size, mask) / 0x10) % 0x10 == 0xF
  {
    var units := (size / 0x100 - 1) % 0x100_0000;
    var low := 0xF0 + mask % 0x10;
    assert RegionDword(size, mask) / 0x100 == units;
    assert RegionDword(size, mask) % 0x10 == mask % 0x10;
    assert RegionDword(size, mask) / 0x10 == 0x0F + 0x10 * units;
  }

  /** Entries of a sector map table (section 6.5). */
  datatype Descriptor =
    | Map(id: byte, regions: seq<Region>)
    | Command(opcode: byte, mask: byte, address: long, addressLen: nat, latency: nat)
  {
    predicate Valid() {
      match this
      case Map(_, regions) =>
        && 0 < |regions| <= 0x100
        && forall r | r in regions :: 0 < r.size <= 0x1_0000_0000 && r.size % 0x100 == 0 && r.mask < 0x10
      case Command(_, _, _, addressLen, latency) => addressLen <= 3 && latency <= 0xF
    }

    /** map_descriptor and config_command. */
    function Encode(end: bool): seq<long>
      requires Valid()
    {
      match this
      case Map(id, regions) => [MapHeader(id, |regions|, end)] + RegionDwords(regions)
      case Command(opcode, mask, address, addressLen, latency) =>
        [CommandHeader(opcode, mask, addressLen, latency, end), address]
    }
  }

  function MapHeader(id: byte, count: nat, end: bool): long
    requires 0 < count <= 0x100
  {
    0xFE + Bit(end) + 0x100 * (id + 0x100 * (count - 1 + 0x100 * 0xFF))
  }

  function CommandHeader(opcode: byte, mask: byte, addressLen: nat, latency: nat, end: bool): long
    requires addressLen <= 3 && latency <= 0xF
  {
    0xFC + Bit(end) + 0x100 * (opcode + 0x100 * (latency + 0x10 * (3 + 4 * (addressLen + 4 * mask))))
  }

  function RegionDwords(regions: seq<Region>): (r: seq<long>)
    requires forall x | x in regions :: 0 < x.size && x.size % 0x100 == 0
    ensures |r| == |regions|
  {
    if regions == [] then []
    else [RegionDword(regions[0].size, regions[0].mask)] + RegionDwords(regions[1..])
  }

  function ReadRegions(words: seq<long>): seq<Region> {
    if words == [] then [] else [ReadRegion(words[0])] + ReadRegions(words[1..])
  }

  /** Fields of a descriptor's first word. */
  function IsEnd(h: long): bool {
    h % 2 == 1
  }

  function IsMap(h: long): bool {
    (h / 2) % 2 == 1
  }

  function Field8(h: long): byte {
    (h / 0x100) % 0x100
  }

  function MapCount(h: long): nat {
    (h / 0x1_0000) % 0x100 + 1
  }

  function CommandLatency(h: long): nat {
    (h / 0x1_0000) % 0x10
  }

  function CommandLength(h: long): nat {
    (h / 0x40_0000) % 4
  }

  function CommandMask(h: long): byte {
    (h / 0x100_0000) % 0x100
  }

  lemma MapFields(id: byte, count: nat, end: bool)
    requires 0 < count <= 0x100
    ensures var h := MapHeader(id, count, end);
            IsEnd(h) == end && IsMap(h) && Field8(h) == id && MapCount(h) == count
  {
    var x := id + 0x100 * (count - 1 + 0x100 * 0xFF);
    var h := MapHeader(id, count, end);
    assert h / 0x100 == x;
    assert h / 0x1_0000 == x / 0x100 == count - 1 + 0x100 * 0xFF;
    assert h == 2 * (0x7F + 0x80 * x) + Bit(end);
    assert h / 2 == 2 * (0x3F + 0x40 * x) + 1;
  }

  /** The reserved bits are ones. */
  lemma MapReserved(id: byte, count: nat, end: bool)
    requires 0 < count <= 0x100
    ensures var h := MapHeader(id, count, end);
            h / 0x100_0000 == 0xFF && (h / 4) % 0x40 == 0x3F
  {
    var x := id + 0x100 * (count - 1 + 0x100 * 0xFF);
    var h := MapHeader(id, count, end);
    assert h / 0x100 == x;
    assert h / 0x100_0000 == x / 0x1_0000 == 0xFF;
    assert h / 4 == 0x3F + 0x40 * x;
  }

  lemma CommandFields(opcode: byte, mask: byte, addressLen: nat, latency: nat, end: bool)
    requires addressLen <= 3 && latency <= 0xF
    ensures var h := CommandHeader(opcode, mask, addressLen, latency, end);
            && IsEnd(h) == end && !IsMap(h) && Field8(h) == opcode && CommandMask(h) == mask
            && CommandLength(h) == addressLen && CommandLatency(h) == latency
  {
    var w := addressLen + 4 * mask;
    var y := latency + 0x10 * (3 + 4 * w);
    var x := opcode + 0x100 * y;
    var h := CommandHeader(opcode, mask, addressLen, latency, end);
    assert h / 0x100 == x;
    assert h / 0x1_0000 == x / 0x100 == y;
    assert h / 0x40_0000 == y / 0x40 == w;
    assert h / 0x100_0000 == w / 4 == mask;
    assert h == 2 * (0x7E + 0x80 * x) + Bit(end);
    assert h / 2 == 2 * (0x3F + 0x40 * x);
  }

  lemma CommandReserved(opcode: byte, mask: byte, addressLen: nat, latency: nat, end: bool)
    requires addressLen <= 3 && latency <= 0xF
    ensures var h := CommandHeader(opcode, mask, addressLen, latency, end);
            (h / 0x10_0000) % 4 == 3 && (h / 4) % 0x40 == 0x3F
  {
    var w := addressLen + 4 * mask;
    var y := latency + 0x10 * (3 + 4 * w);
    var x := opcode + 0x100 * y;
    var h := CommandHeader(opcode, mask, addressLen, latency, end);
    assert h / 0x10_0000 == y / 0x10 == 3 + 4 * w;
    assert h / 4 == 0x3F + 0x40 * x;
  }

  lemma {:induction false} RegionsRoundTrip(regions: seq<Region>)
    requires forall r | r in regions :: 0 < r.size <= 0x1_0000_0000 && r.size % 0x100 == 0 && r.mask < 0x10
    ensures ReadRegions(RegionDwords(regions)) == regions
  {
    if regions != [] {
      RegionRoundTrip(regions[0].size, regions[0].mask);
      RegionsRoundTrip(regions[1..]);
    }
  }

  /** One descriptor from the front of a table: bit 1 tells a map from a command. */
  function ReadOne(words: seq<long>): Option<(Descriptor, nat)> {
    if words == [] then None
    else
      var h := words[0];
      if IsMap(h) then
        var n := MapCount(h);
        if |words| < 1 + n then None else Some((Map(Field8(h), ReadRegions(words[1..1 + n])), 1 + n))
      else if |words| < 2 then None
      else Some((Command(Field8(h), CommandMask(h), words[1], CommandLength(h), CommandLatency(h)), 2))
  }

  /** All descriptors up to the one that carries the end mark in bit 0. */
  function Read(words: seq<long>): Option<seq<Descriptor>> {
    match ReadOne(words)
    case None => None
    case Some((d, n)) =>
      if IsEnd(words[0]) then Some([d])
      else if n == 0 || n > |words| then None
      else match Read(words[n..])
           case None => None
           case Some(ds) => Some([d] + ds)
  }

  function EncodeAll(ds: seq<Descriptor>): seq<long>
    requires forall d | d in ds :: d.Valid()
  {
    if ds == [] then [] else ds[0].Encode(|ds| == 1) + EncodeAll(ds[1..])
  }

  /** A descriptor reads back from the front of whatever follows it. */
  lemma ReadsOne(d: Descriptor, end: bool, tail: seq<long>)
    requires d.Valid()
    ensures var words := d.Encode(end) + tail;
            ReadOne(words) == Some((d, |d.Encode(end)|)) && IsEnd(words[0]) == end
  {
    hide IsEnd, IsMap, Field8, MapCount, CommandLatency, CommandLength, CommandMask, MapHeader, CommandHeader;
    var words := d.Encode(end) + tail;
    match d {
      case Map(id, regions) => {
        MapFields(id, |regions|, end);
        RegionsRoundTrip(regions);
        assert words[1..1 + |regions|] == RegionDwords(regions);
      }
      case Command(opcode, mask, address, addressLen, latency) =>
        CommandFields(opcode, mask, addressLen, latency, end);
    }
  }

  /** Maps and commands in any mixture read back, whatever follows the last one. */
  lemma {:induction false} DescriptorsRoundTrip(ds: seq<Descriptor>, tail: seq<long>)
    requires ds != [] && forall d | d in ds :: d.Valid()
    ensures Read(EncodeAll(ds) + tail) == Some(ds)
  {
    hide ReadOne, IsEnd, Descriptor.Encode, Descriptor.Valid;
    var rest := EncodeAll(ds[1..]) + tail;
    var front := ds[0].Encode(|ds| == 1);
    assert EncodeAll(ds) + tail == front + rest;
    ReadsOne(ds[0], |ds| == 1, rest);
    ReadSome(front + rest);
    if |ds| == 1 {
      assert ds == [ds[0]];
    } else {
      assert (front + rest)[|front|..] == rest;
      DescriptorsRoundTrip(ds[1..], tail);
      assert [ds[0]] + ds[1..] == ds;
    }
  }

  lemma ReadSome(words: seq<long>)
    ensures ReadOne(words).Some? ==> 0 < ReadOne(words).value.1 <= |words|
  {
  }

  /** The loops of map_descriptor and sector_map. */
  method MapDescriptor(id: byte, regions: seq<Region>, end: bool) returns (table: seq<byte>)
    requires Map(id, regions).Valid()
    ensures table == Pack(Map(id, regions).Encode(end))
  {
    var out := [MapHeader(id, |regions|, end)];
    for i := 0 to |regions|
      invariant out == [MapHeader(id, |regions|, end)] + RegionDwords(regions[..i])
    {
      assert regions[..i + 1] == regions[..i] + [regions[i]];
      RegionDwordsSnoc(regions[..i], regions[i]);
      out := out + [RegionDword(regions[i].size, regions[i].mask)];
    }
    assert regions[..|regions|] == regions;
    table := Pack(out);
  }

  lemma {:induction false} RegionDwordsSnoc(regions: seq<Region>, r: Region)
    requires forall x | x in regions + [r] :: 0 < x.size && x.size % 0x100 == 0
    ensures RegionDwords(regions + [r]) == RegionDwords(regions) + [RegionDword(r.size, r.mask)]
  {
    if regions != [] {
      RegionDwordsSnoc(regions[1..], r);
      assert (regions + [r])[1..] == regions[1..] + [r];
    }
  }

  datatype Table = Table(lsb: byte, msb: byte, data: seq<byte>)

  /** What the builder's assertion, and its single bytes for counts and lengths, ask for. */
  predicate Fits(tables: seq<Table>) {
    0 < |tables| <= 0x100 && forall t | t in tables :: |t.data| % 4 == 0 && |t.data| / 4 < 0x100
  }

  predicate AllShort(tables: seq<Table>) {
    forall t | t in tables :: |t.data| % 4 == 0 && |t.data| / 4 < 0x100
  }

  function Minor(t: Table, minor: byte): byte {
    if t.lsb == 0x81 && t.msb == 0xFF then 0 else if t.lsb == 0x84 && t.msb == 0xFF then 1 else minor
  }

  function ParamHeader(t: Table, minor: byte, major: byte, ptr: nat): (r: seq<byte>)
    requires |t.data| / 4 < 0x100
    ensures |r| == 8
  {
    [t.lsb, Minor(t, minor), major, |t.data| / 4, ptr % 0x100, (ptr / 0x100) % 0x100, (ptr / 0x1_0000) % 0x100, t.msb]
  }

  function Body(tables: seq<Table>): seq<byte> {
    if tables == [] then [] else Body(tables[..|tables| - 1]) + tables[|tables| - 1].data
  }

  function Headers(tables: seq<Table>, minor: byte, major: byte, start: nat): (r: seq<byte>)
    requires AllShort(tables)
    ensures |r| == 8 * |tables|
  {
    if tables == [] then []
    else
      var init := tables[..|tables| - 1];
      Headers(init, minor, major, start)
      + ParamHeader(tables[|tables| - 1], minor, major, start + |Body(init)|)
  }

  const SFDP: seq<byte> := [0x53, 0x46, 0x44, 0x50]

  function Start(tables: seq<Table>): nat {
    8 + 8 * |tables|
  }

  function Image(tables: seq<Table>, minor: byte, major: byte): (r: seq<byte>)
    requires Fits(tables)
    ensures |r| == Start(tables) + |Body(tables)|
  {
    SFDP + [minor, major, |tables| - 1, 0xFF] + Headers(tables, minor, major, Start(tables)) + Body(tables)
  }

  /** `build`: headers, pointers and bodies laid out in one pass. */
  method Build(basic: seq<byte>, extra: seq<Table>, minor: byte, major: byte) returns (image: seq<byte>)
    requires Fits([Table(0x00, 0xFF, basic)] + extra)
    ensures image == Image([Table(0x00, 0xFF, basic)] + extra, minor, major)
  {
    var nph := |extra|;
    var header := SFDP + [minor, major, nph, 0xFF];
    var tables := [Table(0x00, 0xFF, basic)] + extra;
    var ptr := 8 + |tables| * 8;
    var paramHeaders: seq<byte>, body: seq<byte> := [], [];
    for i := 0 to |tables|
      invariant paramHeaders == Headers(tables[..i], minor, major, Start(tables))
      invariant body == Body(tables[..i]) && ptr == Start(tables) + |body|
    {
      assert tables[..i + 1][..i] == tables[..i];
      paramHeaders := paramHeaders + ParamHeader(tables[i], minor, major, ptr);
      body := body + tables[i].data;
      ptr := ptr + |tables[i].data|;
    }
    assert tables[..|tables|] == tables;
    image := header + paramHeaders + body;
  }

  function Three(low: nat, mid: nat, high: nat): nat {
    low + 0x100 * (mid + 0x100 * high)
  }

  /** Reading table `i` of an image: its parameter header says where it is. */
  function Pointer(image: seq<byte>, i: nat): nat
    requires 16 + 8 * i <= |image|
  {
    Three(image[12 + 8 * i], image[13 + 8 * i], image[14 + 8 * i])
  }

  function ReadTable(image: seq<byte>, i: nat): Option<Table> {
    if |image| < 8 || image[..4] != SFDP || i > image[6] || |image| < 16 + 8 * i then None
    else
      var ptr := Pointer(image, i);
      var units: nat := image[11 + 8 * i];
      var len := 4 * units;
      if |image| < ptr + len then None
      else Some(Table(image[8 + 8 * i], image[15 + 8 * i], image[ptr..ptr + len]))
  }

  lemma {:induction false} HeaderAt(tables: seq<Table>, minor: byte, major: byte, start: nat, i: nat)
    requires AllShort(tables) && i < |tables|
    ensures Headers(tables, minor, major, start)[8 * i..8 * i + 8] ==
            ParamHeader(tables[i], minor, major, start + |Body(tables[..i])|)
  {
    hide ParamHeader, Body;
    var n := |tables| - 1;
    if i < n {
      HeaderAt(tables[..n], minor, major, start, i);
      assert tables[..n][..i] == tables[..i];
      var front := Headers(tables[..n], minor, major, start);
      assert Headers(tables, minor, major, start)[8 * i..8 * i + 8] == front[8 * i..8 * i + 8];
    }
  }

  lemma {:induction false} BodyAt(tables: seq<Table>, i: nat)
    requires i < |tables|
    ensures var at := |Body(tables[..i])|;
            at + |tables[i].data| <= |Body(tables)| && Body(tables)[at..at + |tables[i].data|] == tables[i].data
  {
    var n := |tables| - 1;
    if i < n {
      BodyAt(tables[..n], i);
      assert tables[..n][..i] == tables[..i];
    }
  }

  lemma {:induction false} BodySize(tables: seq<Table>)
    requires AllShort(tables)
    ensures |Body(tables)| <= 1020 * |tables|
  {
    if tables != [] {
      BodySize(tables[..|tables| - 1]);
    }
  }

  lemma PointerValue(ptr: nat)
    requires ptr < 0x100_0000
    ensures ptr % 0x100 + 0x100 * ((ptr / 0x100) % 0x100 + 0x100 * ((ptr / 0x1_0000) % 0x100)) == ptr
  {
    var x := ptr / 0x100;
    assert ptr / 0x1_0000 == x / 0x100;
  }

  lemma PointerAt(tables: seq<Table>, minor: byte, major: byte, i: nat)
    requires Fits(tables) && i < |tables|
    ensures var image := Image(tables, minor, major);
            && image[8 + 8 * i..16 + 8 * i] == ParamHeader(tables[i], minor, major, Start(tables) + |Body(tables[..i])|)
            && Pointer(image, i) == Start(tables) + |Body(tables[..i])|
  {
    hide ParamHeader;
    var start := Start(tables);
    var ptr := start + |Body(tables[..i])|;
    var image := Image(tables, minor, major);
    var headers := Headers(tables, minor, major, start);
    HeaderAt(tables, minor, major, start, i);
    var h := ParamHeader(tables[i], minor, major, ptr);
    assert image[8 + 8 * i..16 + 8 * i] == headers[8 * i..8 * i + 8];
    BodySize(tables[..i]);
    PointerBytes(tables[i], minor, major, ptr);
    assert image[12 + 8 * i] == h[4] && image[13 + 8 * i] == h[5] && image[14 + 8 * i] == h[6];
  }

  lemma PointerBytes(t: Table, minor: byte, major: byte, ptr: nat)
    requires |t.data| / 4 < 0x100 && ptr < 0x100_0000
    ensures var h := ParamHeader(t, minor, major, ptr);
            Three(h[4], h[5], h[6]) == ptr
  {
    PointerValue(ptr);
  }

  /** The tables lie one behind the other, after the headers, and end with the image. */
  lemma TablesInLine(tables: seq<Table>, minor: byte, major: byte, i: nat)
    requires Fits(tables) && i < |tables|
    ensures var image := Image(tables, minor, major);
            && Pointer(image, i) >= Start(tables)
            && Pointer(image, i) + |tables[i].data| == if i == |tables| - 1 then |image| else Pointer(image, i + 1)
  {
    hide Headers, Pointer, ParamHeader;
    PointerAt(tables, minor, major, i);
    assert tables[..i + 1][..i] == tables[..i];
    if i < |tables| - 1 {
      PointerAt(tables, minor, major, i + 1);
    } else {
      assert tables[..i + 1] == tables;
    }
  }

  /** Every table reads back byte for byte from where its header points. */
  lemma ImageRoundTrip(tables: seq<Table>, minor: byte, major: byte, i: nat)
    requires Fits(tables) && i < |tables|
    ensures ReadTable(Image(tables, minor, major), i) == Some(tables[i])
  {
    hide Headers, Pointer, Body;
    var image := Image(tables, minor, major);
    var at := |Body(tables[..i])|;
    var n := |tables[i].data|;
    PointerAt(tables, minor, major, i);
    BodyAt(tables, i);
    var h := image[8 + 8 * i..16 + 8 * i];
    assert image[8 + 8 * i] == h[0] && image[11 + 8 * i] == h[3] && image[15 + 8 * i] == h[7];
    assert image[Start(tables) + at..Start(tables) + at + n] == Body(tables)[at..at + n];
    assert image[..4] == SFDP && image[6] == |tables| - 1;
  }

  /** The fields of the headers besides the pointers: signature, revision, the number of tables less one; and for every
      table the revision, where sector maps and 4-byte instruction tables have their own, and the length in words. */
  lemma HeaderFields(tables: seq<Table>, minor: byte, major: byte, i: nat)
    requires Fits(tables) && i < |tables|
    ensures var image := Image(tables, minor, major);
            && image[..8] == [0x53, 0x46, 0x44, 0x50, minor, major, |tables| - 1, 0xFF]
            && image[8 + 8 * i] == tables[i].lsb && image[15 + 8 * i] == tables[i].msb
            && image[9 + 8 * i] == (if tables[i].msb != 0xFF then minor
                                    else if tables[i].lsb == 0x81 then 0
                                    else if tables[i].lsb == 0x84 then 1 else minor)
            && image[10 + 8 * i] == major && image[11 + 8 * i] == |tables[i].data| / 4
  {
    hide Headers, Body, Pointer;
    PointerAt(tables, minor, major, i);
    var image := Image(tables, minor, major);
    var h := image[8 + 8 * i..16 + 8 * i];
    assert h == ParamHeader(tables[i], minor, major, Start(tables) + |Body(tables[..i])|);
    assert image[8 + 8 * i] == h[0] && image[9 + 8 * i] == h[1] && image[10 + 8 * i] == h[2];
    assert image[11 + 8 * i] == h[3] && image[15 + 8 * i] == h[7];
    assert tables[i] in tables;
  }

  datatype EraseType = EraseType(sizeLog: byte, opcode: byte)

  /** basic_table's `pack_pair`; a missing type is all zeros. */
  function PackPair(a: Option<EraseType>, b: Option<EraseType>): long {
    var low := match a case None => 0 case Some(t) => t.sizeLog + 0x100 * Opcode(t);
    var high := match b case None => 0 case Some(t) => t.sizeLog + 0x100 * Opcode(t);
    low + 0x1_0000 * high
  }

  function Opcode(t: EraseType): nat {
    t.opcode
  }

  function Nth(types: seq<EraseType>, i: nat): Option<EraseType> {
    if i < |types| then Some(types[i]) else None
  }

  /** The 20 words of the basic table. */
  function BasicWords(densityBits: nat, types: seq<EraseType>, pageShift: nat, addrMode: nat, erase4k: byte,
                      dword16: long, timing: bool): (r: seq<long>)
    requires 0 < densityBits <= 0x1_0000_0000 && |types| <= 4 && pageShift < 0x10 && addrMode < 4
    ensures |r| == 20
  {
    var opcode: nat := erase4k;
    var times := if timing then 1 + 47 * (0x10 + 0x800 + 0x4_0000 + 0x200_0000) else 0;
    var program := if timing then 1 + 0x700 + 0x2000 + 24 * 0x100_0000 + 0x2000_0000 else 0;
    [1 + 0x100 * opcode + 0x2_0000 * addrMode + 0x780_0000, densityBits - 1, 0, 0, 0, 0, 0,
     PackPair(Nth(types, 0), Nth(types, 1)), PackPair(Nth(types, 2), Nth(types, 3)),
     times, program + 0x10 * pageShift, 0, 0, 0, 0, dword16, 0, 0, 0, 0]
  }

  /** Where the four erase times are in their word. */
  function Shifted(i: nat): nat
    requires i < 4
  {
    [0x10, 0x800, 0x4_0000, 0x200_0000][i]
  }

  /** The loop over the four erase times: a count of 15 in units of 1. */
  method EraseTimeWord() returns (w: long)
    ensures w == 1 + 47 * (0x10 + 0x800 + 0x4_0000 + 0x200_0000)
  {
    w := 1;
    for i := 0 to 4
      invariant w == 1 + 47 * [0, 0x10, 0x810, 0x4_0810, 0x204_0810][i]
    {
      w := w + (15 + 0x20 * 1) * Shifted(i);
    }
  }

  /** The two words with times. */
  method TimeWords(pageShift: nat, timing: bool) returns (times: long, program: long)
    requires pageShift < 0x10
    ensures times == if timing then 1 + 47 * (0x10 + 0x800 + 0x4_0000 + 0x200_0000) else 0
    ensures program ==
            (if timing then 1 + 0x700 + 0x2000 + 24 * 0x100_0000 + 0x2000_0000 else 0) + 0x10 * pageShift
  {
    times, program := 0, 0x10 * pageShift;
    if timing {
      times := EraseTimeWord();
      program := 1 + 0x10 * pageShift;
      program := program + 0x100 * 7 + 0x2000 * 1;
      program := program + 0x100_0000 * 24 + 0x2000_0000 * 1;
    }
  }

  /** `basic_table`: words filled in place, fields that do not overlap. */
  method BasicTable(densityBits: nat, types: seq<EraseType>, pageShift: nat, addrMode: nat, erase4k: byte,
                    dword16: Option<long>, timing: bool) returns (table: seq<byte>)
    requires 0 < densityBits <= 0x1_0000_0000 && |types| <= 4 && pageShift < 0x10 && addrMode < 4
    ensures table == Pack(BasicWords(densityBits, types, pageShift, addrMode, erase4k,
                                     if dword16.Some? then dword16.value else 0, timing))
  {
    hide PackPair, Pack, Nth;
    var d: seq<long> := [0, 0, 0, 0, 0, 0, 0, 0, 0, 0, 0, 0, 0, 0, 0, 0, 0, 0, 0, 0];
    var opcode: nat := erase4k;
    d := d[0 := 0x01 + 0x100 * opcode + 0x2_0000 * addrMode + 0x80_0000 * 0xF];
    d := d[1 := densityBits - 1];
    d := d[7 := PackPair(Nth(types, 0), Nth(types, 1))];
    d := d[8 := PackPair(Nth(types, 2), Nth(types, 3))];
    var times, program := TimeWords(pageShift, timing);
    d := d[9 := times];
    d := d[10 := program];
    if dword16.Some? {
      d := d[15 := dword16.value];
    }
    assert d == BasicWords(densityBits, types, pageShift, addrMode, erase4k,
                           if dword16.Some? then dword16.value else 0, timing);
    table := Pack(d);
  }

  /** Field readers for the basic table (section 6.4). */
  function ReadErase(words: seq<long>, i: nat): EraseType
    requires |words| == 20 && i < 4
  {
    var w: nat := words[7 + i / 2];
    var half := if i % 2 == 0 then w % 0x1_0000 else w / 0x1_0000;
    EraseType(half % 0x100, half / 0x100)
  }

  lemma PairFields(a: Option<EraseType>, b: Option<EraseType>)
    ensures var w := PackPair(a, b);
            && w % 0x1_0000 == (match a case None => 0 case Some(t) => t.sizeLog + 0x100 * Opcode(t))
            && w / 0x1_0000 == (match b case None => 0 case Some(t) => t.sizeLog + 0x100 * Opcode(t))
  {
  }

  lemma HalfFields(t: EraseType)
    ensures var half := t.sizeLog + 0x100 * Opcode(t);
            half % 0x100 == t.sizeLog && half / 0x100 == Opcode(t)
  {
  }

  /** Every erase type reads back; a type that is not there reads as zeros. */
  lemma EraseRoundTrip(words: seq<long>, types: seq<EraseType>, i: nat)
    requires |words| == 20 && |types| <= 4 && i < 4
    requires words[7] == PackPair(Nth(types, 0), Nth(types, 1)) && words[8] == PackPair(Nth(types, 2), Nth(types, 3))
    ensures ReadErase(words, i) == if i < |types| then types[i] else EraseType(0, 0)
  {
    hide PackPair;
    PairFields(Nth(types, 0), Nth(types, 1));
    PairFields(Nth(types, 2), Nth(types, 3));
    if i < |types| {
      HalfFields(types[i]);
    }
  }

  /** Density, page size, addressing mode, the 4K opcode and the erase types read back. */
  lemma BasicRoundTrip(densityBits: nat, types: seq<EraseType>, pageShift: nat, addrMode: nat, erase4k: byte,
                       dword16: long, timing: bool, i: nat)
    requires 0 < densityBits <= 0x1_0000_0000 && |types| <= 4 && pageShift < 0x10 && addrMode < 4 && i < 4
    ensures var w := BasicWords(densityBits, types, pageShift, addrMode, erase4k, dword16, timing);
            && w[1] == densityBits - 1
            && (w[0] / 0x100) % 0x100 == erase4k && (w[0] / 0x2_0000) % 4 == addrMode
            && (w[10] / 0x10) % 0x10 == pageShift
            && ReadErase(w, i) == if i < |types| then types[i] else EraseType(0, 0)
  {
    hide PackPair, ReadErase, Nth;
    ModeField(erase4k, addrMode);
    PageField(pageShift, timing);
    EraseRoundTrip(BasicWords(densityBits, types, pageShift, addrMode, erase4k, dword16, timing), types, i);
  }

  lemma ModeField(opcode: nat, addrMode: nat)
    requires opcode < 0x100 && addrMode < 4
    ensures var w := 1 + 0x100 * opcode + 0x2_0000 * addrMode + 0x780_0000;
            (w / 0x100) % 0x100 == opcode && (w / 0x2_0000) % 4 == addrMode && w % 0x100 == 1 && w / 0x80_0000 == 0xF
  {
    var w := 1 + 0x100 * opcode + 0x2_0000 * addrMode + 0x780_0000;
    assert w / 0x100 == opcode + 0x200 * addrMode + 0x7_8000;
    assert w / 0x2_0000 == addrMode + 0x3C0;
  }

  lemma PageField(pageShift: nat, timing: bool)
    requires pageShift < 0x10
    ensures ((if timing then 1 + 0x700 + 0x2000 + 24 * 0x100_0000 + 0x2000_0000 else 0) + 0x10 * pageShift)
            / 0x10 % 0x10 == pageShift
  {
  }

  /** The rest of the table: 4K erase in its first byte, the reserved ones, word 16 as given, and zeros. */
  lemma BasicRest(densityBits: nat, types: seq<EraseType>, pageShift: nat, addrMode: nat, erase4k: byte,
                  dword16: long, timing: bool)
    requires 0 < densityBits <= 0x1_0000_0000 && |types| <= 4 && pageShift < 0x10 && addrMode < 4
    ensures var w := BasicWords(densityBits, types, pageShift, addrMode, erase4k, dword16, timing);
            && w[0] % 0x100 == 1 && w[0] / 0x80_0000 == 0xF && w[15] == dword16
            && forall k | 0 <= k < 20 && k !in {0, 1, 7, 8, 9, 10, 15} :: w[k] == 0
  {
    hide PackPair, Nth;
    ModeField(erase4k, addrMode);
  }

  /** A time of five bits with a two-bit unit above them. */
  predicate Time(w: nat, weight: nat, count: nat, unit: nat)
    requires weight > 0
  {
    (w / weight) % 0x20 == count && (w / weight / 0x20) % 4 == unit
  }

  /** The times of the basic table: a multiplier and four erase times in word 9, in word 10 a multiplier, the time for a
      page, and that for the whole device; without timing only the page size is left. */
  lemma TimingFields(densityBits: nat, types: seq<EraseType>, pageShift: nat, addrMode: nat, erase4k: byte,
                     dword16: long)
    requires 0 < densityBits <= 0x1_0000_0000 && |types| <= 4 && pageShift < 0x10 && addrMode < 4
    ensures var w := BasicWords(densityBits, types, pageShift, addrMode, erase4k, dword16, true);
            && w[9] % 0x10 == 1 && Time(w[9], 0x10, 15, 1) && Time(w[9], 0x800, 15, 1)
            && Time(w[9], 0x4_0000, 15, 1) && Time(w[9], 0x200_0000, 15, 1)
            && w[10] % 0x10 == 1 && (w[10] / 0x100) % 0x20 == 7 && (w[10] / 0x2000) % 2 == 1
            && Time(w[10], 0x100_0000, 24, 1)
    ensures var w := BasicWords(densityBits, types, pageShift, addrMode, erase4k, dword16, false);
            w[9] == 0 && w[10] == 0x10 * pageShift
  {
    hide PackPair;
    var w := BasicWords(densityBits, types, pageShift, addrMode, erase4k, dword16, true)[10];
    assert w == 1 + 0x10 * pageShift + 0x100 * (7 + 0x20 * 1) + 24 * 0x100_0000 + 0x2000_0000;
    assert w / 0x100 == 7 + 0x20 + 24 * 0x1_0000 + 0x20_0000;
    assert w / 0x2000 == 1 + 24 * 0x800 + 0x1_0000;
    assert w / 0x100_0000 == 24 + 0x20;
  }
}
