/** The `mtdparts` language: its parser, partition validation, the sorted partition list, and the
    printer that leaves out every offset the parser can infer. */
module MtdGrammar {
  import opened Bytes
  import opened Options
  import opened MtdNumbers

  const MIN_PART_SIZE := 4096
  const SIZE_REMAINING: u32 := 0xFFFF_FFFF
  const OFFSET_NOT_SPECIFIED: u32 := 0xFFFF_FFFF

  // ----- entities -----

  datatype DevType = Nor | Nand

  datatype Key = Key(typ: DevType, num: nat)

  /** What the flash driver tables say about a device: NOR sector starts, or the NAND erase size. */
  datatype Geometry = NorGeometry(starts: seq<nat>, size: nat) | NandGeometry(eraseSize: nat)

  datatype MtdId = MtdId(key: Key, size: u32, name: string, geo: Geometry)

  /** `name` is None for a partition with an auto-generated name. */
  datatype Part = Part(size: u32, offset: u32, name: Option<string>, ro: bool)

  datatype Device = Device(id: MtdId, parts: seq<Part>, numParts: nat)

  datatype Parsed<+T> = Bad | Good(value: T, rest: string)

  // ----- one partition definition -----

  /** strchr as an index. */
  function Find(c: char, s: string): Option<nat> {
    if s == [] then None
    else if s[0] == c then Some(0)
    else match Find(c, s[1..])
      case None => None
      case Some(k) => Some(k + 1)
  }

  predicate At(s: string, c: char) { s != [] && s[0] == c }

  function ParseSize(s: string): Parsed<u32> {
    if At(s, '-') then Good(SIZE_REMAINING, s[1..])
    else
      var n := MemsizeParse(s);
      if n.value < MIN_PART_SIZE then Bad else Good(n.value, n.rest)
  }

  function ParseOffset(s: string): Num {
    if At(s, '@') then MemsizeParse(s[1..]) else Num(OFFSET_NOT_SPECIFIED, s)
  }

  function ParseName(s: string): Parsed<Option<string>> {
    if !At(s, '(') then Good(None, s)
    else match Find(')', s[1..])
      case None => Bad
      case Some(k) =>
        FindBound(')', s[1..]);
        if k == 0 then Bad else Good(Some(s[1..][..k]), s[1..][k + 1..])
  }

  function ParseRo(s: string): (bool, string) {
    if "ro" <= s then (true, s[2..]) else (false, s)
  }

  /** The end of a definition: a comma if more follow, which a fill-up partition must not have. */
  function ParseEnd(s: string, size: u32): Parsed<()> {
    if At(s, ',') then (if size == SIZE_REMAINING then Bad else Good((), s[1..]))
    else if s == [] || s[0] == ';' then Good((), s)
    else Bad
  }

  /** Size and offset are as written: SIZE_REMAINING and OFFSET_NOT_SPECIFIED are resolved later. */
  function ParsePart(s: string): Parsed<Part> {
    match ParseSize(s)
    case Bad => Bad
    case Good(size, s1) =>
      var Num(offset, s2) := ParseOffset(s1);
      match ParseName(s2)
      case Bad => Bad
      case Good(name, s3) =>
        var (ro, s4) := ParseRo(s3);
        match ParseEnd(s4, size)
        case Bad => Bad
        case Good(_, s5) => Good(Part(size, offset, name, ro), s5)
  }

  lemma {:induction false} FindBound(c: char, s: string)
    ensures Find(c, s).Some? ==> Find(c, s).value < |s| && s[Find(c, s).value] == c && c !in s[..Find(c, s).value]
    ensures Find(c, s).None? ==> c !in s
  {
    if s != [] && s[0] != c {
      FindBound(c, s[1..]);
      if Find(c, s[1..]).Some? {
        var k := Find(c, s[1..]).value;
        assert s[..k + 1] == [s[0]] + s[1..][..k];
      }
    }
  }

  lemma {:induction false} FindAt(c: char, a: string, b: string)
    requires c !in a
    ensures Find(c, a + [c] + b) == Some(|a|)
  {
    if a == [] {
      assert a + [c] + b == [c] + b;
    } else {
      assert (a + [c] + b)[1..] == a[1..] + [c] + b;
      FindAt(c, a[1..], b);
    }
  }

  lemma ParsePartConsumes(s: string)
    ensures ParsePart(s).Good? ==> |ParsePart(s).rest| < |s|
  {
    MemsizeParseConsumes(s);
    if ParseSize(s).Good? {
      var s1 := ParseSize(s).rest;
      if At(s1, '@') { MemsizeParseConsumes(s1[1..]); }
      ParseNameConsumes(ParseOffset(s1).rest);
    }
  }

  lemma ParseNameConsumes(s: string)
    ensures var r := ParseName(s);
            r.Good? ==> |r.rest| <= |s| && (r.value.Some? ==> r.value.value != [] && ')' !in r.value.value)
  {
    if At(s, '(') { FindBound(')', s[1..]); }
  }

  // ----- validation and offsets -----

  predicate Aligned(geo: Geometry, offset: u32, size: u32) {
    match geo
    case NandGeometry(e) => e > 0 && offset % e == 0 && size % e == 0
    case NorGeometry(starts, total) =>
      offset in starts && ((offset + size) % WORD in starts || (offset + size) % WORD == total)
  }

  function End(p: Part): u32 { (p.offset + p.size) % WORD }

  /** The partition with its fill-up size worked out. */
  function Resolved(id: MtdId, raw: Part): Part {
    if raw.size == SIZE_REMAINING then raw.(size := (id.size - raw.offset) % WORD) else raw
  }

  /** part_validate: resolves a fill-up size, then checks range and alignment. */
  function Validate(id: MtdId, raw: Part): Option<Part> {
    var p := Resolved(id, raw);
    if p.offset > id.size || End(p) <= p.offset || End(p) > id.size || !Aligned(id.geo, p.offset, p.size) then None
    else Some(p)
  }

  /** The definitions of one device, from `offset` on. */
  function ParseParts(s: string, id: MtdId, offset: u32): Parsed<seq<Part>>
    decreases |s|
  {
    if s == [] || s[0] == ';' then Good([], s)
    else
      ParsePartConsumes(s);
      match ParsePart(s)
      case Bad => Bad
      case Good(raw, rest) =>
        match Validate(id, if raw.offset == OFFSET_NOT_SPECIFIED then raw.(offset := offset) else raw)
        case None => Bad
        case Some(p) =>
          Prepend(p, ParseParts(rest, id, End(p)))
  }

  function Prepend(p: Part, r: Parsed<seq<Part>>): Parsed<seq<Part>> {
    match r
    case Bad => Bad
    case Good(ps, after) => Good([p] + ps, after)
  }

  lemma {:induction false} ParsePartsConsumes(s: string, id: MtdId, offset: u32)
    ensures var r := ParseParts(s, id, offset); r.Good? ==> |r.rest| <= |s| && (r.rest == [] || r.rest[0] == ';')
    decreases |s|
  {
    if s != [] && s[0] != ';' {
      ParsePartConsumes(s);
      if ParsePart(s).Good? {
        var Good(raw, rest) := ParsePart(s);
        var v := Validate(id, if raw.offset == OFFSET_NOT_SPECIFIED then raw.(offset := offset) else raw);
        if v.Some? { ParsePartsConsumes(rest, id, End(v.value)); }
      }
    }
  }

  // ----- the sorted list -----

  /** part_sort_add on the list: before the first partition that does not start earlier; a second
      partition at offset zero is refused. */
  function SortAdd(parts: seq<Part>, p: Part): Option<seq<Part>> {
    if parts == [] then Some([p])
    else if p.offset == parts[0].offset == 0 then None
    else if p.offset <= parts[0].offset then Some([p] + parts)
    else match SortAdd(parts[1..], p)
      case None => None
      case Some(tail) => Some([parts[0]] + tail)
  }

  function SortAll(acc: seq<Part>, parts: seq<Part>): Option<seq<Part>>
    decreases |parts|
  {
    if parts == [] then Some(acc)
    else match SortAdd(acc, parts[0])
      case None => None
      case Some(more) => SortAll(more, parts[1..])
  }

  // ----- devices -----

  function FindId(ids: seq<MtdId>, name: string): Option<MtdId> {
    if ids == [] then None else if ids[0].name == name then Some(ids[0]) else FindId(ids[1..], name)
  }

  function FindDevice(devices: seq<Device>, key: Key): Option<Device> {
    if devices == [] then None
    else if devices[0].id.key == key then Some(devices[0])
    else FindDevice(devices[1..], key)
  }

  /** Where definitions without an offset begin: behind the last partition the device already has. */
  function StartOffset(devices: seq<Device>, key: Key): u32 {
    match FindDevice(devices, key)
    case Some(d) => if d.parts == [] then 0 else End(d.parts[|d.parts| - 1])
    case None => 0
  }

  /** device_parse: `rest` is the text of the next device. */
  function ParseDevice(s: string, ids: seq<MtdId>, devices: seq<Device>): Parsed<Device> {
    match Find(':', s)
    case None => Bad
    case Some(k) =>
      FindBound(':', s);
      ParseNamed(s[..k], s[k + 1..], ids, devices)
  }

  /** The name in front of the colon must be a known id; the definitions are behind it. */
  function ParseNamed(name: string, body: string, ids: seq<MtdId>, devices: seq<Device>): Parsed<Device> {
    match FindId(ids, name)
    case None => Bad
    case Some(id) => ListDevice(id, ParseParts(body, id, StartOffset(devices, id.key)))
  }

  /** A device from its definitions: at least one, sorted, with the separator behind them skipped. */
  function ListDevice(id: MtdId, r: Parsed<seq<Part>>): Parsed<Device> {
    match r
    case Bad => Bad
    case Good(parts, rest) =>
      match SortAll([], parts)
      case None => Bad
      case Some(sorted) =>
        if parts == [] then Bad
        else Good(Device(id, sorted, |sorted|), if rest == [] then [] else rest[1..])
  }

  lemma ParseDeviceConsumes(s: string, ids: seq<MtdId>, devices: seq<Device>)
    ensures ParseDevice(s, ids, devices).Good? ==> |ParseDevice(s, ids, devices).rest| < |s|
  {
    FindBound(':', s);
    if Find(':', s).Some? {
      var k := Find(':', s).value;
      var id := FindId(ids, s[..k]);
      if id.Some? { ParsePartsConsumes(s[k + 1..], id.value, StartOffset(devices, id.value.key)); }
    }
  }

  /** The devices of an mtdparts text, added behind those already found. */
  function ParseDevices(s: string, ids: seq<MtdId>, found: seq<Device>): Option<seq<Device>>
    decreases |s|
  {
    if s == [] then Some(found)
    else
      ParseDeviceConsumes(s, ids, found);
      match ParseDevice(s, ids, found)
      case Bad => None
      case Good(d, rest) =>
        if FindDevice(found, d.id.key).Some? then None else ParseDevices(rest, ids, found + [d])
  }

  const PREFIX := "mtdparts="

  function ParseMtdparts(text: string, ids: seq<MtdId>): Option<seq<Device>> {
    if !(PREFIX <= text) || text == PREFIX then None else ParseDevices(text[9..], ids, [])
  }

  // ----- printing -----

  function SizeText(p: Part): string { MemsizeFormat(p.size) }

  function OffsetText(p: Part, due: u32): string { if p.offset == due then "" else "@" + MemsizeFormat(p.offset) }

  function NameText(p: Part): string { match p.name case None => "" case Some(n) => "(" + n + ")" }

  function RoText(p: Part): string { if p.ro then "ro" else "" }

  /** One definition; the offset is dropped when it is the one due. */
  function PartText(p: Part, due: u32): string { SizeText(p) + OffsetText(p, due) + NameText(p) + RoText(p) }

  function PartsText(parts: seq<Part>, due: u32): string
    decreases |parts|
  {
    if parts == [] then ""
    else PartText(parts[0], due) + (if |parts| > 1 then "," else "") + PartsText(parts[1..], End(parts[0]))
  }

  function DeviceText(d: Device): string { d.id.name + ":" + PartsText(d.parts, 0) }

  function DevicesText(devices: seq<Device>): string {
    if devices == [] then ""
    else DeviceText(devices[0]) + (if |devices| > 1 then ";" else "") + DevicesText(devices[1..])
  }

  function Generate(devices: seq<Device>): string { if devices == [] then "" else PREFIX + DevicesText(devices) }
}
