/** The parser of `mtdparts` as the source runs it: an index moves through the text and lists grow. Each method
    computes what the grammar's functions say. */
module MtdScanner {
  import opened Bytes
  import opened Options
  import opened MtdNumbers
  import opened MtdGrammar
  import opened MtdRoundTrip

  /** simple_strtoul with base 0: the value and the index behind the number. */
  method SimpleStrtoul(s: string, p: nat) returns (value: u32, q: nat)
    requires p <= |s|
    ensures p <= q <= |s| && Strtoul(s[p..]) == Num(value, s[q..])
  {
    var base: nat;
    base, q := SkipBase(s, p);
    ghost var goal := Strtoul(s[p..]);
    value := 0;
    while q < |s| && IsXDigit(s[q]) && DigitValue(s[q]) < base
      invariant p <= q <= |s| && Digits(value, s[q..], base) == goal
      decreases |s| - q
    {
      value := (value * base + DigitValue(s[q])) % WORD;
      assert s[q..][1..] == s[q + 1..];
      q := q + 1;
    }
  }

  /** The prefix that tells the base. */
  method SkipBase(s: string, p: nat) returns (base: nat, q: nat)
    requires p <= |s|
    ensures p <= q <= |s| && 8 <= base <= 16 && Strtoul(s[p..]) == Digits(0, s[q..], base)
  {
    base, q := 10, p;
    if q < |s| && s[q] == '0' {
      q := q + 1;
      base := 8;
      if q + 1 < |s| && s[q] == 'x' && IsXDigit(s[q + 1]) {
        base := 16;
        q := q + 1;
      }
    }
    assert s[p..][q - p..] == s[q..];
  }

  method MemsizeParseAt(s: string, p: nat) returns (value: u32, q: nat)
    requires p <= |s|
    ensures p <= q <= |s| && MemsizeParse(s[p..]) == Num(value, s[q..])
  {
    value, q := SimpleStrtoul(s, p);
    if q < |s| && Scale(s[q]) != 1 {
      value := (value * Scale(s[q])) % WORD;
      assert s[q..][1..] == s[q + 1..];
      q := q + 1;
    }
  }

  /** strchr from index p; |s| when there is none. */
  method Strchr(s: string, p: nat, c: char) returns (q: nat)
    requires p <= |s|
    ensures p <= q <= |s| && Find(c, s[p..]) == if q == |s| then None else Some(q - p)
  {
    q := p;
    while q < |s| && s[q] != c
      invariant p <= q <= |s|
      invariant Find(c, s[p..]) == match Find(c, s[q..]) case None => None case Some(k) => Some(k + q - p)
    {
      assert s[q..][1..] == s[q + 1..];
      q := q + 1;
    }
  }

  method ParseNameAt(s: string, p: nat) returns (ok: bool, name: Option<string>, q: nat)
    requires p <= |s|
    ensures p <= q <= |s|
    ensures ParseName(s[p..]) == if ok then Good(name, s[q..]) else Bad
  {
    ok, name, q := true, None, p;
    if p < |s| && s[p] == '(' {
      var e := Strchr(s, p + 1, ')');
      assert s[p..][1..] == s[p + 1..];
      if e == |s| || e == p + 1 {
        ok := false;
      } else {
        name, q := Some(s[p + 1..e]), e + 1;
        assert s[p + 1..][..e - p - 1] == s[p + 1..e] && s[p + 1..][e - p..] == s[e + 1..];
      }
    }
  }

  method PartParse(s: string, p: nat) returns (ok: bool, part: Part, q: nat)
    requires p <= |s|
    ensures p <= q <= |s|
    ensures ParsePart(s[p..]) == if ok then Good(part, s[q..]) else Bad
  {
    var size: u32, offset: u32 := SIZE_REMAINING, OFFSET_NOT_SPECIFIED;
    part, q := Part(size, offset, None, false), p;
    if p < |s| && s[p] == '-' {
      assert s[p..][1..] == s[p + 1..];
      q := p + 1;
    } else {
      size, q := MemsizeParseAt(s, p);
      if size < MIN_PART_SIZE { return false, part, q; }
    }
    assert ParseSize(s[p..]) == Good(size, s[q..]);
    ghost var q1 := q;
    if q < |s| && s[q] == '@' {
      assert s[q..][1..] == s[q + 1..];
      offset, q := MemsizeParseAt(s, q + 1);
    }
    assert ParseOffset(s[q1..]) == Num(offset, s[q..]);
    var name;
    ok, name, q := ParseNameAt(s, q);
    if !ok { return; }
    var ro, end := ParseTail(s, q, size);
    ok := end.Some?;
    if ok { part, q := Part(size, offset, name, ro), end.value; }
  }

  /** The read-only flag and the end of a definition. */
  method ParseTail(s: string, p: nat, size: u32) returns (ro: bool, q: Option<nat>)
    requires p <= |s|
    ensures ParseRo(s[p..]).0 == ro
    ensures q.Some? ==> p <= q.value <= |s|
    ensures ParseEnd(ParseRo(s[p..]).1, size) == if q.Some? then Good((), s[q.value..]) else Bad
  {
    var i := p;
    ro := |s| - p >= 2 && s[p] == 'r' && s[p + 1] == 'o';
    if ro {
      assert s[p..][..2] == "ro" && s[p..][2..] == s[p + 2..];
      i := p + 2;
    } else {
      assert !("ro" <= s[p..]);
    }
    if i < |s| && s[i] == ',' {
      assert s[i..][1..] == s[i + 1..];
      q := if size == SIZE_REMAINING then None else Some(i + 1);
    } else if i == |s| || s[i] == ';' {
      q := Some(i);
    } else {
      q := None;
    }
  }

  /** One turn of the partition loop: parse, resolve the offset, validate. */
  method NextPart(s: string, p: nat, id: MtdId, start: u32) returns (ok: bool, part: Part, q: nat)
    requires p < |s| && s[p] != ';'
    ensures ok ==> p < q <= |s|
    ensures ParseParts(s[p..], id, start) == if ok then Prepend(part, ParseParts(s[q..], id, End(part))) else Bad
  {
    ParsePartConsumes(s[p..]);
    ok, part, q := PartParse(s, p);
    if !ok { return; }
    if part.offset == OFFSET_NOT_SPECIFIED { part := part.(offset := start); }
    var v := PartValidate(id, part);
    if v.None? { return false, part, q; }
    part := v.value;
  }

  /** The partition loop of device_parse. */
  method PartsParse(s: string, p: nat, id: MtdId, start: u32) returns (ok: bool, parts: seq<Part>, q: nat)
    requires p <= |s|
    ensures ok ==> p <= q <= |s|
    ensures ParseParts(s[p..], id, start) == if ok then Good(parts, s[q..]) else Bad
  {
    var offset: u32 := start;
    ok, parts, q := true, [], p;
    ghost var goal := ParseParts(s[p..], id, start);
    AppendNothing(goal);
    while q < |s| && s[q] != ';'
      invariant p <= q <= |s|
      invariant goal == Append(parts, ParseParts(s[q..], id, offset))
      decreases |s| - q
    {
      var part;
      ok, part, q := NextPart(s, q, id, offset);
      if !ok { return; }
      offset := (part.offset + part.size) % WORD;
      AppendPrepend(parts, part, ParseParts(s[q..], id, offset));
      parts := parts + [part];
    }
    assert parts + [] == parts;
  }

  lemma AppendNothing(r: Parsed<seq<Part>>)
    ensures Append([], r) == r
  {
    if r.Good? { assert [] + r.value == r.value; }
  }

  ghost function Append(parts: seq<Part>, r: Parsed<seq<Part>>): Parsed<seq<Part>> {
    match r
    case Bad => Bad
    case Good(ps, after) => Good(parts + ps, after)
  }

  lemma AppendPrepend(parts: seq<Part>, p: Part, r: Parsed<seq<Part>>)
    ensures Append(parts, Prepend(p, r)) == Append(parts + [p], r)
  {
    if r.Good? { assert parts + ([p] + r.value) == parts + [p] + r.value; }
  }

  /** part_validate with the sector scan of part_validate_nor. */
  method PartValidate(id: MtdId, raw: Part) returns (v: Option<Part>)
    ensures v == Validate(id, raw)
  {
    var p := raw;
    if p.size == SIZE_REMAINING { p := p.(size := (id.size - p.offset) % WORD); }
    if p.offset > id.size { return None; }
    var end := (p.offset + p.size) % WORD;
    if end <= p.offset { return None; }
    if end > id.size { return None; }
    match id.geo
    case NandGeometry(e) =>
      v := if e > 0 && p.offset % e == 0 && p.size % e == 0 then Some(p) else None;
    case NorGeometry(starts, total) =>
      var startFound := Scan(starts, p.offset);
      var endFound := Scan(starts, end);
      v := if startFound && (endFound || end == total) then Some(p) else None;
  }

  method Scan(starts: seq<nat>, x: nat) returns (found: bool)
    ensures found <==> x in starts
  {
    var i := 0;
    while i < |starts|
      invariant i <= |starts| && x !in starts[..i]
    {
      if starts[i] == x { return true; }
      i := i + 1;
    }
    return false;
  }

  /** id_find_by_mtd_id */
  method IdFind(ids: seq<MtdId>, name: string) returns (id: Option<MtdId>)
    ensures id == FindId(ids, name)
  {
    var i := 0;
    while i < |ids|
      invariant i <= |ids| && FindId(ids, name) == FindId(ids[i..], name)
    {
      if ids[i].name == name { return Some(ids[i]); }
      assert ids[i..][1..] == ids[i + 1..];
      i := i + 1;
    }
    return None;
  }

  /** The walk of part_sort_add: the place of a partition, or none for a second one at offset zero. */
  method PlaceOf(parts: seq<Part>, p: Part) returns (j: Option<nat>)
    ensures j.Some? ==> j.value == InsertPos(parts, p.offset) <= |parts|
                        && SortAdd(parts, p) == Some(Inserted(parts, j.value, p))
    ensures j.None? ==> SortAdd(parts, p).None?
  {
    SortAddInserts(parts, p);
    var k := 0;
    while k < |parts|
      invariant k <= |parts| && InsertPos(parts, p.offset) == k + InsertPos(parts[k..], p.offset)
      invariant k > 0 ==> parts[0].offset < p.offset
    {
      if p.offset == parts[k].offset && parts[k].offset == 0 { return None; }
      if p.offset <= parts[k].offset { return Some(k); }
      assert parts[k..][1..] == parts[k + 1..];
      k := k + 1;
    }
    return Some(k);
  }

  /** part_sort_add into a list that does not hold the current partition. */
  method ListSortAdd(parts: seq<Part>, p: Part) returns (r: Option<seq<Part>>)
    ensures r == SortAdd(parts, p)
  {
    var j := PlaceOf(parts, p);
    if j.None? { return None; }
    return Some(parts[..j.value] + [p] + parts[j.value..]);
  }

  /** Moves the partitions found into the device's list, one part_sort_add each. */
  method SortParts(parts: seq<Part>) returns (r: Option<seq<Part>>)
    ensures r == SortAll([], parts)
  {
    var sorted: seq<Part> := [];
    var i := 0;
    assert parts[0..] == parts;
    while i < |parts|
      invariant i <= |parts| && SortAll([], parts) == SortAll(sorted, parts[i..])
    {
      assert parts[i..][1..] == parts[i + 1..];
      var more := ListSortAdd(sorted, parts[i]);
      if more.None? { return None; }
      sorted := more.value;
      i := i + 1;
    }
    return Some(sorted);
  }

  /** device_parse: the device with its partitions sorted, and the index of the next device's text. */
  method DeviceParse(s: string, p: nat, ids: seq<MtdId>, devices: seq<Device>) returns (dev: Option<Device>, q: nat)
    requires p <= |s|
    ensures p <= q <= |s|
    ensures ParseDevice(s[p..], ids, devices) == if dev.Some? then Good(dev.value, s[q..]) else Bad
  {
    dev, q := None, p;
    var colon := Strchr(s, p, ':');
    if colon == |s| { return; }
    AtColon(s, p, colon, ids, devices);
    dev, q := NamedParse(s, p, colon, ids, devices);
    if dev.None? { q := p; }
  }

  lemma AtColon(s: string, p: nat, colon: nat, ids: seq<MtdId>, devices: seq<Device>)
    requires p <= colon < |s| && Find(':', s[p..]) == Some(colon - p)
    ensures ParseDevice(s[p..], ids, devices) == ParseNamed(s[p..colon], s[colon + 1..], ids, devices)
  {
    assert s[p..][..colon - p] == s[p..colon] && s[p..][colon - p + 1..] == s[colon + 1..];
  }

  method NamedParse(s: string, p: nat, colon: nat, ids: seq<MtdId>, devices: seq<Device>)
    returns (dev: Option<Device>, q: nat)
    requires p <= colon < |s|
    ensures dev.Some? ==> colon < q <= |s|
    ensures ParseNamed(s[p..colon], s[colon + 1..], ids, devices) == if dev.Some? then Good(dev.value, s[q..]) else Bad
  {
    dev, q := None, p;
    var id := IdFind(ids, s[p..colon]);
    if id.Some? {
      dev, q := BodyParse(s, colon + 1, id.value, StartOffset(devices, id.value.key));
    }
  }

  /** The partitions of a device, parsed, listed and sorted. */
  method BodyParse(s: string, p: nat, id: MtdId, start: u32) returns (dev: Option<Device>, q: nat)
    requires p <= |s|
    ensures dev.Some? ==> p <= q <= |s|
    ensures ListDevice(id, ParseParts(s[p..], id, start)) == if dev.Some? then Good(dev.value, s[q..]) else Bad
  {
    dev, q := None, p;
    var ok, parts, after := PartsParse(s, p, id, start);
    if !ok || parts == [] { return; }
    var sorted := SortParts(parts);
    if sorted.None? { return; }
    dev := Some(Device(id, sorted.value, |sorted.value|));
    q := if after < |s| then after + 1 else after;
    assert after < |s| ==> s[after..][1..] == s[q..];
  }

  /** parse_mtdparts over an emptied device list. */
  method MtdpartsParse(text: string, ids: seq<MtdId>) returns (r: Option<seq<Device>>)
    ensures r == ParseMtdparts(text, ids)
  {
    if |text| < 9 || text[..9] != PREFIX { return None; }
    assert text == PREFIX + text[9..];
    if |text| == 9 { return None; }
    var p := 9;
    var devices: seq<Device> := [];
    ghost var goal := ParseDevices(text[9..], ids, []);
    while p < |text|
      invariant p <= |text| && goal == ParseDevices(text[p..], ids, devices)
      decreases |text| - p
    {
      ParseDeviceConsumes(text[p..], ids, devices);
      var dev, q := DeviceParse(text, p, ids, devices);
      if dev.None? { return None; }
      if FindDevice(devices, dev.value.id.key).Some? { return None; }
      devices := devices + [dev.value];
      p := q;
    }
    return Some(devices);
  }
}
