/** Parser and printer of `mtdparts` against each other: what the parser builds, and exactly when
    printing a partition table and parsing the text again gives the table back. */
module MtdRoundTrip {
  import opened Bytes
  import opened Options
  import opened MtdNumbers
  import opened MtdGrammar

  // ----- what the parser builds -----

  /** A name that came out of the parser. */
  predicate NameOk(p: Part) { p.name.Some? ==> p.name.value != [] && ')' !in p.name.value }

  predicate PartOk(id: MtdId, p: Part) { Validate(id, p) == Some(p) && NameOk(p) }

  predicate Sorted(parts: seq<Part>) { forall i, j | 0 <= i < j < |parts| :: parts[i].offset <= parts[j].offset }

  predicate Ascending(parts: seq<Part>) { forall i, j | 0 <= i < j < |parts| :: parts[i].offset < parts[j].offset }

  predicate DeviceOk(d: Device) {
    && d.parts != [] && d.numParts == |d.parts| && Sorted(d.parts) && ':' !in d.id.name
    && forall i | 0 <= i < |d.parts| :: PartOk(d.id, d.parts[i])
  }

  /** The invariant of the device list: every list sorted and valid, no device twice. */
  predicate TableOk(devices: seq<Device>) {
    && (forall i | 0 <= i < |devices| :: DeviceOk(devices[i]))
    && forall i, j | 0 <= i < j < |devices| :: devices[i].id.key != devices[j].id.key
  }

  /** Every device refers to an entry that looking up its name in `ids` finds. */
  predicate IdsResolve(devices: seq<Device>, ids: seq<MtdId>) {
    forall i | 0 <= i < |devices| :: FindId(ids, devices[i].id.name) == Some(devices[i].id)
  }

  lemma ValidateIdempotent(id: MtdId, raw: Part)
    ensures Validate(id, raw).Some? ==>
      Validate(id, Validate(id, raw).value) == Validate(id, raw) && Validate(id, raw).value.name == raw.name
  {
  }

  lemma ParsedNameOk(s: string)
    ensures ParsePart(s).Good? ==> NameOk(ParsePart(s).value)
  {
    if ParsePart(s).Good? { ParseNameConsumes(ParseOffset(ParseSize(s).rest).rest); }
  }

  /** One turn of the partition loop: the first partition is validated, the rest starts at its end. */
  lemma ParsePartsUnfold(s: string, id: MtdId, offset: u32) returns (p: Part, rest: string)
    requires s != [] && s[0] != ';' && ParseParts(s, id, offset).Good?
    ensures |rest| < |s| && PartOk(id, p)
    ensures ParseParts(s, id, offset) == Prepend(p, ParseParts(rest, id, End(p)))
  {
    ParsePartConsumes(s);
    ParsedNameOk(s);
    var raw := ParsePart(s).value;
    var full := if raw.offset == OFFSET_NOT_SPECIFIED then raw.(offset := offset) else raw;
    ValidateIdempotent(id, full);
    p, rest := Validate(id, full).value, ParsePart(s).rest;
  }

  lemma {:induction false} ParsedPartsOk(s: string, id: MtdId, offset: u32)
    ensures var r := ParseParts(s, id, offset); r.Good? ==> forall i | 0 <= i < |r.value| :: PartOk(id, r.value[i])
    decreases |s|
  {
    if s != [] && s[0] != ';' && ParseParts(s, id, offset).Good? {
      var p, rest := ParsePartsUnfold(s, id, offset);
      ParsedPartsOk(rest, id, End(p));
    }
  }

  /** Where part_sort_add puts a partition: before the first one that does not start earlier. */
  function InsertPos(parts: seq<Part>, offset: u32): nat {
    if parts == [] || offset <= parts[0].offset then 0 else 1 + InsertPos(parts[1..], offset)
  }

  lemma {:induction false} InsertPosSplits(parts: seq<Part>, offset: u32)
    requires Sorted(parts)
    ensures var k := InsertPos(parts, offset);
            && k <= |parts|
            && (forall i | 0 <= i < k :: parts[i].offset < offset)
            && (forall i | k <= i < |parts| :: offset <= parts[i].offset)
  {
    if parts != [] && parts[0].offset < offset {
      var more := parts[1..];
      assert forall i | 0 <= i < |more| :: more[i] == parts[i + 1];
      InsertPosSplits(more, offset);
      var k := InsertPos(more, offset);
      forall i | 0 <= i < k + 1 ensures parts[i].offset < offset {
        if i > 0 { assert parts[i] == more[i - 1]; }
      }
      forall i | k + 1 <= i < |parts| ensures offset <= parts[i].offset { assert parts[i] == more[i - 1]; }
    }
  }

  function Inserted(parts: seq<Part>, k: nat, p: Part): seq<Part>
    requires k <= |parts|
  {
    parts[..k] + [p] + parts[k..]
  }

  lemma InsertedSorted(parts: seq<Part>, p: Part)
    requires Sorted(parts)
    ensures InsertPos(parts, p.offset) <= |parts| && Sorted(Inserted(parts, InsertPos(parts, p.offset), p))
  {
    InsertPosSplits(parts, p.offset);
    var k := InsertPos(parts, p.offset);
    var r := Inserted(parts, k, p);
    forall i, j | 0 <= i < j < |r| ensures r[i].offset <= r[j].offset {
      assert r[i] == if i < k then parts[i] else if i == k then p else parts[i - 1];
      assert r[j] == if j < k then parts[j] else if j == k then p else parts[j - 1];
    }
  }

  /** part_sort_add refuses only a second partition at offset zero; otherwise it inserts at that place. */
  lemma {:induction false} SortAddInserts(parts: seq<Part>, p: Part)
    ensures InsertPos(parts, p.offset) <= |parts|
    ensures SortAdd(parts, p) == if parts != [] && p.offset == parts[0].offset == 0 then None
                                 else Some(Inserted(parts, InsertPos(parts, p.offset), p))
  {
    if parts == [] {
      assert Inserted(parts, 0, p) == [p];
    } else if p.offset <= parts[0].offset {
      assert Inserted(parts, 0, p) == [p] + parts;
    } else {
      SortAddInserts(parts[1..], p);
      InsertedTail(parts, InsertPos(parts, p.offset), p);
    }
  }

  lemma InsertedTail(parts: seq<Part>, k: nat, p: Part)
    requires 0 < k <= |parts|
    ensures [parts[0]] + Inserted(parts[1..], k - 1, p) == Inserted(parts, k, p)
  {
  }

  lemma {:induction false} SortAllSorted(acc: seq<Part>, parts: seq<Part>)
    requires Sorted(acc) && SortAll(acc, parts).Some?
    ensures var r := SortAll(acc, parts).value;
            Sorted(r) && |r| == |acc| + |parts| && multiset(r) == multiset(acc) + multiset(parts)
    decreases |parts|
  {
    if parts != [] {
      SortAddInserts(acc, parts[0]);
      InsertedSorted(acc, parts[0]);
      var k := InsertPos(acc, parts[0].offset);
      assert acc == acc[..k] + acc[k..];
      SortAllSorted(Inserted(acc, k, parts[0]), parts[1..]);
      assert parts == [parts[0]] + parts[1..];
    }
  }

  lemma {:induction false} FindIdName(ids: seq<MtdId>, name: string)
    ensures FindId(ids, name).Some? ==> FindId(ids, name).value.name == name
  {
    if ids != [] && ids[0].name != name { FindIdName(ids[1..], name); }
  }

  lemma {:induction false} FindDeviceKey(devices: seq<Device>, key: Key)
    ensures var r := FindDevice(devices, key);
            if r.Some? then r.value in devices && r.value.id.key == key
            else forall i | 0 <= i < |devices| :: devices[i].id.key != key
  {
    if devices != [] && devices[0].id.key != key { FindDeviceKey(devices[1..], key); }
  }

  lemma ParsedDeviceOk(s: string, ids: seq<MtdId>, devices: seq<Device>)
    ensures var r := ParseDevice(s, ids, devices);
            r.Good? ==> DeviceOk(r.value) && FindId(ids, r.value.id.name) == Some(r.value.id)
  {
    var r := ParseDevice(s, ids, devices);
    if r.Good? {
      FindBound(':', s);
      var name := s[..Find(':', s).value];
      FindIdName(ids, name);
      var id := r.value.id;
      ParsedPartsOk(s[|name| + 1..], id, StartOffset(devices, id.key));
      var parts := ParseParts(s[|name| + 1..], id, StartOffset(devices, id.key)).value;
      SortAllSorted([], parts);
      var sorted := r.value.parts;
      forall i | 0 <= i < |sorted| ensures PartOk(id, sorted[i]) {
        assert sorted[i] in multiset(sorted);
        assert sorted[i] in parts;
      }
    }
  }

  /** Whatever the parser accepts satisfies the table invariant and refers to known ids. */
  lemma {:induction false} ParsedTableOk(s: string, ids: seq<MtdId>, found: seq<Device>)
    requires TableOk(found) && IdsResolve(found, ids)
    ensures var r := ParseDevices(s, ids, found); r.Some? ==> TableOk(r.value) && IdsResolve(r.value, ids)
    ensures var r := ParseDevices(s, ids, found); r.Some? && s != [] ==> r.value != []
    decreases |s|
  {
    if s != [] {
      ParsedDeviceOk(s, ids, found);
      ParseDeviceConsumes(s, ids, found);
      var r := ParseDevice(s, ids, found);
      if r.Good? {
        FindDeviceKey(found, r.value.id.key);
        if FindDevice(found, r.value.id.key).None? {
          ParsedTableOk(r.rest, ids, found + [r.value]);
          ParseDevicesGrows(r.rest, ids, found + [r.value]);
        }
      }
    }
  }

  lemma {:induction false} ParseDevicesGrows(s: string, ids: seq<MtdId>, found: seq<Device>)
    ensures var r := ParseDevices(s, ids, found); r.Some? ==> |r.value| >= |found|
    decreases |s|
  {
    if s != [] {
      ParseDeviceConsumes(s, ids, found);
      var r := ParseDevice(s, ids, found);
      if r.Good? { ParseDevicesGrows(r.rest, ids, found + [r.value]); }
    }
  }

  // ----- reading back one definition -----

  /** A printed definition survives unless its size is below the minimum, or reads as the fill-up size with
      more definitions to come. */
  predicate Readable(p: Part, last: bool) { p.size >= MIN_PART_SIZE && (p.size == SIZE_REMAINING ==> last) }

  predicate Printable(parts: seq<Part>) { forall i | 0 <= i < |parts| :: Readable(parts[i], i == |parts| - 1) }

  /** Text that cannot be mistaken for part of the number before it. */
  predicate Stops(s: string) { s == [] || s[0] in {'@', '(', 'r', ',', ';'} }

  lemma ReadName(p: Part, tail: string)
    requires NameOk(p) && Stops(tail) && !At(tail, '(')
    ensures ParseName(NameText(p) + tail) == Good(p.name, tail)
  {
    match p.name
    case None => assert NameText(p) + tail == tail;
    case Some(n) =>
      var s := NameText(p) + tail;
      assert s[1..] == n + ")" + tail;
      FindAt(')', n, tail);
      assert s[1..][..|n|] == n && s[1..][|n| + 1..] == tail;
  }

  lemma ReadOffset(p: Part, due: u32, tail: string)
    requires Stops(tail) && !At(tail, '@') && p.offset != OFFSET_NOT_SPECIFIED
    ensures ParseOffset(OffsetText(p, due) + tail) ==
            Num(if p.offset == due then OFFSET_NOT_SPECIFIED else p.offset, tail)
  {
    if p.offset == due {
      assert OffsetText(p, due) + tail == tail;
    } else {
      assert (OffsetText(p, due) + tail)[1..] == MemsizeFormat(p.offset) + tail;
      MemsizeRoundTrip(p.offset, tail);
    }
  }

  lemma ReadSize(p: Part, tail: string)
    requires Stops(tail)
    ensures ParseSize(SizeText(p) + tail) == if p.size < MIN_PART_SIZE then Bad else Good(p.size, tail)
  {
    MemsizeRoundTrip(p.size, tail);
    SizeTextHead(p.size);
    assert (SizeText(p) + tail)[0] == SizeText(p)[0];
  }

  lemma SizeTextHead(size: u32)
    ensures MemsizeFormat(size) != [] && IsDigit(MemsizeFormat(size)[0])
  {
    DecimalHead(size / SIZE_GB);
    DecimalHead(size / SIZE_MB);
    DecimalHead(size / SIZE_KB);
    DecimalHead(size);
  }

  lemma ReadRo(p: Part, tail: string)
    requires !("ro" <= tail)
    ensures ParseRo(RoText(p) + tail) == (p.ro, tail)
  {
    if p.ro { assert ("ro" + tail)[2..] == tail; } else { assert "" + tail == tail; }
  }

  function Sep(last: bool): string { if last then "" else "," }

  lemma ReadEnd(size: u32, last: bool, tail: string)
    requires last ==> tail == [] || tail[0] == ';'
    ensures ParseEnd(Sep(last) + tail, size) == if !last && size == SIZE_REMAINING then Bad else Good((), tail)
    ensures Stops(Sep(last) + tail) && !("ro" <= Sep(last) + tail)
  {
    if last { assert Sep(last) + tail == tail; } else { assert (Sep(last) + tail)[1..] == tail; }
  }

  lemma Reassociate(a: string, b: string, c: string, d: string, e: string, f: string)
    ensures a + b + c + d + e + f == a + (b + (c + (d + (e + f))))
  {
  }

  /** Parsing one printed definition, with a comma behind it iff more follow. */
  lemma ReadPart(p: Part, due: u32, last: bool, tail: string)
    requires NameOk(p) && p.offset != OFFSET_NOT_SPECIFIED
    requires last ==> tail == [] || tail[0] == ';'
    ensures ParsePart(PartText(p, due) + Sep(last) + tail) ==
            if Readable(p, last)
            then Good(p.(offset := if p.offset == due then OFFSET_NOT_SPECIFIED else p.offset), tail)
            else Bad
  {
    var t4 := Sep(last) + tail;
    var t3 := RoText(p) + t4;
    var t2 := NameText(p) + t3;
    var t1 := OffsetText(p, due) + t2;
    Reassociate(SizeText(p), OffsetText(p, due), NameText(p), RoText(p), Sep(last), tail);
    ReadEnd(p.size, last, tail);
    ReadRo(p, t4);
    ReadName(p, t3);
    ReadOffset(p, due, t2);
    ReadSize(p, t1);
  }

  // ----- reading back a device -----

  lemma ValidOffset(id: MtdId, p: Part)
    requires PartOk(id, p)
    ensures p.offset != OFFSET_NOT_SPECIFIED
  {
  }

  lemma ReadFirst(p: Part, id: MtdId, due: u32, last: bool, rest: string)
    requires PartOk(id, p) && (last ==> rest == [] || rest[0] == ';')
    ensures var s := PartText(p, due) + Sep(last) + rest;
            && s != [] && s[0] != ';'
            && ParseParts(s, id, due) == if Readable(p, last) then Prepend(p, ParseParts(rest, id, End(p))) else Bad
  {
    ValidOffset(id, p);
    ReadPart(p, due, last, rest);
    SizeTextHead(p.size);
    assert (PartText(p, due) + Sep(last) + rest)[0] == SizeText(p)[0];
  }

  lemma Shift(a: string, b: string, c: string, d: string)
    ensures a + b + c + d == a + b + (c + d)
  {
  }

  /** The definitions of a device come back, in list order, exactly when each of them is readable. */
  lemma {:induction false} ReadParts(parts: seq<Part>, id: MtdId, due: u32, tail: string)
    requires forall i | 0 <= i < |parts| :: PartOk(id, parts[i])
    requires tail == [] || tail[0] == ';'
    ensures ParseParts(PartsText(parts, due) + tail, id, due) == if Printable(parts) then Good(parts, tail) else Bad
    decreases |parts|
  {
    if parts == [] {
      assert PartsText(parts, due) + tail == tail;
    } else {
      var p, more := parts[0], parts[1..];
      var last := |parts| == 1;
      var rest := PartsText(more, End(p)) + tail;
      Shift(PartText(p, due), Sep(last), PartsText(more, End(p)), tail);
      assert last ==> rest == "" + tail == tail;
      ReadFirst(p, id, due, last, rest);
      ReadParts(more, id, End(p), tail);
      PrintableSplit(parts);
      assert parts == [p] + more;
    }
  }

  lemma PrintableSplit(parts: seq<Part>)
    requires parts != []
    ensures Printable(parts) <==> Readable(parts[0], |parts| == 1) && Printable(parts[1..])
  {
    var more := parts[1..];
    assert forall i | 0 <= i < |more| :: more[i] == parts[i + 1];
    if Readable(parts[0], |parts| == 1) && Printable(more) {
      forall i | 0 <= i < |parts| ensures Readable(parts[i], i == |parts| - 1) {
        if i > 0 { assert parts[i] == more[i - 1]; }
      }
    }
  }

  lemma {:induction false} SortAddAtEnd(acc: seq<Part>, p: Part)
    requires forall i | 0 <= i < |acc| :: acc[i].offset < p.offset
    ensures SortAdd(acc, p) == Some(acc + [p])
  {
    if acc == [] {
      assert acc + [p] == [p];
    } else {
      assert forall i | 0 <= i < |acc[1..]| :: acc[1..][i] == acc[i + 1];
      SortAddAtEnd(acc[1..], p);
      assert [acc[0]] + (acc[1..] + [p]) == acc + [p];
    }
  }

  /** Sorting an ascending list changes nothing. */
  lemma {:induction false} SortAllAscending(acc: seq<Part>, parts: seq<Part>)
    requires Ascending(acc + parts)
    ensures SortAll(acc, parts) == Some(acc + parts)
    decreases |parts|
  {
    if parts == [] {
      assert acc + parts == acc;
    } else {
      assert forall i | 0 <= i < |acc| :: acc[i] == (acc + parts)[i] && parts[0] == (acc + parts)[|acc|];
      SortAddAtEnd(acc, parts[0]);
      assert acc + [parts[0]] + parts[1..] == acc + parts;
      SortAllAscending(acc + [parts[0]], parts[1..]);
    }
  }

  lemma ColonSplit(name: string, body: string, tail: string)
    requires ':' !in name
    ensures var s := name + ":" + body + tail;
            && |name| < |s| && Find(':', s) == Some(|name|) && s[..|name|] == name && s[|name| + 1..] == body + tail
  {
    var s := name + ":" + body + tail;
    assert s == name + ":" + (body + tail);
    FindAt(':', name, body + tail);
  }

  /** One printed device parses back to what its definitions sort to, under the id its name resolves to. */
  lemma ReadDevice(d: Device, tail: string, ids: seq<MtdId>, found: seq<Device>)
    requires DeviceOk(d) && FindId(ids, d.id.name) == Some(d.id)
    requires FindDevice(found, d.id.key).None?
    requires tail == [] || tail[0] == ';'
    ensures var r := ParseDevice(DeviceText(d) + tail, ids, found);
            match SortAll([], d.parts)
            case Some(sorted) =>
              r == if Printable(d.parts)
                   then Good(Device(d.id, sorted, |sorted|), if tail == [] then [] else tail[1..])
                   else Bad
            case None => r == Bad
  {
    ColonSplit(d.id.name, PartsText(d.parts, 0), tail);
    ReadParts(d.parts, d.id, 0, tail);
  }

  /** A device whose name resolves differently, or not at all, does not come back. */
  lemma ReadForeignDevice(d: Device, tail: string, ids: seq<MtdId>, found: seq<Device>)
    requires ':' !in d.id.name && FindId(ids, d.id.name) != Some(d.id)
    ensures var r := ParseDevice(DeviceText(d) + tail, ids, found);
            r.Good? ==> r.value.id != d.id
  {
    ColonSplit(d.id.name, PartsText(d.parts, 0), tail);
  }

  // ----- the round trip -----

  predicate AllAscending(devices: seq<Device>) { forall i | 0 <= i < |devices| :: Ascending(devices[i].parts) }

  /** Adding the partitions one by one, in list order, gives the list again. */
  predicate SortsBack(parts: seq<Part>) { SortAll([], parts) == Some(parts) }

  predicate AllSortBack(devices: seq<Device>) { forall i | 0 <= i < |devices| :: SortsBack(devices[i].parts) }

  /** Distinct offsets are enough for that. */
  lemma DistinctSortBack(devices: seq<Device>)
    requires AllAscending(devices)
    ensures AllSortBack(devices)
  {
    forall i | 0 <= i < |devices| ensures SortsBack(devices[i].parts) {
      assert [] + devices[i].parts == devices[i].parts;
      SortAllAscending([], devices[i].parts);
    }
  }

  predicate AllPrintable(devices: seq<Device>) { forall i | 0 <= i < |devices| :: Printable(devices[i].parts) }

  /** The tables that their own text stands for. */
  predicate RoundTrips(devices: seq<Device>, ids: seq<MtdId>) {
    AllSortBack(devices) && AllPrintable(devices) && IdsResolve(devices, ids)
  }

  /** ParseDevices never changes what it has found already. */
  lemma {:induction false} ParseDevicesKeeps(s: string, ids: seq<MtdId>, found: seq<Device>)
    ensures var r := ParseDevices(s, ids, found); r.Some? ==> found <= r.value
    decreases |s|
  {
    if s != [] {
      ParseDeviceConsumes(s, ids, found);
      var r := ParseDevice(s, ids, found);
      if r.Good? { ParseDevicesKeeps(r.rest, ids, found + [r.value]); }
    }
  }

  /** The first device of a printed table: it is taken as it was, or the parse fails or goes wrong here. */
  lemma ReadFirstDevice(d: Device, tail: string, ids: seq<MtdId>, found: seq<Device>)
    requires DeviceOk(d) && FindDevice(found, d.id.key).None?
    requires tail == [] || tail[0] == ';'
    ensures if SortsBack(d.parts) && Printable(d.parts) && FindId(ids, d.id.name) == Some(d.id) then
              ParseDevice(DeviceText(d) + tail, ids, found) == Good(d, if tail == [] then [] else tail[1..])
            else
              var r := ParseDevice(DeviceText(d) + tail, ids, found);
              r.Good? ==> r.value != d
  {
    if FindId(ids, d.id.name) == Some(d.id) {
      ReadDevice(d, tail, ids, found);
    } else {
      ReadForeignDevice(d, tail, ids, found);
    }
  }

  lemma ParseDevicesStep(s: string, ids: seq<MtdId>, found: seq<Device>, goal: seq<Device>)
    requires s != [] && |found| < |goal|
    ensures var r := ParseDevice(s, ids, found);
            r.Bad? || r.value != goal[|found|] ==> ParseDevices(s, ids, found) != Some(goal)
    ensures var r := ParseDevice(s, ids, found);
            r.Good? && FindDevice(found, r.value.id.key).None? ==>
              ParseDevices(s, ids, found) == ParseDevices(r.rest, ids, found + [r.value])
  {
    var r := ParseDevice(s, ids, found);
    ParseDeviceConsumes(s, ids, found);
    if r.Good? { ParseDevicesKeeps(r.rest, ids, found + [r.value]); }
  }

  function TailText(devices: seq<Device>): string
    requires devices != []
  {
    (if |devices| > 1 then ";" else "") + DevicesText(devices[1..])
  }

  lemma TailTextFacts(devices: seq<Device>)
    requires devices != []
    ensures DevicesText(devices) == DeviceText(devices[0]) + TailText(devices)
    ensures TailText(devices) == [] || TailText(devices)[0] == ';'
    ensures DevicesText(devices[1..]) == if TailText(devices) == [] then [] else TailText(devices)[1..]
    ensures DevicesText(devices) != []
  {
    Associate(DeviceText(devices[0]), if |devices| > 1 then ";" else "", DevicesText(devices[1..]));
    assert |devices| == 1 ==> devices[1..] == [];
  }

  lemma {:induction false} ReadDevices(devices: seq<Device>, ids: seq<MtdId>, found: seq<Device>)
    requires TableOk(found + devices)
    ensures ParseDevices(DevicesText(devices), ids, found) == Some(found + devices) <==> RoundTrips(devices, ids)
    decreases |devices|
  {
    if devices == [] {
      assert found + devices == found;
    } else {
      var d, more := devices[0], devices[1..];
      assert (found + devices)[|found|] == d && found + [d] + more == found + devices;
      TailTextFacts(devices);
      FindDeviceNew(found, devices);
      ReadFirstDevice(d, TailText(devices), ids, found);
      ParseDevicesStep(DevicesText(devices), ids, found, found + devices);
      ReadDevices(more, ids, found + [d]);
      SplitConditions(devices, ids);
    }
  }

  lemma SplitConditions(devices: seq<Device>, ids: seq<MtdId>)
    requires devices != []
    ensures RoundTrips(devices, ids) <==>
            && SortsBack(devices[0].parts) && Printable(devices[0].parts)
            && FindId(ids, devices[0].id.name) == Some(devices[0].id) && RoundTrips(devices[1..], ids)
  {
    var more := devices[1..];
    assert forall i | 0 <= i < |more| :: more[i] == devices[i + 1];
    assert forall i | 1 <= i < |devices| :: devices[i] == more[i - 1];
  }

  lemma FindDeviceNew(found: seq<Device>, devices: seq<Device>)
    requires devices != [] && TableOk(found + devices)
    ensures FindDevice(found, devices[0].id.key).None?
  {
    FindDeviceKey(found, devices[0].id.key);
    assert (found + devices)[|found|] == devices[0];
    assert forall i | 0 <= i < |found| :: (found + devices)[i] == found[i];
  }

  lemma PrefixFacts(body: string)
    requires body != []
    ensures PREFIX <= PREFIX + body && PREFIX + body != PREFIX && (PREFIX + body)[9..] == body
  {
    assert |PREFIX + body| > |PREFIX|;
  }

  /** The round trip: a table comes back from its own text if and only if every list sorts to itself, every
      partition is readable and every device name still resolves to that device. */
  lemma RoundTripIff(devices: seq<Device>, ids: seq<MtdId>)
    requires devices != [] && TableOk(devices)
    ensures ParseMtdparts(Generate(devices), ids) == Some(devices) <==> RoundTrips(devices, ids)
  {
    assert [] + devices == devices;
    ReadDevices(devices, ids, []);
    TailTextFacts(devices);
    PrefixFacts(DevicesText(devices));
  }

  /** With two partitions at one nonzero offset the text reads back in the opposite order, so such a list sorts to
      itself only if they are the same. */
  lemma EqualOffsetsSwap(id: MtdId, a: Part, b: Part, ids: seq<MtdId>)
    requires ':' !in id.name && FindId(ids, id.name) == Some(id)
    requires PartOk(id, a) && PartOk(id, b) && a.offset == b.offset != 0 && Printable([a, b])
    ensures ParseMtdparts(Generate([Device(id, [a, b], 2)]), ids) == Some([Device(id, [b, a], 2)])
    ensures SortsBack([a, b]) <==> a == b
  {
    SortTwo(a, b);
    ReadOneDevice(Device(id, [a, b], 2), ids, [b, a]);
  }

  /** A table of one device reads back as what its partitions sort to. */
  lemma ReadOneDevice(d: Device, ids: seq<MtdId>, sorted: seq<Part>)
    requires DeviceOk(d) && FindId(ids, d.id.name) == Some(d.id)
    requires Printable(d.parts) && SortAll([], d.parts) == Some(sorted)
    ensures ParseMtdparts(Generate([d]), ids) == Some([Device(d.id, sorted, |sorted|)])
  {
    var e, s := Device(d.id, sorted, |sorted|), DeviceText(d) + "";
    assert [d][1..] == [] && DevicesText([d]) == s;
    ReadDevice(d, "", ids, []);
    assert ParseDevice(s, ids, []) == Good(e, []);
    assert [] + [e] == [e];
    ParseDevicesStep(s, ids, [], [e]);
    TailTextFacts([d]);
    PrefixFacts(s);
  }

  lemma SortThree(a: Part, b: Part, c: Part)
    requires a.offset == b.offset != 0 && b.offset < c.offset
    ensures SortAll([], [a, b, c]) == Some([b, a, c])
  {
    var two := [b] + [a];
    assert [a, b, c][1..] == [b, c] && [b, c][1..] == [c] && [c][1..] == [];
    assert SortAdd([], a) == Some([a]) && SortAdd([a], b) == Some(two);
    SortAddAtEnd(two, c);
    assert SortAll([], [a, b, c]) == SortAll([a], [b, c]);
    assert SortAll([a], [b, c]) == SortAll(two, [c]);
    assert SortAll(two, [c]) == SortAll(two + [c], []);
    assert two + [c] == [b, a, c];
  }

  lemma SortTwo(a: Part, b: Part)
    requires a.offset == b.offset != 0
    ensures SortAll([], [a, b]) == Some([b, a])
  {
    assert [a, b][1..] == [b] && [b][1..] == [];
    assert SortAdd([], a) == Some([a]);
    assert SortAdd([a], b) == Some([b] + [a]);
    assert SortAll([b] + [a], []) == Some([b] + [a]);
    assert SortAll([a], [b]) == SortAll([b] + [a], []);
    assert SortAll([], [a, b]) == SortAll([a], [b]);
    assert [b] + [a] == [b, a];
  }
}
