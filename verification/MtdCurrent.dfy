/** The device list with its tracked current partition, as values: what each update does to it and
    what every update keeps. */
module MtdCurrent {
  import opened Options
  import opened MtdNumbers
  import opened MtdGrammar
  import opened MtdRoundTrip

  /** `partnum` is an 8-bit index. */
  datatype Core = Core(devices: seq<Device>, current: Option<Key>, partnum: nat)

  // ----- positions -----

  function PosOf(devices: seq<Device>, key: Key): nat {
    if devices == [] || devices[0].id.key == key then 0 else 1 + PosOf(devices[1..], key)
  }

  lemma {:induction false} PosOfFinds(devices: seq<Device>, key: Key)
    ensures var i := PosOf(devices, key);
            && i <= |devices|
            && (i < |devices| ==> devices[i].id.key == key && FindDevice(devices, key) == Some(devices[i]))
            && (i == |devices| ==> FindDevice(devices, key).None?)
            && forall j | 0 <= j < i :: devices[j].id.key != key
  {
    if devices != [] && devices[0].id.key != key {
      PosOfFinds(devices[1..], key);
      var i := PosOf(devices[1..], key);
      forall j | 0 <= j < i + 1 ensures devices[j].id.key != key {
        if j > 0 { assert devices[j] == devices[1..][j - 1]; }
      }
    }
  }

  predicate DistinctKeys(devices: seq<Device>) {
    forall a, b | 0 <= a < b < |devices| :: devices[a].id.key != devices[b].id.key
  }

  lemma PosOfUnique(devices: seq<Device>, i: nat)
    requires i < |devices| && DistinctKeys(devices)
    ensures PosOf(devices, devices[i].id.key) == i
  {
    PosOfFinds(devices, devices[i].id.key);
  }

  // ----- the updates -----

  /** The source's test for stepping the current index: the partition in front of which the new one goes
      does not start behind the current one. */
  predicate Steps(parts: seq<Part>, offset: u32, c: nat) {
    var k := InsertPos(parts, offset);
    c < |parts| && k < |parts| && parts[k].offset <= parts[c].offset
  }

  /** part_sort_add on device i. */
  function AddAt(c: Core, i: nat, p: Part): Option<Core>
    requires i < |c.devices|
  {
    var d := c.devices[i];
    match SortAdd(d.parts, p)
    case None => None
    case Some(parts) =>
      var c' := c.(devices := c.devices[i := Device(d.id, parts, d.numParts + 1)]);
      if c.current == Some(d.id.key) && Steps(d.parts, p.offset, c.partnum)
      then Some(c'.(partnum := (c.partnum + 1) % 256))
      else Some(c')
  }

  function Without<T>(s: seq<T>, j: nat): seq<T>
    requires j < |s|
  {
    s[..j] + s[j + 1..]
  }

  /** The current index after partition j of the current device is gone, by the source's test on offsets. */
  function AfterDelete(parts: seq<Part>, j: nat, c: nat): nat
    requires j < |parts| && c < |parts|
  {
    if j == c then 0 else if parts[j].offset <= parts[c].offset then (c - 1) % 256 else c
  }

  /** The deletions that test miscounts: a later partition at the very same offset. */
  predicate Miscounts(parts: seq<Part>, j: nat, c: nat)
    requires j < |parts| && c < |parts|
  {
    j > c && parts[j].offset == parts[c].offset
  }

  /** part_del of partition j on device i; the last partition takes the device with it. */
  function DeleteAt(c: Core, i: nat, j: nat): Core
    requires i < |c.devices| && j < |c.devices[i].parts| == c.devices[i].numParts
  {
    var d := c.devices[i];
    if d.numParts == 1 then DropDevice(c, i)
    else
      var rest := c.devices[i := Device(d.id, Without(d.parts, j), d.numParts - 1)];
      if c.current == Some(d.id.key) && c.partnum < |d.parts| then
        Core(rest, c.current, AfterDelete(d.parts, j, c.partnum))
      else c.(devices := rest)
  }

  /** device_del: losing the current device moves current to the first partition of the first one left. */
  function DropDevice(c: Core, i: nat): Core
    requires i < |c.devices|
  {
    var rest := Without(c.devices, i);
    if c.current != Some(c.devices[i].id.key) then c.(devices := rest)
    else if rest == [] then Core(rest, None, c.partnum)
    else Core(rest, Some(rest[0].id.key), 0)
  }

  /** device_add: the first device of an empty list becomes current. */
  function AddDevice(c: Core, d: Device): Core {
    if c.devices == [] then Core([d], Some(d.id.key), 0) else c.(devices := c.devices + [d])
  }

  // ----- what they keep -----

  /** Current is set iff there are devices, and it then denotes a listed device. */
  predicate CurrentListed(c: Core) {
    && c.partnum < 256
    && (c.current.None? <==> c.devices == [])
    && (c.current.Some? ==> PosOf(c.devices, c.current.value) < |c.devices|)
  }

  /** The index denotes a partition of the current device. index_partitions reads the name of that partition
      without asking whether there is one, so a step that leaves the range does not come back. */
  predicate InRange(c: Core)
    requires CurrentListed(c)
  {
    c.current.Some? ==> c.partnum < |c.devices[PosOf(c.devices, c.current.value)].parts|
  }

  predicate CurrentOk(c: Core) { CurrentListed(c) && InRange(c) }

  predicate CoreOk(c: Core) { TableOk(c.devices) && CurrentOk(c) }

  /** The partition that current denotes, with its device. */
  function CurrentOf(c: Core): Option<(Key, Part)> {
    if c.current.None? then None
    else
      var i := PosOf(c.devices, c.current.value);
      if i < |c.devices| && c.partnum < |c.devices[i].parts| then Some((c.current.value, c.devices[i].parts[c.partnum]))
      else None
  }

  /** Inserting: the source's test holds exactly when the insertion point is at or before the current
      partition, and stepping the index then keeps it on the same partition. */
  lemma InsertKeepsCurrent(parts: seq<Part>, p: Part, c: nat)
    requires Sorted(parts) && c < |parts|
    ensures var k := InsertPos(parts, p.offset);
            && k <= |parts|
            && (Steps(parts, p.offset, c) <==> k <= c)
            && Inserted(parts, k, p)[if k <= c then c + 1 else c] == parts[c]
  {
    InsertPosSplits(parts, p.offset);
    var k := InsertPos(parts, p.offset);
    if k <= c {
      assert k == c || parts[k].offset <= parts[c].offset;
      assert Inserted(parts, k, p)[c + 1] == parts[k..][c - k];
    } else {
      assert parts[c].offset < p.offset;
      assert Inserted(parts, k, p)[c] == parts[..k][c];
    }
  }

  /** Deleting another partition leaves current where it was exactly outside the miscounted family. */
  lemma DeleteKeepsCurrentIff(parts: seq<Part>, j: nat, c: nat)
    requires Sorted(parts) && j < |parts| && c < |parts| && c < 256 && j != c
    ensures AfterDelete(parts, j, c) == (if j < c then c - 1 else c) <==> !Miscounts(parts, j, c)
    ensures Without(parts, j)[if j < c then c - 1 else c] == parts[c]
  {
    if j < c {
      assert parts[j].offset <= parts[c].offset;
    } else {
      assert parts[c].offset <= parts[j].offset;
      assert (c - 1) % 256 != c;
    }
  }

  lemma {:induction false} ReplacePos(devices: seq<Device>, i: nat, d: Device, key: Key)
    requires i < |devices| && d.id == devices[i].id
    ensures PosOf(devices[i := d], key) == PosOf(devices, key)
    decreases |devices|
  {
    if i > 0 {
      assert devices[i := d][1..] == devices[1..][i - 1 := d];
      ReplacePos(devices[1..], i - 1, d, key);
    } else {
      assert devices[i := d][1..] == devices[1..];
    }
  }

  lemma InsertedDeviceOk(d: Device, p: Part)
    requires DeviceOk(d) && PartOk(d.id, p) && SortAdd(d.parts, p).Some?
    ensures DeviceOk(Device(d.id, SortAdd(d.parts, p).value, d.numParts + 1))
  {
    SortAddInserts(d.parts, p);
    InsertedSorted(d.parts, p);
    var k := InsertPos(d.parts, p.offset);
    var r := Inserted(d.parts, k, p);
    forall i | 0 <= i < |r| ensures PartOk(d.id, r[i]) {
      assert r[i] == if i < k then d.parts[i] else if i == k then p else d.parts[i - 1];
    }
  }

  lemma ShrunkDeviceOk(d: Device, j: nat)
    requires DeviceOk(d) && j < |d.parts| && d.numParts > 1
    ensures DeviceOk(Device(d.id, Without(d.parts, j), d.numParts - 1))
  {
    var r := Without(d.parts, j);
    assert forall i | 0 <= i < |r| :: r[i] == if i < j then d.parts[i] else d.parts[i + 1];
  }

  lemma ReplaceOk(devices: seq<Device>, i: nat, d: Device)
    requires TableOk(devices) && i < |devices| && d.id == devices[i].id && DeviceOk(d)
    ensures TableOk(devices[i := d])
  {
  }

  lemma AddAtOther(c: Core, i: nat, p: Part)
    requires CurrentOk(c) && DistinctKeys(c.devices) && i < |c.devices| && c.current != Some(c.devices[i].id.key)
    requires AddAt(c, i, p).Some?
    ensures CurrentOk(AddAt(c, i, p).value) && CurrentOf(AddAt(c, i, p).value) == CurrentOf(c)
  {
    var d' := AddAt(c, i, p).value.devices[i];
    var pos := PosOf(c.devices, c.current.value);
    PosOfFinds(c.devices, c.current.value);
    ReplacePos(c.devices, i, d', c.current.value);
    assert c.devices[i := d'][pos] == c.devices[pos];
  }

  /** The insertion would step the 8-bit index past 255. */
  predicate Overflows(c: Core, i: nat, p: Part)
    requires i < |c.devices|
  {
    c.current == Some(c.devices[i].id.key) && c.partnum == 255 && Steps(c.devices[i].parts, p.offset, 255)
  }

  lemma AddAtSelf(c: Core, i: nat, p: Part)
    requires CurrentOk(c) && DistinctKeys(c.devices) && i < |c.devices| && c.current == Some(c.devices[i].id.key)
    requires Sorted(c.devices[i].parts) && AddAt(c, i, p).Some?
    ensures var c' := AddAt(c, i, p).value;
            CurrentOk(c') && if Overflows(c, i, p) then c'.partnum == 0 else CurrentOf(c') == CurrentOf(c)
  {
    var d := c.devices[i];
    SortAddInserts(d.parts, p);
    PosOfUnique(c.devices, i);
    ReplacePos(c.devices, i, AddAt(c, i, p).value.devices[i], d.id.key);
    InsertKeepsCurrent(d.parts, p, c.partnum);
  }

  /** Adding a partition keeps every invariant, and current stays on the same partition unless its 8-bit
      index overflows, which takes a list of more than 255. */
  lemma AddAtKeeps(c: Core, i: nat, p: Part)
    requires CoreOk(c) && i < |c.devices| && PartOk(c.devices[i].id, p) && AddAt(c, i, p).Some?
    ensures var c' := AddAt(c, i, p).value;
            CoreOk(c') && if Overflows(c, i, p) then c'.partnum == 0 else CurrentOf(c') == CurrentOf(c)
    ensures Overflows(c, i, p) ==> |c.devices[i].parts| > 255
  {
    InsertedDeviceOk(c.devices[i], p);
    ReplaceOk(c.devices, i, AddAt(c, i, p).value.devices[i]);
    if c.current == Some(c.devices[i].id.key) { AddAtSelf(c, i, p); } else { AddAtOther(c, i, p); }
  }

  lemma WithoutPos(devices: seq<Device>, i: nat, key: Key)
    requires DistinctKeys(devices) && i < |devices| && key != devices[i].id.key && PosOf(devices, key) < |devices|
    ensures var k := PosOf(devices, key);
            DistinctKeys(Without(devices, i)) && PosOf(Without(devices, i), key) == if k < i then k else k - 1
    ensures Without(devices, i)[PosOf(Without(devices, i), key)] == devices[PosOf(devices, key)]
  {
    var rest := Without(devices, i);
    var k := PosOf(devices, key);
    PosOfFinds(devices, key);
    assert forall a | 0 <= a < |rest| :: rest[a] == if a < i then devices[a] else devices[a + 1];
    var k' := if k < i then k else k - 1;
    assert rest[k'] == devices[k];
    PosOfUnique(rest, k');
  }

  lemma WithoutOk(devices: seq<Device>, i: nat)
    requires TableOk(devices) && i < |devices|
    ensures TableOk(Without(devices, i))
  {
    var rest := Without(devices, i);
    assert forall a | 0 <= a < |rest| :: rest[a] == if a < i then devices[a] else devices[a + 1];
  }

  /** Dropping a device keeps every invariant; unless it was the current one, current stays. */
  lemma DropDeviceKeeps(c: Core, i: nat)
    requires CoreOk(c) && i < |c.devices|
    ensures CoreOk(DropDevice(c, i))
    ensures c.current != Some(c.devices[i].id.key) ==> CurrentOf(DropDevice(c, i)) == CurrentOf(c)
  {
    WithoutOk(c.devices, i);
    PosOfFinds(c.devices, c.current.value);
    if c.current != Some(c.devices[i].id.key) {
      WithoutPos(c.devices, i, c.current.value);
    }
  }

  predicate IsCurrent(c: Core, i: nat, j: nat)
    requires i < |c.devices|
  {
    c.current == Some(c.devices[i].id.key) && c.partnum == j
  }

  /** The deletion of another partition of the current device that moves the index off its partition. */
  predicate Loses(c: Core, i: nat, j: nat)
    requires i < |c.devices| && j < |c.devices[i].parts| && CurrentOk(c)
  {
    c.current == Some(c.devices[i].id.key) && c.partnum < |c.devices[i].parts|
    && Miscounts(c.devices[i].parts, j, c.partnum)
  }

  /** The deletion that moves the index out of the list: from 0 to 255. */
  predicate Faults(c: Core, i: nat, j: nat)
    requires i < |c.devices| && j < |c.devices[i].parts| && CurrentOk(c)
  {
    Loses(c, i, j) && c.partnum == 0 && |c.devices[i].parts| <= 256
  }

  lemma DeleteAtCurrent(c: Core, i: nat, j: nat)
    requires CurrentOk(c) && DistinctKeys(c.devices) && i < |c.devices| && Sorted(c.devices[i].parts)
    requires j < |c.devices[i].parts| == c.devices[i].numParts && c.devices[i].numParts > 1
    ensures var c' := DeleteAt(c, i, j);
            && CurrentListed(c') && (InRange(c') <==> !Faults(c, i, j))
            && (!Loses(c, i, j) && !IsCurrent(c, i, j) ==> CurrentOf(c') == CurrentOf(c))
  {
    var d := c.devices[i];
    var d' := Device(d.id, Without(d.parts, j), d.numParts - 1);
    ReplacePos(c.devices, i, d', c.current.value);
    PosOfUnique(c.devices, i);
    PosOfFinds(c.devices, c.current.value);
    if c.current.value == d.id.key && j != c.partnum { DeleteKeepsCurrentIff(d.parts, j, c.partnum); }
  }

  /** Deleting a partition keeps the lists sorted, counted and current listed. The index leaves the range exactly
      for the faulting family, and current stays on the same partition unless that is the one deleted or the
      deletion is miscounted; with distinct offsets none is. */
  lemma DeleteAtKeeps(c: Core, i: nat, j: nat)
    requires CoreOk(c) && i < |c.devices| && j < |c.devices[i].parts|
    ensures var c' := DeleteAt(c, i, j);
            && TableOk(c'.devices) && CurrentListed(c') && (InRange(c') <==> !Faults(c, i, j))
            && (!Loses(c, i, j) && !IsCurrent(c, i, j) ==> CurrentOf(c') == CurrentOf(c))
    ensures Ascending(c.devices[i].parts) ==> !Loses(c, i, j) && !Faults(c, i, j)
  {
    if c.devices[i].numParts == 1 {
      PosOfUnique(c.devices, i);
      DropDeviceKeeps(c, i);
    } else {
      ShrunkDeviceOk(c.devices[i], j);
      ReplaceOk(c.devices, i, DeleteAt(c, i, j).devices[i]);
      DeleteAtCurrent(c, i, j);
    }
  }

  /** A valid table of two partitions at one offset, with the first one current: deleting the second leaves index
      255 in a list of one. */
  lemma FaultExample()
    ensures var id := MtdId(Key(Nand, 0), 0x10_0000, "nand0", NandGeometry(0x4000));
            var parts := [Part(0x4000, 0x8000, None, false), Part(0x8000, 0x8000, None, false)];
            var c := Core([Device(id, parts, 2)], Some(id.key), 0);
            && CoreOk(c) && Faults(c, 0, 1)
            && DeleteAt(c, 0, 1) == Core([Device(id, [parts[0]], 1)], Some(id.key), 255)
  {
    var id := MtdId(Key(Nand, 0), 0x10_0000, "nand0", NandGeometry(0x4000));
    var parts := [Part(0x4000, 0x8000, None, false), Part(0x8000, 0x8000, None, false)];
    assert PartOk(id, parts[0]) && PartOk(id, parts[1]);
    var c := Core([Device(id, parts, 2)], Some(id.key), 0);
    assert PosOf(c.devices, id.key) == 0 && Without(parts, 1) == [parts[0]];
    assert [Device(id, parts, 2)][0 := Device(id, [parts[0]], 1)] == [Device(id, [parts[0]], 1)];
  }

  lemma AddDeviceKeeps(c: Core, d: Device)
    requires CoreOk(c) && DeviceOk(d) && FindDevice(c.devices, d.id.key).None?
    ensures CoreOk(AddDevice(c, d))
    ensures c.devices != [] ==> CurrentOf(AddDevice(c, d)) == CurrentOf(c)
  {
    PosOfFinds(c.devices, d.id.key);
    if c.devices != [] {
      PosOfFinds(c.devices, c.current.value);
      var k := PosOf(c.devices, c.current.value);
      assert (c.devices + [d])[k] == c.devices[k];
      PosOfUnique(c.devices + [d], k);
    }
  }

  // ----- global numbering -----

  /** All partitions of all devices, in list order. */
  function Flat(devices: seq<Device>): seq<Part> {
    if devices == [] then [] else Flat(devices[..|devices| - 1]) + devices[|devices| - 1].parts
  }

  /** The partitions of the devices in front, plus the index: the number of a partition in the whole table. */
  lemma {:induction false} FlatIndex(devices: seq<Device>, i: nat, k: nat)
    requires i < |devices| && k < |devices[i].parts|
    ensures |Flat(devices[..i])| + k < |Flat(devices)| && Flat(devices)[|Flat(devices[..i])| + k] == devices[i].parts[k]
    decreases |devices|
  {
    var n := |devices| - 1;
    if i < n {
      assert devices[..n][..i] == devices[..i];
      FlatIndex(devices[..n], i, k);
    }
  }
}
