/** What each command does to the table and to the current partition, beside what it keeps. */
module MtdContents {
  import opened Options
  import opened MtdGrammar
  import opened MtdRoundTrip
  import opened MtdCurrent
  import opened MtdCommands

  // ----- adding and deleting -----

  /** All devices but one are as they were. */
  predicate OthersKept(before: seq<Device>, after: seq<Device>, i: nat) {
    |after| == |before| && forall j | 0 <= j < |before| && j != i :: after[j] == before[j]
  }

  lemma InsertedBag(parts: seq<Part>, k: nat, p: Part)
    requires k <= |parts|
    ensures multiset(Inserted(parts, k, p)) == multiset(parts) + multiset{p}
  {
    assert parts == parts[..k] + parts[k..];
  }

  lemma WithoutBag(parts: seq<Part>, j: nat)
    requires j < |parts|
    ensures multiset(parts) == multiset(Without(parts, j)) + multiset{parts[j]} && |Without(parts, j)| == |parts| - 1
  {
    assert parts == parts[..j] + ([parts[j]] + parts[j + 1..]);
  }

  /** An addition puts the partition on its device, among those that were there, and changes nothing else. */
  lemma AddAtContents(c: Core, i: nat, p: Part)
    requires CoreOk(c) && i < |c.devices| && AddAt(c, i, p).Some?
    ensures var c', d := AddAt(c, i, p).value, c.devices[i];
            && OthersKept(c.devices, c'.devices, i) && c'.current == c.current
            && c'.devices[i].id == d.id && multiset(c'.devices[i].parts) == multiset(d.parts) + multiset{p}
            && Sorted(c'.devices[i].parts)
  {
    var d := c.devices[i];
    SortAddInserts(d.parts, p);
    InsertedSorted(d.parts, p);
    InsertPosSplits(d.parts, p.offset);
    InsertedBag(d.parts, InsertPos(d.parts, p.offset), p);
  }

  /** A deletion takes the partition from its device, or the device with it if it was the only one. */
  lemma DeleteAtContents(c: Core, i: nat, j: nat)
    requires CoreOk(c) && i < |c.devices| && j < |c.devices[i].parts|
    ensures var c', d := DeleteAt(c, i, j), c.devices[i];
            if |d.parts| == 1 then c'.devices == c.devices[..i] + c.devices[i + 1..]
            else
              && OthersKept(c.devices, c'.devices, i) && c'.current == c.current && c'.devices[i].id == d.id
              && multiset(d.parts) == multiset(c'.devices[i].parts) + multiset{d.parts[j]}
              && Sorted(c'.devices[i].parts)
  {
    assert DeviceOk(c.devices[i]);
    WithoutBag(c.devices[i].parts, j);
    if |c.devices[i].parts| > 1 { ShrunkDeviceOk(c.devices[i], j); }
  }

  /** A deletion undoes an addition. */
  lemma DeleteUndoesAdd(c: Core, i: nat, p: Part)
    requires i < |c.devices| && DeviceOk(c.devices[i]) && AddAt(c, i, p).Some?
    ensures var c', k := AddAt(c, i, p).value, InsertPos(c.devices[i].parts, p.offset);
            && k < |c'.devices[i].parts| == c'.devices[i].numParts && c'.devices[i].parts[k] == p
            && DeleteAt(c', i, k).devices == c.devices
  {
    var d, k := c.devices[i], InsertPos(c.devices[i].parts, p.offset);
    AddedDevices(c, i, p, k);
    InsertedThenOut(d.parts, k, p);
    DeletedDevices(AddAt(c, i, p).value, i, k, d.parts);
    BackAgain(c.devices, i, Device(d.id, Inserted(d.parts, k, p), |d.parts| + 1), d);
  }

  lemma AddedDevices(c: Core, i: nat, p: Part, k: nat)
    requires i < |c.devices| && DeviceOk(c.devices[i]) && AddAt(c, i, p).Some?
    requires k == InsertPos(c.devices[i].parts, p.offset)
    ensures var d := c.devices[i];
            && k <= |d.parts| && d.numParts == |d.parts| > 0
            && AddAt(c, i, p).value.devices
               == c.devices[i := Device(d.id, Inserted(d.parts, k, p), |d.parts| + 1)]
  {
    SortAddInserts(c.devices[i].parts, p);
    InsertPosSplits(c.devices[i].parts, p.offset);
  }

  lemma InsertedThenOut(parts: seq<Part>, k: nat, p: Part)
    requires k <= |parts|
    ensures var grown := Inserted(parts, k, p);
            |grown| == |parts| + 1 && grown[k] == p && Without(grown, k) == parts
  {
  }

  lemma DeletedDevices(c: Core, i: nat, j: nat, parts: seq<Part>)
    requires i < |c.devices| && j < |c.devices[i].parts| == c.devices[i].numParts && c.devices[i].numParts > 1
    requires Without(c.devices[i].parts, j) == parts
    ensures DeleteAt(c, i, j).devices == c.devices[i := Device(c.devices[i].id, parts, c.devices[i].numParts - 1)]
  {
  }

  lemma BackAgain(devices: seq<Device>, i: nat, e: Device, d: Device)
    requires i < |devices| && devices[i] == d
    ensures devices[i := e][i := d] == devices
  {
  }

  /** `mtdparts add`: a device that is not listed goes behind the others with all its partitions; a listed one gets
      the first partition of the text. */
  lemma AddedContents(b: Board, st: State, text: string)
    requires StateOk(b, st) && Added(st, text).Some?
    ensures var d, core := ParseDevice(text, st.ids, st.core.devices).value, Added(st, text).value.core;
            var i := PosOf(st.core.devices, d.id.key);
            if FindDevice(st.core.devices, d.id.key).None? then core.devices == st.core.devices + [d]
            else
              && i < |st.core.devices| && d.parts != [] && Validate(st.core.devices[i].id, d.parts[0]).Some?
              && OthersKept(st.core.devices, core.devices, i)
              && multiset(core.devices[i].parts)
                 == multiset(st.core.devices[i].parts)
                    + multiset{Validate(st.core.devices[i].id, d.parts[0]).value}
  {
    ParsedDeviceOk(text, st.ids, st.core.devices);
    var d := ParseDevice(text, st.ids, st.core.devices).value;
    PosOfFinds(st.core.devices, d.id.key);
    var i := PosOf(st.core.devices, d.id.key);
    if i < |st.core.devices| {
      AddAtContents(st.core, i, Validate(st.core.devices[i].id, d.parts[0]).value);
    } else {
      DeviceAdded(st.core, d);
    }
  }

  // ----- the current partition -----

  /** The first partition of the first device is current. */
  predicate FirstCurrent(c: Core) {
    if c.devices == [] then c.current.None?
    else c.devices[0].parts != [] && CurrentOf(c) == Some((c.devices[0].id.key, c.devices[0].parts[0]))
  }

  /** Deleting the current partition makes the first one of its device current, and deleting the current device the
      first one of all. */
  lemma CurrentDeleted(c: Core, i: nat, j: nat)
    requires CoreOk(c) && i < |c.devices| && j < |c.devices[i].parts| && IsCurrent(c, i, j)
    ensures var c' := DeleteAt(c, i, j);
            if |c.devices[i].parts| == 1 then FirstCurrent(c')
            else CurrentOf(c') == Some((c.devices[i].id.key, Without(c.devices[i].parts, j)[0]))
  {
    assert DeviceOk(c.devices[i]);
    if |c.devices[i].parts| == 1 {
      CurrentDropped(c, i);
    } else {
      var d := c.devices[i];
      PosOfUnique(c.devices, i);
      ReplacePos(c.devices, i, Device(d.id, Without(d.parts, j), d.numParts - 1), d.id.key);
    }
  }

  lemma CurrentDropped(c: Core, i: nat)
    requires CoreOk(c) && i < |c.devices| && c.current == Some(c.devices[i].id.key)
    ensures FirstCurrent(DropDevice(c, i))
  {
    WithoutOk(c.devices, i);
    var rest := Without(c.devices, i);
    if rest != [] { assert DeviceOk(rest[0]); }
  }

  /** The first device of a table becomes current with its first partition; a later one goes behind the others. */
  lemma DeviceAdded(c: Core, d: Device)
    requires CoreOk(c) && DeviceOk(d)
    ensures AddDevice(c, d).devices == c.devices + [d]
    ensures c.devices == [] ==> FirstCurrent(AddDevice(c, d))
  {
    assert c.devices == [] ==> c.devices + [d] == [d];
  }

  /** Choosing a partition makes that one current if it exists and its number fits 8 bits; else nothing changes. */
  lemma ChosenIsCurrent(core: Core, key: Key, pnum: nat)
    requires CoreOk(core)
    ensures if Exists(core, key, pnum) && pnum < 256
            then CurrentOf(Chosen(core, key, pnum))
                 == Some((key, core.devices[PosOf(core.devices, key)].parts[pnum]))
            else Chosen(core, key, pnum) == core
  {
    PosOfFinds(core.devices, key);
    var i := PosOf(core.devices, key);
    if i < |core.devices| { assert DeviceOk(core.devices[i]); }
  }

  // ----- initialisation -----

  /** The current partition after a successful initialisation with mtdparts set: the one asked for if it exists; else
      the first one of a table just parsed, and the same one as before of a table that was kept. */
  ghost predicate RightCurrent(b: Board, st: State, c: Core, ids: Option<string>, parts: string,
                               request: Option<(Key, nat)>)
    requires ids.Some? || b.idsDefault.Some?
  {
    if request.Some? && Exists(c, request.value.0, request.value.1) && request.value.1 < 256
    then CurrentOf(c) == Some((request.value.0, c.devices[PosOf(c.devices, request.value.0)].parts[request.value.1]))
    else if Parses(b, st, ids, parts) then FirstCurrent(c)
    else CurrentOf(c) == CurrentOf(st.core) && c.devices == st.core.devices
  }

  lemma InitCurrent(b: Board, st: State, ids: Option<string>, parts: string, request: Option<(Key, nat)>)
    requires StateOk(b, st) && Init(b, st, ids, Some(parts), request).1
    ensures ids.Some? || b.idsDefault.Some?
    ensures RightCurrent(b, st, Init(b, st, ids, Some(parts), request).0.core, ids, parts, request)
  {
    var text := IdsText(b, ids);
    if !IdsChanged(st, text) {
      SyncCurrent(b, st, parts, request, false);
    } else {
      SyncCurrent(b, st.(ids := b.idsOf(text).value, lastIds := text), parts, request, true);
    }
  }

  lemma SyncCurrent(b: Board, st: State, parts: string, request: Option<(Key, nat)>, changed: bool)
    requires CoreOk(st.core) && SyncParts(st, Some(parts), request, changed).1
    ensures var c := SyncParts(st, Some(parts), request, changed).0.core;
            if request.Some? && Exists(c, request.value.0, request.value.1) && request.value.1 < 256
            then CurrentOf(c)
                 == Some((request.value.0, c.devices[PosOf(c.devices, request.value.0)].parts[request.value.1]))
            else if NeedsParse(st, parts, changed) then FirstCurrent(c)
            else CurrentOf(c) == CurrentOf(st.core) && c.devices == st.core.devices
  {
    var core := if NeedsParse(st, parts, changed) then Refreshed(st, parts).value.core else st.core;
    if NeedsParse(st, parts, changed) {
      ParsedTableOk(parts[9..], st.ids, []);
      FirstIsCurrent(core.devices);
      assert DeviceOk(core.devices[0]);
    }
    if request.Some? { ChosenIsCurrent(core, request.value.0, request.value.1); }
  }

  /** With mtdparts unset, a table that came from it is cleared. */
  lemma InitUnset(b: Board, st: State, ids: Option<string>, request: Option<(Key, nat)>)
    requires Init(b, st, ids, None, request).1
    ensures var st' := Init(b, st, ids, None, request).0;
            if st.lastParts != [] then st'.core.devices == [] && st'.core.current.None? && st'.lastParts == []
            else st'.core == st.core
  {
  }

  /** Texts that are too long and a missing mtdids are refused without a change; mtdids or mtdparts that do not parse
      leave an empty table and no cache. */
  lemma InitFails(b: Board, st: State, ids: Option<string>, parts: Option<string>, request: Option<(Key, nat)>)
    requires !Init(b, st, ids, parts, request).1
    ensures var st' := Init(b, st, ids, parts, request).0;
            if (ids.None? && b.idsDefault.None?) || |IdsText(b, ids)| > 127 || (parts.Some? && |parts.value| > 511)
            then st' == st
            else st'.core.devices == [] && st'.core.current.None? && st'.lastParts == []
  {
  }

  /** A saved table that fits is taken as it is by the next initialisation with the same mtdids and the text that was
      saved. */
  lemma SavedIsTaken(b: Board, st: State)
    requires st.core.devices != [] && 0 < |st.lastIds| <= 127 && |Generate(st.core.devices)| <= 511
    ensures var s := Saved(st);
            && s == st.(lastParts := Generate(st.core.devices))
            && Init(b, s, Some(st.lastIds), Some(Generate(st.core.devices)), None) == (s, true)
  {
    assert Generate(st.core.devices) == PREFIX + DevicesText(st.core.devices);
  }

  /** A table whose text does not fit behind the prefix is not cached. */
  lemma TooLongNotSaved(st: State)
    requires |DevicesText(st.core.devices)| > 511
    ensures Saved(st) == st.(lastParts := [])
  {
  }
}
