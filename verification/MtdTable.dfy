/** The global partition table as the commands update it in place: device list, current partition,
    and the cache of the last parsed `mtdids` and `mtdparts` strings. Every method computes the function
    of the same step, so what holds over runs of those functions holds of the table. */
module MtdTable {
  import opened Options
  import opened MtdGrammar
  import opened MtdRoundTrip
  import opened MtdCurrent
  import opened MtdCommands
  import opened MtdContents
  import Scanner = MtdScanner
  import Printer = MtdPrinter

  predicate Counted(devices: seq<Device>) { forall i | 0 <= i < |devices| :: devices[i].numParts == |devices[i].parts| }

  lemma WrapAdd(a: nat, b: nat)
    ensures (a % 0x1_0000 + b) % 0x1_0000 == (a + b) % 0x1_0000
  {
  }

  class Table {
    const board: Board

    var ids: seq<MtdId>
    var devices: seq<Device>
    var current: Option<Key>         // current_dev
    var partnum: nat                 // current_partnum
    var lastIds: string
    var lastParts: string
    var mtddevnum: Option<nat>       // environment variable

    ghost function CoreNow(): Core
      reads this
    {
      Core(devices, current, partnum)
    }

    ghost function St(): State
      reads this
    {
      State(CoreNow(), ids, lastIds, lastParts)
    }

    /** The list part of the invariant: it holds between the steps of a command as well. */
    ghost predicate ListOk()
      reads this
    {
      CoreOk(CoreNow()) && mtddevnum == NumberOf(CoreNow())
    }

    ghost predicate Valid()
      reads this
    {
      StateOk(board, St()) && mtddevnum == NumberOf(CoreNow())
    }

    constructor (board: Board)
      ensures Valid() && St() == EMPTY && this.board == board
    {
      this.board := board;
      ids, devices, current, partnum := [], [], None, 0;
      lastIds, lastParts, mtddevnum := [], [], None;
    }

    // ----- list updates -----

    /** index_partitions. It sets the number and then reads the name of the current partition; `fault` says that
        there is none to read. */
    method IndexPartitions() returns (fault: bool)
      requires Counted(devices) && CurrentListed(CoreNow())
      modifies this`mtddevnum
      ensures mtddevnum == NumberOf(CoreNow())
      ensures fault <==> !InRange(CoreNow())
    {
      if current.None? {
        mtddevnum := None;
        return false;
      }
      PosOfFinds(devices, current.value);
      var i, num := CountInFront(current.value);
      WrapAdd(|Flat(devices[..i])|, partnum);
      mtddevnum := Some((num + partnum) % 0x1_0000);
      fault := partnum >= devices[i].numParts;
    }

    /** The partitions in front of a listed device, in 16 bits. */
    method CountInFront(key: Key) returns (i: nat, num: nat)
      requires Counted(devices) && PosOf(devices, key) < |devices|
      ensures i == PosOf(devices, key) && num == |Flat(devices[..i])| % 0x1_0000
    {
      i, num := 0, 0;
      PosOfFinds(devices, key);
      while devices[i].id.key != key
        invariant i <= PosOf(devices, key) && num == |Flat(devices[..i])| % 0x1_0000
        decreases |devices| - i
      {
        assert devices[..i + 1][..i] == devices[..i];
        WrapAdd(|Flat(devices[..i])|, devices[i].numParts);
        num := (num + devices[i].numParts) % 0x1_0000;
        i := i + 1;
      }
    }

    /** device_find, as a position. */
    method DeviceFind(key: Key) returns (i: nat)
      ensures i == PosOf(devices, key) && i <= |devices|
    {
      i := 0;
      while i < |devices|
        invariant i <= |devices| && PosOf(devices, key) == i + PosOf(devices[i..], key)
      {
        if devices[i].id.key == key { return; }
        assert devices[i..][1..] == devices[i + 1..];
        i := i + 1;
      }
    }

    /** Links a partition into the list of device i and steps current. */
    method Link(i: nat, p: Part) returns (ok: bool)
      requires i < |devices|
      modifies this`devices, this`partnum
      ensures ok == AddAt(old(CoreNow()), i, p).Some?
      ensures CoreNow() == if ok then AddAt(old(CoreNow()), i, p).value else old(CoreNow())
    {
      var d := devices[i];
      var place := Scanner.PlaceOf(d.parts, p);
      if place.None? { return false; }
      var j := place.value;
      var steps := current == Some(d.id.key) && partnum < |d.parts|
                   && j < |d.parts| && d.parts[j].offset <= d.parts[partnum].offset;
      devices := devices[i := Device(d.id, d.parts[..j] + [p] + d.parts[j..], d.numParts + 1)];
      if steps {
        partnum := (partnum + 1) % 256;
      }
      return true;
    }

    /** part_sort_add on a listed device. */
    method PartSortAdd(i: nat, p: Part) returns (ok: bool)
      requires ListOk() && i < |devices| && PartOk(devices[i].id, p)
      modifies this`devices, this`partnum, this`mtddevnum
      ensures ok == AddAt(old(CoreNow()), i, p).Some?
      ensures CoreNow() == if ok then AddAt(old(CoreNow()), i, p).value else old(CoreNow())
      ensures ListOk()
    {
      ghost var before := CoreNow();
      ok := Link(i, p);
      if ok {
        AddAtKeeps(before, i, p);
        var fault := IndexPartitions();
        assert !fault;
      }
    }

    /** part_add: validates against the listed device, then links. */
    method PartAdd(i: nat, p: Part) returns (ok: bool)
      requires ListOk() && i < |devices| && NameOk(p)
      modifies this`devices, this`partnum, this`mtddevnum
      ensures var v := Validate(old(devices)[i].id, p);
              if v.Some? && AddAt(old(CoreNow()), i, v.value).Some?
              then ok && CoreNow() == AddAt(old(CoreNow()), i, v.value).value
              else !ok && CoreNow() == old(CoreNow())
      ensures ListOk()
    {
      var v := Scanner.PartValidate(devices[i].id, p);
      if v.None? { return false; }
      ValidateIdempotent(devices[i].id, p);
      ok := PartSortAdd(i, v.value);
    }

    /** device_del */
    method DeviceDel(i: nat)
      requires CoreOk(CoreNow()) && i < |devices|
      modifies this`devices, this`current, this`partnum, this`mtddevnum
      ensures CoreNow() == DropDevice(old(CoreNow()), i)
      ensures ListOk()
    {
      ghost var before := CoreNow();
      var key := devices[i].id.key;
      devices := devices[..i] + devices[i + 1..];
      if current == Some(key) {
        if devices == [] {
          current := None;
        } else {
          current := Some(devices[0].id.key);
          partnum := 0;
        }
      }
      DropDeviceKeeps(before, i);
      var fault := IndexPartitions();
      assert !fault;
    }

    /** Unlinks partition j of device i, which has others, and steps current. */
    method Unlink(i: nat, j: nat)
      requires i < |devices| && j < |devices[i].parts| == devices[i].numParts && devices[i].numParts > 1
      modifies this`devices, this`partnum
      ensures CoreNow() == DeleteAt(old(CoreNow()), i, j)
    {
      var d := devices[i];
      if current == Some(d.id.key) && partnum < |d.parts| {
        if partnum == j {
          partnum := 0;
        } else if d.parts[j].offset <= d.parts[partnum].offset {
          partnum := (partnum - 1) % 256;
        }
      }
      devices := devices[i := Device(d.id, d.parts[..j] + d.parts[j + 1..], d.numParts - 1)];
    }

    /** part_del. `fault` says that it does not come back. */
    method PartDel(i: nat, j: nat) returns (fault: bool)
      requires CoreOk(CoreNow()) && i < |devices| && j < |devices[i].parts|
      modifies this`devices, this`current, this`partnum, this`mtddevnum
      ensures CoreNow() == DeleteAt(old(CoreNow()), i, j)
      ensures fault <==> Faults(old(CoreNow()), i, j)
      ensures !fault ==> ListOk()
    {
      DeleteAtKeeps(CoreNow(), i, j);
      if devices[i].numParts == 1 {
        DeviceDel(i);
        fault := false;
      } else {
        Unlink(i, j);
        fault := IndexPartitions();
      }
    }

    /** device_add */
    method DeviceAdd(d: Device)
      requires CoreOk(CoreNow()) && DeviceOk(d) && FindDevice(devices, d.id.key).None?
      modifies this`devices, this`current, this`partnum, this`mtddevnum
      ensures CoreNow() == AddDevice(old(CoreNow()), d)
      ensures ListOk()
    {
      ghost var before := CoreNow();
      if devices == [] {
        current, partnum := Some(d.id.key), 0;
      }
      devices := devices + [d];
      AddDeviceKeeps(before, d);
      var fault := IndexPartitions();
      assert !fault;
    }

    /** devices_init */
    method DevicesInit()
      modifies this`devices, this`current, this`lastParts, this`mtddevnum
      ensures St() == Cleared(old(St())) && mtddevnum == None
    {
      lastParts := [];
      current := None;
      mtddevnum := None;
      devices := [];
    }

    // ----- commands -----

    /** generate_mtdparts_save: also gives the new value of the mtdparts variable. */
    method GenerateSave() returns (rc: nat, env: Option<string>)
      modifies this`lastParts
      ensures St() == Saved(old(St()))
      ensures rc == 0 <==> |DevicesText(devices)| <= MTDPARTS_MAXLEN - 1
      ensures env == if lastParts == [] then None else Some(lastParts)
    {
      var ok, text := Printer.GenerateMtdparts(devices, MTDPARTS_MAXLEN);
      lastParts := text;
      rc := if ok then 0 else 1;
      env := if text == [] then None else Some(text);
    }

    /** `mtdparts add`, behind the assembly of its arguments into one device text. */
    method AddPartition(text: string) returns (rc: nat, env: Option<string>)
      requires Valid()
      modifies this`devices, this`current, this`partnum, this`mtddevnum, this`lastParts
      ensures Valid()
      ensures Some(St()) == Apply(board, old(St()), DoAdd(text))
      ensures rc == 0 <==> Added(old(St()), text).Some? && |DevicesText(devices)| <= MTDPARTS_MAXLEN - 1
    {
      rc, env := 1, None;
      ghost var before := St();
      var ok := AddParsed(text);
      if ok {
        rc, env := GenerateSave();
        AddedOk(board, before, text);
      }
    }

    /** Parses and links what `mtdparts add` adds. */
    method AddParsed(text: string) returns (ok: bool)
      requires Valid()
      modifies this`devices, this`current, this`partnum, this`mtddevnum
      ensures ok == Added(old(St()), text).Some?
      ensures if ok then Saved(St()) == Added(old(St()), text).value else CoreNow() == old(CoreNow())
      ensures mtddevnum == NumberOf(CoreNow())
    {
      assert text[0..] == text;
      var dev, _ := Scanner.DeviceParse(text, 0, ids, devices);
      if dev.None? { return false; }
      var d := dev.value;
      ParsedDeviceOk(text, ids, devices);
      PosOfFinds(devices, d.id.key);
      var i := DeviceFind(d.id.key);
      if i == |devices| {
        DeviceAdd(d);
        ok := true;
      } else {
        assert PartOk(d.id, d.parts[0]);
        ok := PartAdd(i, d.parts[0]);
      }
    }

    /** `mtdparts del` of partition pnum on the device with this key. `fault` says that it does not come back. */
    method DeletePartition(key: Key, pnum: nat) returns (rc: nat, env: Option<string>, fault: bool)
      requires Valid()
      modifies this`devices, this`current, this`partnum, this`mtddevnum, this`lastParts
      ensures if fault then Apply(board, old(St()), DoDelete(key, pnum)) == None
              else Valid() && Apply(board, old(St()), DoDelete(key, pnum)) == Some(St())
      ensures AllAscending(old(devices)) ==> !fault
      ensures !fault ==>
                (rc == 0 <==> Exists(old(CoreNow()), key, pnum) && |DevicesText(devices)| <= MTDPARTS_MAXLEN - 1)
    {
      rc, env, fault := 1, None, false;
      var i := DeviceFind(key);
      if i == |devices| || pnum >= devices[i].numParts { return; }
      DeletedOk(board, St(), key, pnum);
      fault := PartDel(i, pnum);
      if !fault { rc, env := GenerateSave(); }
    }

    /** The parsing branch of mtdparts_init. */
    method Refresh(text: string) returns (ok: bool)
      requires partnum < 256
      modifies this`devices, this`current, this`partnum, this`lastParts, this`mtddevnum
      ensures ok == Refreshed(old(St()), text).Some?
      ensures St() == if ok then Refreshed(old(St()), text).value else Cleared(old(St()))
      ensures ListOk()
    {
      DevicesInit();
      var parsed := Scanner.MtdpartsParse(text, ids);
      if parsed.None? { return false; }
      ParsedTableOk(text[9..], ids, []);
      Install(parsed.value, text);
      return true;
    }

    /** A parsed table: its first partition becomes current. */
    method Install(parsed: seq<Device>, text: string)
      requires parsed != [] && TableOk(parsed)
      modifies this`devices, this`current, this`partnum, this`lastParts, this`mtddevnum
      ensures CoreNow() == Core(parsed, Some(parsed[0].id.key), 0) && lastParts == text
      ensures ListOk()
    {
      devices := parsed;
      lastParts := text;
      current, partnum := Some(devices[0].id.key), 0;
      FirstIsCurrent(devices);
      var fault := IndexPartitions();
      assert !fault;
    }

    /** `chpart`, and what mtdparts_init does with a changed `partition` variable. */
    method Choose(key: Key, pnum: nat)
      requires ListOk()
      modifies this`current, this`partnum, this`mtddevnum
      ensures ListOk()
      ensures CoreNow() == Chosen(old(CoreNow()), key, pnum)
      ensures if Exists(old(CoreNow()), key, pnum) && pnum < 256
              then CurrentOf(CoreNow()) == Some((key, devices[PosOf(devices, key)].parts[pnum]))
              else CoreNow() == old(CoreNow())
    {
      ChosenOk(CoreNow(), key, pnum);
      ChosenIsCurrent(CoreNow(), key, pnum);
      var i := DeviceFind(key);
      if i < |devices| && pnum < devices[i].numParts && pnum < 256 {
        current, partnum := Some(key), pnum;
        var fault := IndexPartitions();
        assert !fault;
      }
    }

    /** The part of mtdparts_init behind the synchronisation of mtdids. */
    method SyncTable(parts: Option<string>, request: Option<(Key, nat)>, changed: bool) returns (ok: bool)
      requires ListOk()
      modifies this`devices, this`current, this`partnum, this`lastParts, this`mtddevnum
      ensures (St(), ok) == SyncParts(old(St()), parts, request, changed)
      ensures ListOk()
    {
      if parts.Some? && (lastParts == [] || lastParts != parts.value || changed) {
        ok := Refresh(parts.value);
        if !ok { return false; }
      }
      if parts.None? && lastParts != [] {
        DevicesInit();
        return true;
      }
      if parts.None? { return true; }
      if request.Some? { Choose(request.value.0, request.value.1); }
      return true;
    }

    /** mtdparts_init. `envIds` and `envParts` are the variables of those names; `request` is the partition that
        the `partition` variable asks for when it differs from the one last saved. When it reports success with
        mtdparts set, the device list is a fresh parse of the variables, also when parsing was skipped, unless the
        text it was skipped for misleads. */
    method MtdpartsInit(envIds: Option<string>, envParts: Option<string>, request: Option<(Key, nat)>)
        returns (ok: bool)
      requires Valid()
      modifies this
      ensures Valid()
      ensures (St(), ok) == Init(board, old(St()), envIds, envParts, request)
      ensures ok && envParts.Some? ==>
                && (envIds.Some? || board.idsDefault.Some?)
                && (Agrees(board, St(), envIds, envParts.value) <==>
                    Parses(board, old(St()), envIds, envParts.value) || !Misleads(envParts.value, devices, ids))
                && RightCurrent(board, old(St()), CoreNow(), envIds, envParts.value, request)
    {
      InitAgrees(board, St(), envIds, envParts, request);
      ghost var st := St();
      ok := InitSteps(envIds, envParts, request);
      if ok && envParts.Some? { InitCurrent(board, st, envIds, envParts.value, request); }
    }

    method InitSteps(envIds: Option<string>, envParts: Option<string>, request: Option<(Key, nat)>)
        returns (ok: bool)
      requires Valid()
      modifies this
      ensures (St(), ok) == Init(board, old(St()), envIds, envParts, request) && mtddevnum == NumberOf(CoreNow())
    {
      if envIds.None? && board.idsDefault.None? { return false; }
      var text := if envIds.Some? then envIds.value else board.idsDefault.value;
      if |text| > MTDIDS_MAXLEN - 1 { return false; }
      if envParts.Some? && |envParts.value| > MTDPARTS_MAXLEN - 1 { return false; }
      var changed := lastIds == [] || lastIds != text;
      if changed {
        var parsed := board.idsOf(text);
        lastIds := [];
        if parsed.None? {
          ids := [];
          DevicesInit();
          return false;
        }
        ids := parsed.value;
        lastIds := text;
      }
      ok := SyncTable(envParts, request, changed);
    }
  }
}
