/** The commands on the partition table as functions, and what holds over every run of them. */
module MtdCommands {
  import opened Options
  import opened MtdGrammar
  import opened MtdRoundTrip
  import opened MtdCurrent

  const MTDIDS_MAXLEN := 128
  const MTDPARTS_MAXLEN := 512

  /** What parse_mtdids makes of an mtdids text on this board, and the board's default text. */
  datatype Board = Board(idsOf: string -> Option<seq<MtdId>>, idsDefault: Option<string>)

  datatype State = State(core: Core, ids: seq<MtdId>, lastIds: string, lastParts: string)

  // ----- the commands -----

  /** generate_mtdparts_save: the printed table is cached, or nothing when it is too long. */
  function Saved(st: State): State {
    st.(lastParts := if |DevicesText(st.core.devices)| <= MTDPARTS_MAXLEN - 1 then Generate(st.core.devices) else [])
  }

  /** `mtdparts add` of an assembled device text: a new device, or one more partition on a listed one. */
  function Added(st: State, text: string): Option<State> {
    match ParseDevice(text, st.ids, st.core.devices)
    case Bad => None
    case Good(d, _) =>
      var i := PosOf(st.core.devices, d.id.key);
      if i >= |st.core.devices| then Some(Saved(st.(core := AddDevice(st.core, d))))
      else if d.parts == [] then None
      else
        match Validate(st.core.devices[i].id, d.parts[0])
        case None => None
        case Some(p) =>
          match AddAt(st.core, i, p)
          case None => None
          case Some(core) => Some(Saved(st.(core := core)))
  }

  /** Partition pnum of the device with this key exists. */
  predicate Exists(core: Core, key: Key, pnum: nat) {
    var i := PosOf(core.devices, key);
    i < |core.devices| && pnum < |core.devices[i].parts| == core.devices[i].numParts
  }

  /** `mtdparts del` of a partition that exists. */
  function Deleted(st: State, key: Key, pnum: nat): State
    requires Exists(st.core, key, pnum)
  {
    Saved(st.(core := DeleteAt(st.core, PosOf(st.core.devices, key), pnum)))
  }

  /** That deletion does not come back from index_partitions. */
  predicate DeleteFaults(core: Core, key: Key, pnum: nat)
    requires Exists(core, key, pnum)
  {
    var c := DeleteAt(core, PosOf(core.devices, key), pnum);
    CurrentListed(c) && !InRange(c)
  }

  /** devices_init */
  function Cleared(st: State): State { st.(core := Core([], None, st.core.partnum), lastParts := []) }

  /** `chpart`: another current partition, if it exists. */
  function Chosen(core: Core, key: Key, pnum: nat): Core {
    var i := PosOf(core.devices, key);
    if i < |core.devices| && pnum < core.devices[i].numParts && pnum < 256
    then core.(current := Some(key), partnum := pnum)
    else core
  }

  function Requested(st: State, request: Option<(Key, nat)>): State {
    if request.Some? then st.(core := Chosen(st.core, request.value.0, request.value.1)) else st
  }

  /** Parses a text into an emptied table; the first partition becomes current. */
  function Refreshed(st: State, text: string): Option<State> {
    match ParseMtdparts(text, st.ids)
    case None => None
    case Some(devices) =>
      if devices == [] then None
      else Some(st.(core := Core(devices, Some(devices[0].id.key), 0), lastParts := text))
  }

  /** The text is not the one last parsed or saved, or the ids are new. */
  predicate NeedsParse(st: State, text: string, changed: bool) {
    st.lastParts == [] || st.lastParts != text || changed
  }

  /** The part of mtdparts_init behind the synchronisation of mtdids. */
  function SyncParts(st: State, parts: Option<string>, request: Option<(Key, nat)>, changed: bool): (State, bool) {
    match parts
    case None => (if st.lastParts != [] then Cleared(st) else st, true)
    case Some(text) =>
      if NeedsParse(st, text, changed) then
        match Refreshed(st, text)
        case None => (Cleared(st), false)
        case Some(now) => (Requested(now, request), true)
      else (Requested(st, request), true)
  }

  predicate IdsChanged(st: State, text: string) { st.lastIds == [] || st.lastIds != text }

  /** The text that mtdparts_init takes for mtdids. */
  function IdsText(b: Board, ids: Option<string>): string
    requires ids.Some? || b.idsDefault.Some?
  {
    if ids.Some? then ids.value else b.idsDefault.value
  }

  /** mtdparts_init on the variables mtdids and mtdparts; `request` is the partition that the `partition`
      variable asks for when it differs from the one last saved. The flag is success. */
  function Init(b: Board, st: State, ids: Option<string>, parts: Option<string>, request: Option<(Key, nat)>)
    : (State, bool)
  {
    if ids.None? && b.idsDefault.None? then (st, false)
    else
      var text := IdsText(b, ids);
      if |text| > MTDIDS_MAXLEN - 1 || (parts.Some? && |parts.value| > MTDPARTS_MAXLEN - 1) then (st, false)
      else if !IdsChanged(st, text) then SyncParts(st, parts, request, false)
      else
        match b.idsOf(text)
        case None => (Cleared(st.(ids := [], lastIds := [])), false)
        case Some(list) => SyncParts(st.(ids := list, lastIds := text), parts, request, true)
  }

  // ----- the invariant -----

  /** A nonempty cached text parses to the table, or is what the table prints as. */
  predicate CacheOk(text: string, devices: seq<Device>, ids: seq<MtdId>) {
    text != [] ==> ParseMtdparts(text, ids) == Some(devices) || text == Generate(devices)
  }

  /** The printed text is cached and will be taken for a table it does not stand for. */
  predicate Misleads(text: string, devices: seq<Device>, ids: seq<MtdId>) {
    text == Generate(devices) && !RoundTrips(devices, ids)
  }

  predicate StateOk(b: Board, st: State) {
    && CoreOk(st.core)
    && CacheOk(st.lastParts, st.core.devices, st.ids)
    && (st.lastIds != [] ==> b.idsOf(st.lastIds) == Some(st.ids))
  }

  const EMPTY := State(Core([], None, 0), [], [], [])

  /** A table that is saved is cached as the text it prints, which parses to it exactly if the table survives a
      round trip. */
  lemma SavedOk(b: Board, st: State)
    requires CoreOk(st.core) && (st.lastIds != [] ==> b.idsOf(st.lastIds) == Some(st.ids))
    ensures StateOk(b, Saved(st))
    ensures var text := Saved(st).lastParts;
            text != [] ==>
              (ParseMtdparts(text, st.ids) == Some(st.core.devices) <==> RoundTrips(st.core.devices, st.ids))
  {
    if st.core.devices != [] { RoundTripIff(st.core.devices, st.ids); }
  }

  /** A sound cached text parses to the table unless it misleads. */
  lemma CachedAgrees(text: string, devices: seq<Device>, ids: seq<MtdId>)
    requires TableOk(devices) && text != [] && CacheOk(text, devices, ids)
    ensures ParseMtdparts(text, ids) == Some(devices) <==> !Misleads(text, devices, ids)
  {
    if devices != [] { RoundTripIff(devices, ids); }
  }

  /** Every list is short enough for the 8-bit index to count it. */
  predicate Short(devices: seq<Device>) { forall i | 0 <= i < |devices| :: |devices[i].parts| <= 255 }

  /** `mtdparts add` keeps the invariant, and current on the same partition. */
  lemma AddedOk(b: Board, st: State, text: string)
    requires StateOk(b, st) && Added(st, text).Some?
    ensures var st' := Added(st, text).value;
            && StateOk(b, st')
            && (st.core.devices != [] && Short(st.core.devices) ==> CurrentOf(st'.core) == CurrentOf(st.core))
  {
    ParsedDeviceOk(text, st.ids, st.core.devices);
    var d := ParseDevice(text, st.ids, st.core.devices).value;
    PosOfFinds(st.core.devices, d.id.key);
    var i := PosOf(st.core.devices, d.id.key);
    if i < |st.core.devices| {
      assert PartOk(d.id, d.parts[0]);
      MergedOk(b, st, i, d.parts[0]);
    } else {
      AddDeviceKeeps(st.core, d);
      SavedOk(b, st.(core := AddDevice(st.core, d)));
    }
  }

  lemma MergedOk(b: Board, st: State, i: nat, raw: Part)
    requires StateOk(b, st) && i < |st.core.devices| && NameOk(raw)
    requires var v := Validate(st.core.devices[i].id, raw); v.Some? && AddAt(st.core, i, v.value).Some?
    ensures var core := AddAt(st.core, i, Validate(st.core.devices[i].id, raw).value).value;
            && StateOk(b, Saved(st.(core := core)))
            && (|st.core.devices[i].parts| <= 255 ==> CurrentOf(core) == CurrentOf(st.core))
  {
    var p := Validate(st.core.devices[i].id, raw).value;
    ValidateIdempotent(st.core.devices[i].id, raw);
    AddAtKeeps(st.core, i, p);
    SavedOk(b, st.(core := AddAt(st.core, i, p).value));
  }

  /** `mtdparts del` that comes back keeps the invariant. It comes back, and leaves current on the same partition
      unless that is the one deleted, when offsets are distinct. */
  lemma DeletedOk(b: Board, st: State, key: Key, pnum: nat)
    requires StateOk(b, st) && Exists(st.core, key, pnum)
    ensures !DeleteFaults(st.core, key, pnum) ==> StateOk(b, Deleted(st, key, pnum))
    ensures DeleteFaults(st.core, key, pnum) <==> Faults(st.core, PosOf(st.core.devices, key), pnum)
    ensures AllAscending(st.core.devices) ==>
              && !DeleteFaults(st.core, key, pnum)
              && (!IsCurrent(st.core, PosOf(st.core.devices, key), pnum) ==>
                    CurrentOf(Deleted(st, key, pnum).core) == CurrentOf(st.core))
  {
    var i := PosOf(st.core.devices, key);
    DeleteAtKeeps(st.core, i, pnum);
    if !DeleteFaults(st.core, key, pnum) { SavedOk(b, st.(core := DeleteAt(st.core, i, pnum))); }
  }

  lemma FirstIsCurrent(devices: seq<Device>)
    requires TableOk(devices) && devices != []
    ensures CoreOk(Core(devices, Some(devices[0].id.key), 0))
  {
    assert DeviceOk(devices[0]);
  }

  lemma RefreshedOk(b: Board, st: State, text: string)
    requires StateOk(b, st.(lastParts := [])) && Refreshed(st, text).Some?
    ensures StateOk(b, Refreshed(st, text).value)
  {
    ParsedTableOk(text[9..], st.ids, []);
    FirstIsCurrent(Refreshed(st, text).value.core.devices);
  }

  lemma ChosenOk(core: Core, key: Key, pnum: nat)
    requires CoreOk(core)
    ensures CoreOk(Chosen(core, key, pnum)) && Chosen(core, key, pnum).devices == core.devices
  {
    PosOfFinds(core.devices, key);
  }

  lemma SyncPartsOk(b: Board, st: State, parts: Option<string>, request: Option<(Key, nat)>, changed: bool)
    requires StateOk(b, st.(lastParts := [])) && (!changed ==> StateOk(b, st))
    ensures var (st', ok) := SyncParts(st, parts, request, changed);
            && StateOk(b, st') && st'.ids == st.ids
            && (ok && parts.Some? ==>
                  (ParseMtdparts(parts.value, st'.ids) == Some(st'.core.devices) <==>
                   NeedsParse(st, parts.value, changed) || !Misleads(parts.value, st'.core.devices, st'.ids)))
  {
    if parts.Some? {
      if NeedsParse(st, parts.value, changed) {
        if Refreshed(st, parts.value).Some? {
          RefreshedOk(b, st, parts.value);
          if request.Some? { ChosenOk(Refreshed(st, parts.value).value.core, request.value.0, request.value.1); }
        }
      } else {
        CachedAgrees(parts.value, st.core.devices, st.ids);
        if request.Some? { ChosenOk(st.core, request.value.0, request.value.1); }
      }
    }
  }

  /** The table after a successful mtdparts_init is a fresh parse of the two variables. */
  predicate Agrees(b: Board, st: State, ids: Option<string>, parts: string) {
    && (ids.Some? || b.idsDefault.Some?)
    && b.idsOf(IdsText(b, ids)) == Some(st.ids)
    && ParseMtdparts(parts, st.ids) == Some(st.core.devices)
  }

  /** mtdparts_init will parse mtdparts, rather than take the list it has. */
  predicate Parses(b: Board, st: State, ids: Option<string>, parts: string)
    requires ids.Some? || b.idsDefault.Some?
  {
    NeedsParse(st, parts, IdsChanged(st, IdsText(b, ids)))
  }

  /** mtdparts_init keeps the invariant. When it succeeds with mtdparts set, the device list is what a fresh
      parse of the two variables gives, exactly if it parsed or the cached text does not mislead. */
  lemma InitAgrees(b: Board, st: State, ids: Option<string>, parts: Option<string>, request: Option<(Key, nat)>)
    requires StateOk(b, st)
    ensures var (st', ok) := Init(b, st, ids, parts, request);
            && StateOk(b, st')
            && (ok ==> ids.Some? || b.idsDefault.Some?)
            && (ok ==> b.idsOf(IdsText(b, ids)) == Some(st'.ids))
            && (ok && parts.Some? ==>
                  (Agrees(b, st', ids, parts.value) <==>
                   Parses(b, st, ids, parts.value) || !Misleads(parts.value, st'.core.devices, st'.ids)))
  {
    if ids.Some? || b.idsDefault.Some? {
      var text := IdsText(b, ids);
      if !IdsChanged(st, text) {
        SyncPartsOk(b, st, parts, request, false);
      } else if b.idsOf(text).Some? {
        SyncPartsOk(b, st.(ids := b.idsOf(text).value, lastIds := text), parts, request, true);
      }
    }
  }

  // ----- runs -----

  /** One step of a session; the environment variables may be anything at each. */
  datatype Op =
    | DoInit(ids: Option<string>, parts: Option<string>, request: Option<(Key, nat)>)
    | DoAdd(text: string)
    | DoDelete(key: Key, pnum: nat)
    | DoChoose(key: Key, pnum: nat)
    | DoClear

  /** The state after a step, or none if the step does not come back. */
  function Apply(b: Board, st: State, op: Op): Option<State> {
    match op
    case DoInit(ids, parts, request) => Some(Init(b, st, ids, parts, request).0)
    case DoAdd(text) => Some(match Added(st, text) case None => st case Some(s) => s)
    case DoDelete(key, pnum) =>
      if !Exists(st.core, key, pnum) then Some(st)
      else if DeleteFaults(st.core, key, pnum) then None
      else Some(Deleted(st, key, pnum))
    case DoChoose(key, pnum) => Some(st.(core := Chosen(st.core, key, pnum)))
    case DoClear => Some(Cleared(st))
  }

  function RunFrom(b: Board, st: State, ops: seq<Op>): Option<State>
    decreases |ops|
  {
    if ops == [] then Some(st)
    else
      match Apply(b, st, ops[0])
      case None => None
      case Some(s) => RunFrom(b, s, ops[1..])
  }

  function RunOps(b: Board, ops: seq<Op>): Option<State> { RunFrom(b, EMPTY, ops) }

  lemma ApplyOk(b: Board, st: State, op: Op)
    requires StateOk(b, st)
    ensures var r := Apply(b, st, op); r.Some? ==> StateOk(b, r.value)
  {
    match op
    case DoInit(ids, parts, request) => InitAgrees(b, st, ids, parts, request);
    case DoAdd(text) => if Added(st, text).Some? { AddedOk(b, st, text); }
    case DoDelete(key, pnum) => if Exists(st.core, key, pnum) { DeletedOk(b, st, key, pnum); }
    case DoChoose(key, pnum) => ChosenOk(st.core, key, pnum);
    case DoClear =>
  }

  lemma {:induction false} RunFromOk(b: Board, st: State, ops: seq<Op>)
    requires StateOk(b, st)
    ensures var r := RunFrom(b, st, ops); r.Some? ==> StateOk(b, r.value)
    decreases |ops|
  {
    if ops != [] {
      ApplyOk(b, st, ops[0]);
      var s := Apply(b, st, ops[0]);
      if s.Some? { RunFromOk(b, s.value, ops[1..]); }
    }
  }

  /** Every reachable table is sorted, counted and valid, its current partition is listed with an index in range,
      and its cache is sound. */
  lemma EveryRunOk(b: Board, ops: seq<Op>)
    ensures var r := RunOps(b, ops); r.Some? ==> StateOk(b, r.value)
  {
    RunFromOk(b, EMPTY, ops);
  }

  /** A run that does not come back: two partitions at one nonzero offset are parsed, which swaps them, and the
      second one of the list is deleted. */
  lemma FaultIsReached(b: Board, idsText: string, ids: seq<MtdId>, id: MtdId, x: Part, y: Part)
    requires b.idsOf(idsText) == Some(ids) && |idsText| < MTDIDS_MAXLEN
    requires ':' !in id.name && FindId(ids, id.name) == Some(id)
    requires PartOk(id, x) && PartOk(id, y) && x.offset == y.offset != 0 && Printable([x, y])
    requires |Generate([Device(id, [x, y], 2)])| < MTDPARTS_MAXLEN
    ensures var text := Generate([Device(id, [x, y], 2)]);
            RunOps(b, [DoInit(Some(idsText), Some(text), None), DoDelete(id.key, 1)]) == None
  {
    var text, d := Generate([Device(id, [x, y], 2)]), Device(id, [y, x], 2);
    EqualOffsetsSwap(id, x, y, ids);
    FirstInit(b, idsText, ids, text, [d]);
    var st := State(Core([d], Some(id.key), 0), ids, idsText, text);
    SecondFaults(b, st, d);
    RunTwo(b, EMPTY, st, DoInit(Some(idsText), Some(text), None), DoDelete(id.key, 1));
  }

  /** The first initialisation of a session parses both variables. */
  lemma FirstInit(b: Board, idsText: string, ids: seq<MtdId>, text: string, devices: seq<Device>)
    requires b.idsOf(idsText) == Some(ids) && |idsText| < MTDIDS_MAXLEN && |text| < MTDPARTS_MAXLEN
    requires devices != [] && ParseMtdparts(text, ids) == Some(devices)
    ensures Apply(b, EMPTY, DoInit(Some(idsText), Some(text), None))
         == Some(State(Core(devices, Some(devices[0].id.key), 0), ids, idsText, text))
  {
  }

  lemma SecondFaults(b: Board, st: State, d: Device)
    requires |d.parts| == 2 == d.numParts && d.parts[0].offset == d.parts[1].offset
    requires st.core == Core([d], Some(d.id.key), 0)
    ensures Apply(b, st, DoDelete(d.id.key, 1)) == None
  {
    assert PosOf(st.core.devices, d.id.key) == 0;
    var c := DeleteAt(st.core, 0, 1);
    assert c.partnum == 255 && c.devices == [Device(d.id, Without(d.parts, 1), 1)];
    assert PosOf(c.devices, d.id.key) == 0;
  }

  lemma RunTwo(b: Board, st: State, next: State, one: Op, two: Op)
    requires Apply(b, st, one) == Some(next)
    ensures RunFrom(b, st, [one, two]) == Apply(b, next, two)
  {
    assert [one, two][1..] == [two] && [two][1..] == [];
    assert RunFrom(b, next, [two]) == Apply(b, next, two);
  }

  // ----- runs on distinct offsets -----

  /** Along the run every list has distinct offsets. */
  ghost predicate Distinctly(b: Board, st: State, ops: seq<Op>)
    decreases |ops|
  {
    && AllAscending(st.core.devices)
    && (ops != [] && Apply(b, st, ops[0]).Some? ==> Distinctly(b, Apply(b, st, ops[0]).value, ops[1..]))
  }

  /** With distinct offsets every command comes back, so the run ends in a state with the index in range. */
  lemma {:induction false} RunComesBack(b: Board, st: State, ops: seq<Op>)
    requires StateOk(b, st) && Distinctly(b, st, ops)
    ensures RunFrom(b, st, ops).Some? && StateOk(b, RunFrom(b, st, ops).value)
    decreases |ops|
  {
    if ops != [] {
      ApplyOk(b, st, ops[0]);
      if ops[0].DoDelete? && Exists(st.core, ops[0].key, ops[0].pnum) { DeletedOk(b, st, ops[0].key, ops[0].pnum); }
      RunComesBack(b, Apply(b, st, ops[0]).value, ops[1..]);
    }
  }

  /** A command that adds, or deletes a partition other than the current one. */
  predicate LeavesCurrent(st: State, op: Op) {
    match op
    case DoAdd(_) => true
    case DoDelete(key, pnum) =>
      Exists(st.core, key, pnum) ==> !IsCurrent(st.core, PosOf(st.core.devices, key), pnum)
    case _ => false
  }

  /** A run of such commands on distinct offsets and countable lists. */
  ghost predicate Edits(b: Board, st: State, ops: seq<Op>)
    decreases |ops|
  {
    && AllAscending(st.core.devices) && Short(st.core.devices)
    && (ops != [] ==>
          && LeavesCurrent(st, ops[0])
          && (Apply(b, st, ops[0]).Some? ==> Edits(b, Apply(b, st, ops[0]).value, ops[1..])))
  }

  /** The current partition is stable: over every such run it stays the same one. */
  lemma {:induction false} CurrentStays(b: Board, st: State, ops: seq<Op>)
    requires StateOk(b, st) && st.core.devices != [] && Edits(b, st, ops)
    ensures var r := RunFrom(b, st, ops);
            r.Some? && r.value.core.devices != [] && CurrentOf(r.value.core) == CurrentOf(st.core)
    decreases |ops|
  {
    if ops != [] {
      EditKeepsCurrent(b, st, ops[0]);
      CurrentStays(b, Apply(b, st, ops[0]).value, ops[1..]);
    }
  }

  lemma EditKeepsCurrent(b: Board, st: State, op: Op)
    requires StateOk(b, st) && st.core.devices != [] && LeavesCurrent(st, op)
    requires AllAscending(st.core.devices) && Short(st.core.devices)
    ensures var r := Apply(b, st, op);
            && r.Some? && StateOk(b, r.value)
            && r.value.core.devices != [] && CurrentOf(r.value.core) == CurrentOf(st.core)
  {
    ApplyOk(b, st, op);
    CurrentExists(st.core);
    match op
    case DoAdd(text) => if Added(st, text).Some? { AddedOk(b, st, text); }
    case DoDelete(key, pnum) => if Exists(st.core, key, pnum) { DeletedOk(b, st, key, pnum); }
  }

  lemma CurrentExists(c: Core)
    requires CoreOk(c) && c.devices != []
    ensures CurrentOf(c).Some?
  {
  }

  /** Cache agrees with re-parse, over every run: at whatever point mtdparts_init succeeds with mtdparts set,
      the table it leaves is a fresh parse of the variables, exactly if it parsed them or mtdparts is not the text of
      a table that does not survive a round trip. */
  lemma CacheAgreesOnEveryRun(b: Board, ops: seq<Op>, ids: Option<string>, parts: string, request: Option<(Key, nat)>)
    requires RunOps(b, ops).Some?
    ensures var (st', ok) := Init(b, RunOps(b, ops).value, ids, Some(parts), request);
            ok ==>
              && (ids.Some? || b.idsDefault.Some?)
              && (Agrees(b, st', ids, parts) <==>
                  Parses(b, RunOps(b, ops).value, ids, parts) || !Misleads(parts, st'.core.devices, st'.ids))
  {
    EveryRunOk(b, ops);
    InitAgrees(b, RunOps(b, ops).value, ids, Some(parts), request);
  }

  /** A run after which the cache misleads: of three partitions, the first two at one offset, the third is deleted,
      which caches a text that reads back in the opposite order. The next initialisation takes the list it has. */
  lemma MisledIsReached(b: Board, idsText: string, ids: seq<MtdId>, id: MtdId, x: Part, y: Part, z: Part)
    requires b.idsOf(idsText) == Some(ids) && 0 < |idsText| < MTDIDS_MAXLEN
    requires FindId(ids, id.name) == Some(id) && DeviceOk(Device(id, [x, y, z], 3)) && Printable([x, y, z])
    requires x != y && x.offset == y.offset != 0 && y.offset < z.offset
    requires |Generate([Device(id, [x, y, z], 3)])| < MTDPARTS_MAXLEN
    requires |Generate([Device(id, [y, x], 2)])| < MTDPARTS_MAXLEN
    ensures var text := Generate([Device(id, [x, y, z], 3)]);
            var st := RunOps(b, [DoInit(Some(idsText), Some(text), None), DoDelete(id.key, 2)]);
            && st.Some?
            && var (st', ok) := Init(b, st.value, Some(idsText), Some(st.value.lastParts), None);
               ok && !Agrees(b, st', Some(idsText), st.value.lastParts)
  {
    var d, e := Device(id, [x, y, z], 3), Device(id, [y, x], 2);
    ThirdDeleted(b, idsText, ids, d, e);
    forall i | 0 <= i < 2 ensures PartOk(id, e.parts[i]) { assert e.parts[i] == d.parts[1 - i]; }
    SwapMisleads(b, State(Core([e], Some(id.key), 0), ids, idsText, Generate([e])), e);
  }

  lemma ThirdDeleted(b: Board, idsText: string, ids: seq<MtdId>, d: Device, e: Device)
    requires b.idsOf(idsText) == Some(ids) && 0 < |idsText| < MTDIDS_MAXLEN
    requires FindId(ids, d.id.name) == Some(d.id) && DeviceOk(d) && |d.parts| == 3 && Printable(d.parts)
    requires d.parts[0].offset == d.parts[1].offset != 0 && d.parts[1].offset < d.parts[2].offset
    requires e == Device(d.id, [d.parts[1], d.parts[0]], 2)
    requires |Generate([d])| < MTDPARTS_MAXLEN && |Generate([e])| < MTDPARTS_MAXLEN
    ensures RunOps(b, [DoInit(Some(idsText), Some(Generate([d])), None), DoDelete(d.id.key, 2)])
         == Some(State(Core([e], Some(d.id.key), 0), ids, idsText, Generate([e])))
  {
    var x, y, z := d.parts[0], d.parts[1], d.parts[2];
    var s := Device(d.id, [y, x, z], 3);
    assert d.parts == [x, y, z];
    SortThree(x, y, z);
    ReadOneDevice(d, ids, s.parts);
    FirstInit(b, idsText, ids, Generate([d]), [s]);
    var st := State(Core([s], Some(d.id.key), 0), ids, idsText, Generate([d]));
    assert s.parts[..2] == e.parts;
    ThirdGoes(b, st, s, e);
    RunTwo(b, EMPTY, st, DoInit(Some(idsText), Some(Generate([d])), None), DoDelete(d.id.key, 2));
  }

  lemma ThirdGoes(b: Board, st: State, d: Device, e: Device)
    requires |d.parts| == 3 == d.numParts && d.parts[0].offset < d.parts[2].offset
    requires e == Device(d.id, d.parts[..2], 2) && |Generate([e])| < MTDPARTS_MAXLEN
    requires st.core == Core([d], Some(d.id.key), 0)
    ensures Apply(b, st, DoDelete(d.id.key, 2))
         == Some(st.(core := Core([e], Some(d.id.key), 0), lastParts := Generate([e])))
  {
    assert PosOf(st.core.devices, d.id.key) == 0 && PosOf([e], d.id.key) == 0;
    assert Without(d.parts, 2) == d.parts[..2] && [d][0 := e] == [e];
    assert DeleteAt(st.core, 0, 2) == Core([e], Some(d.id.key), 0);
  }

  lemma SwapMisleads(b: Board, st: State, e: Device)
    requires |e.parts| == 2 && e.parts[0] != e.parts[1]
    requires e.parts[0].offset == e.parts[1].offset != 0 && DeviceOk(e)
    requires st.core.devices == [e] && st.lastParts == Generate([e]) && st.lastIds != []
    requires |st.lastIds| < MTDIDS_MAXLEN && |st.lastParts| < MTDPARTS_MAXLEN
    ensures var (st', ok) := Init(b, st, Some(st.lastIds), Some(st.lastParts), None);
            ok && !Agrees(b, st', Some(st.lastIds), st.lastParts)
  {
    SortTwo(e.parts[0], e.parts[1]);
    assert e.parts == [e.parts[0], e.parts[1]];
    assert [e][0] == e && !SortsBack(e.parts);
    RoundTripIff([e], st.ids);
    assert st.lastParts != [] && Init(b, st, Some(st.lastIds), Some(st.lastParts), None) == (st, true);
  }

  // ----- mtddevnum -----

  /** mtddevnum: the number of the current partition in the concatenated table, as a u16. */
  function NumberOf(c: Core): Option<nat> {
    if c.current.None? then None
    else
      var i := PosOf(c.devices, c.current.value);
      if i <= |c.devices| then Some((|Flat(c.devices[..i])| + c.partnum) % 0x1_0000) else None
  }

  /** The current partition has a place in the concatenation of all partition lists, and mtddevnum is that place
      exactly if the place fits 16 bits. */
  lemma NumberSelectsCurrent(c: Core) returns (n: nat)
    requires CurrentOk(c) && c.current.Some?
    ensures n < |Flat(c.devices)| && CurrentOf(c) == Some((c.current.value, Flat(c.devices)[n]))
    ensures NumberOf(c) == Some(n) <==> n < 0x1_0000
  {
    var i := PosOf(c.devices, c.current.value);
    FlatIndex(c.devices, i, c.partnum);
    n := |Flat(c.devices[..i])| + c.partnum;
    SixteenBits(n);
  }

  lemma SixteenBits(n: nat)
    ensures n % 0x1_0000 == n <==> n < 0x1_0000
  {
  }

  /** After every run with a current partition and at most 65536 partitions, mtddevnum selects it. */
  lemma NumberOnEveryRun(b: Board, ops: seq<Op>)
    requires RunOps(b, ops).Some?
    ensures var c := RunOps(b, ops).value.core;
            c.current.Some? && |Flat(c.devices)| <= 0x1_0000 ==>
              && NumberOf(c).Some? && NumberOf(c).value < |Flat(c.devices)|
              && CurrentOf(c) == Some((c.current.value, Flat(c.devices)[NumberOf(c).value]))
  {
    EveryRunOk(b, ops);
    var c := RunOps(b, ops).value.core;
    if c.current.Some? { var n := NumberSelectsCurrent(c); }
  }
}
