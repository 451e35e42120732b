/** What a valid partition is, in unbounded integers, and that every partition of every reachable table is one. */
module MtdValid {
  import opened Options
  import opened Bytes
  import opened MtdNumbers
  import opened MtdGrammar
  import opened MtdRoundTrip
  import opened MtdCurrent
  import opened MtdCommands
  import opened PageArithmetic

  /** Both ends fall on erase boundaries: multiples of the NAND erase size; or a NOR sector start, and for the end
      also the end of the bank. */
  predicate OnBoundaries(geo: Geometry, start: nat, end: nat) {
    match geo
    case NandGeometry(e) => e > 0 && start % e == 0 && end % e == 0
    case NorGeometry(starts, total) => start in starts && (end in starts || end == total)
  }

  /** A partition that is not empty, ends inside its device and on whose ends erasing can stop. */
  predicate Inside(id: MtdId, p: Part) {
    0 < p.size && p.offset + p.size <= id.size && OnBoundaries(id.geo, p.offset, p.offset + p.size)
  }

  /** The size asked for: what is left of the device for a fill-up partition. */
  function Asked(id: MtdId, raw: Part): int { if raw.size == 0xFFFF_FFFF then id.size - raw.offset else raw.size }

  /** Validation takes exactly the partitions that are inside their device with the size asked for, and changes
      nothing else; a fill-up partition then ends where the device does. */
  lemma ValidIff(id: MtdId, raw: Part, p: Part)
    ensures Validate(id, raw) == Some(p) <==>
            p.size == Asked(id, raw) && p == raw.(size := p.size) && Inside(id, p)
    ensures Validate(id, raw) == Some(p) && raw.size == 0xFFFF_FFFF ==> p.offset + p.size == id.size
  {
    var q := Resolved(id, raw);
    InsideIff(id, q);
    if raw.offset <= id.size { LeftOver(id.size, raw.offset); }
  }

  lemma LeftOver(total: u32, offset: u32)
    requires offset <= total
    ensures (total - offset) % WORD == total - offset
  {
  }

  lemma InsideIff(id: MtdId, p: Part)
    ensures !(p.offset > id.size || End(p) <= p.offset || End(p) > id.size || !Aligned(id.geo, p.offset, p.size))
            <==> Inside(id, p)
  {
    RangeIff(p.offset, p.size, id.size);
    if 0 < p.size && p.offset + p.size <= id.size { AlignedIff(id.geo, p.offset, p.size); }
  }

  /** The wrapping range tests of the source are the plain ones. */
  lemma RangeIff(offset: u32, size: u32, total: u32)
    ensures var end := (offset + size) % WORD;
            !(offset > total || end <= offset || end > total) <==> 0 < size && offset + size <= total
  {
  }

  lemma AlignedIff(geo: Geometry, offset: u32, size: u32)
    requires offset + size < WORD
    ensures Aligned(geo, offset, size) <==> OnBoundaries(geo, offset, offset + size)
  {
    match geo
    case NandGeometry(e) => if e > 0 && offset % e == 0 { WholeUnits(offset, size, e); }
    case NorGeometry(_, _) =>
  }

  lemma WholeUnits(a: nat, b: nat, e: nat)
    requires e > 0 && a % e == 0
    ensures b % e == 0 <==> (a + b) % e == 0
  {
    var m, n, r := a / e, b / e, b % e;
    assert a == m * e && b == n * e + r;
    assert m * e + n * e == (m + n) * e;
    ModUnique(m + n, r, e);
  }

  predicate AllInside(devices: seq<Device>) {
    forall i, j | 0 <= i < |devices| && 0 <= j < |devices[i].parts| :: Inside(devices[i].id, devices[i].parts[j])
  }

  lemma TableInside(devices: seq<Device>)
    requires TableOk(devices)
    ensures AllInside(devices)
  {
    forall i, j | 0 <= i < |devices| && 0 <= j < |devices[i].parts| ensures Inside(devices[i].id, devices[i].parts[j]) {
      assert DeviceOk(devices[i]) && PartOk(devices[i].id, devices[i].parts[j]);
      ValidIff(devices[i].id, devices[i].parts[j], devices[i].parts[j]);
    }
  }

  /** No text makes the parser list a partition that is not inside its device. */
  lemma ParsedInside(text: string, ids: seq<MtdId>)
    ensures var r := ParseMtdparts(text, ids); r.Some? ==> AllInside(r.value)
  {
    var r := ParseMtdparts(text, ids);
    if r.Some? {
      ParsedTableOk(text[9..], ids, []);
      TableInside(r.value);
    }
  }

  /** Nor does any run of commands. */
  lemma EveryRunInside(b: Board, ops: seq<Op>)
    ensures var r := RunOps(b, ops); r.Some? ==> AllInside(r.value.core.devices)
  {
    EveryRunOk(b, ops);
    var r := RunOps(b, ops);
    if r.Some? { TableInside(r.value.core.devices); }
  }
}
