/** generate_mtdparts with its shrinking length budget. */
module MtdPrinter {
  import opened Bytes
  import opened Options
  import opened MtdNumbers
  import opened MtdGrammar

  /** The text written so far and what is left of the budget. */
  datatype Writer = Writer(text: string, left: nat)

  /** `w` is `w0` after `done` was written. */
  ghost predicate After(w0: Writer, done: string, w: Writer) {
    |done| <= w0.left && w == Writer(w0.text + done, w0.left - |done|)
  }

  /** Appends a piece, or reports that all of it together no longer fits. */
  method Emit(w: Writer, piece: string, ghost w0: Writer, ghost done: string) returns (ok: bool, w': Writer)
    requires After(w0, done, w)
    ensures ok ==> After(w0, done + piece, w')
    ensures !ok ==> |done| + |piece| > w0.left
  {
    if |piece| > w.left { return false, w; }
    assert w0.text + done + piece == w0.text + (done + piece);
    return true, Writer(w.text + piece, w.left - |piece|);
  }

  ghost function Due(prev: Option<Part>): u32 { if prev.None? then 0 else End(prev.value) }

  /** Size and offset; the offset is written only when there is a gap before the partition. */
  method EmitPlace(w: Writer, part: Part, prev: Option<Part>, ghost w0: Writer) returns (ok: bool, w': Writer)
    requires After(w0, "", w)
    ensures ok ==> After(w0, SizeText(part) + OffsetText(part, Due(prev)), w')
    ensures !ok ==> |SizeText(part)| + |OffsetText(part, Due(prev))| > w0.left
  {
    ok, w' := Emit(w, MemsizeFormat(part.size), w0, "");
    if !ok { return; }
    assert "" + MemsizeFormat(part.size) == SizeText(part);
    if (prev.None? && part.offset != 0) || (prev.Some? && (prev.value.offset + prev.value.size) % WORD != part.offset) {
      ok, w' := Emit(w', "@" + MemsizeFormat(part.offset), w0, SizeText(part));
    } else {
      assert SizeText(part) + OffsetText(part, Due(prev)) == SizeText(part);
    }
  }

  /** One partition definition, with a comma when more follow. */
  method EmitPart(w: Writer, part: Part, prev: Option<Part>, more: bool, ghost w0: Writer)
    returns (ok: bool, w': Writer)
    requires After(w0, "", w)
    ensures ok ==> After(w0, PartText(part, Due(prev)) + Comma(more), w')
    ensures !ok ==> |PartText(part, Due(prev)) + Comma(more)| > w0.left
  {
    ghost var place := SizeText(part) + OffsetText(part, Due(prev));
    ok, w' := EmitPlace(w, part, prev, w0);
    if !ok { return; }
    if part.name.Some? {
      ok, w' := Emit(w', "(" + part.name.value + ")", w0, place);
      if !ok { return; }
    } else {
      assert place + NameText(part) == place;
    }
    ghost var named := place + NameText(part);
    if part.ro {
      ok, w' := Emit(w', "ro", w0, named);
      if !ok { return; }
    } else {
      assert named + RoText(part) == named;
    }
    if more {
      ok, w' := Emit(w', ",", w0, named + RoText(part));
    } else {
      assert named + RoText(part) + "" == named + RoText(part);
    }
  }

  ghost function Comma(more: bool): string { if more then "," else "" }

  ghost function Semicolon(more: bool): string { if more then ";" else "" }

  lemma PartsTextStep(parts: seq<Part>, i: nat, due: u32, done: string)
    requires i < |parts|
    ensures done + PartsText(parts[i..], due) ==
            done + (PartText(parts[i], due) + Comma(i + 1 < |parts|)) + PartsText(parts[i + 1..], End(parts[i]))
  {
    assert parts[i..][0] == parts[i] && parts[i..][1..] == parts[i + 1..];
    var piece := PartText(parts[i], due) + Comma(i + 1 < |parts|);
    assert PartsText(parts[i..], due) == piece + PartsText(parts[i + 1..], End(parts[i]));
    Associate(done, piece, PartsText(parts[i + 1..], End(parts[i])));
  }

  lemma Compose(w0: Writer, a: string, w1: Writer, b: string, w2: Writer)
    requires After(w0, a, w1) && After(w1, b, w2)
    ensures After(w0, a + b, w2)
  {
    Associate(w0.text, a, b);
  }

  lemma Start(w: Writer)
    ensures After(w, "", w)
  {
    assert w.text + "" == w.text;
  }

  method EmitParts(w: Writer, parts: seq<Part>) returns (ok: bool, w': Writer)
    ensures ok ==> After(w, PartsText(parts, 0), w')
    ensures !ok ==> |PartsText(parts, 0)| > w.left
  {
    ok, w' := true, w;
    var prev: Option<Part> := None;
    var i := 0;
    ghost var done := "";
    Start(w);
    assert parts[0..] == parts && "" + PartsText(parts, 0) == PartsText(parts, 0);
    while i < |parts|
      invariant i <= |parts| && ok && After(w, done, w')
      invariant PartsText(parts, 0) == done + PartsText(parts[i..], Due(prev))
    {
      ghost var piece := PartText(parts[i], Due(prev)) + Comma(i + 1 < |parts|);
      PartsTextStep(parts, i, Due(prev), done);
      Start(w');
      ghost var w1 := w';
      ok, w' := EmitPart(w', parts[i], prev, i + 1 < |parts|, w');
      if !ok { return; }
      Compose(w, done, w1, piece, w');
      done := done + piece;
      prev := Some(parts[i]);
      i := i + 1;
    }
    assert done + "" == done;
  }

  method EmitDevice(w: Writer, d: Device, more: bool) returns (ok: bool, w': Writer)
    ensures ok ==> After(w, DeviceText(d) + Semicolon(more), w')
    ensures !ok ==> |DeviceText(d) + Semicolon(more)| > w.left
  {
    Start(w);
    ghost var head := d.id.name + ":";
    ok, w' := Emit(w, d.id.name + ":", w, "");
    if !ok { return; }
    assert "" + head == head;
    ghost var w1 := w';
    ok, w' := EmitParts(w', d.parts);
    if !ok { return; }
    Compose(w, head, w1, PartsText(d.parts, 0), w');
    if more {
      ok, w' := Emit(w', ";", w, DeviceText(d));
    } else {
      assert DeviceText(d) + "" == DeviceText(d);
    }
  }

  lemma DevicesTextStep(devices: seq<Device>, i: nat, done: string)
    requires i < |devices|
    ensures done + DevicesText(devices[i..]) ==
            done + (DeviceText(devices[i]) + Semicolon(i + 1 < |devices|)) + DevicesText(devices[i + 1..])
  {
    assert devices[i..][0] == devices[i] && devices[i..][1..] == devices[i + 1..];
    var piece := DeviceText(devices[i]) + Semicolon(i + 1 < |devices|);
    assert DevicesText(devices[i..]) == piece + DevicesText(devices[i + 1..]);
    Associate(done, piece, DevicesText(devices[i + 1..]));
  }

  /** generate_mtdparts: the text of the table if and only if what follows its prefix fits the budget. */
  method GenerateMtdparts(devices: seq<Device>, buflen: nat) returns (ok: bool, text: string)
    requires buflen >= 1
    ensures ok <==> |DevicesText(devices)| <= buflen - 1
    ensures text == if ok then Generate(devices) else ""
  {
    if devices == [] { return true, ""; }
    var w := Writer(PREFIX, buflen - 1);
    ghost var w0 := w;
    var i := 0;
    ghost var done := "";
    Start(w);
    assert devices[0..] == devices && "" + DevicesText(devices) == DevicesText(devices);
    while i < |devices|
      invariant i <= |devices| && After(w0, done, w)
      invariant DevicesText(devices) == done + DevicesText(devices[i..])
    {
      ghost var piece := DeviceText(devices[i]) + Semicolon(i + 1 < |devices|);
      DevicesTextStep(devices, i, done);
      ghost var w1 := w;
      ok, w := EmitDevice(w, devices[i], i + 1 < |devices|);
      if !ok { return false, ""; }
      Compose(w0, done, w1, piece, w);
      done := done + piece;
      i := i + 1;
    }
    assert done + "" == done;
    return true, w.text;
  }
}
