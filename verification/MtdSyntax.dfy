/** The `mtdparts` language as it is typed: every spelling of a number, every form of a definition, and what the
    printer writes, in characters. */
module MtdSyntax {
  import opened Bytes
  import opened Options
  import opened MtdNumbers
  import opened MtdGrammar
  import opened MtdRoundTrip

  // ----- numbers -----

  /** The characters that are digits, in both cases, and their values. */
  lemma DigitsAre(c: char, n: nat)
    requires n < 16
    ensures IsXDigit(c) <==> c in "0123456789abcdefABCDEF"
    ensures IsXDigit(c) && DigitValue(c) == n <==> c == "0123456789abcdef"[n] || c == "0123456789ABCDEF"[n]
  {
  }

  /** A number as typed: decimal digits, octal ones behind 0 or hexadecimal ones behind 0x, and perhaps a unit. */
  datatype Spelling = Spelling(base: nat, digits: string, suffix: string) {
    predicate Ok() {
      && suffix in {"", "k", "K", "m", "M", "g", "G"}
      && (forall i | 0 <= i < |digits| :: IsXDigit(digits[i]) && DigitValue(digits[i]) < base)
      && (base == 8 || (base == 10 && digits != "" && digits[0] != '0') || (base == 16 && digits != ""))
    }

    function Lead(): string { if base == 8 then "0" else if base == 16 then "0x" else "" }

    function Text(): string { Lead() + digits + suffix }

    /** The unit: 2^10, 2^20 or 2^30. */
    function Unit(): nat {
      if suffix in {"k", "K"} then 1024
      else if suffix in {"m", "M"} then 1048576
      else if suffix in {"g", "G"} then 1073741824
      else 1
    }

    /** What the spelling means, in 32 bits. */
    function Meaning(): u32
      requires Ok()
    {
      Horner(0, digits, base) % WORD * Unit() % WORD
    }
  }

  /** The digits shifted in one by one, in unbounded integers. */
  function Horner(acc: nat, digits: string, base: nat): nat
    requires forall i | 0 <= i < |digits| :: IsXDigit(digits[i])
    decreases |digits|
  {
    if digits == "" then acc else Horner(acc * base + DigitValue(digits[0]), digits[1..], base)
  }

  lemma ShiftIn(acc: nat, d: nat, base: nat)
    requires base in {8, 10, 16}
    ensures (acc % WORD * base + d) % WORD == (acc * base + d) % WORD
  {
    var q, r := acc / WORD, acc % WORD;
    if base == 8 {
      WholeWords(8 * q, 8 * r + d);
    } else if base == 10 {
      WholeWords(10 * q, 10 * r + d);
    } else {
      WholeWords(16 * q, 16 * r + d);
    }
  }

  lemma WholeWords(k: nat, x: nat)
    ensures (WORD * k + x) % WORD == x % WORD
  {
  }

  lemma {:induction false} DigitsRead(acc: nat, digits: string, base: nat, tail: string)
    requires base in {8, 10, 16} && forall i | 0 <= i < |digits| :: IsXDigit(digits[i]) && DigitValue(digits[i]) < base
    requires tail == "" || !IsXDigit(tail[0])
    ensures Digits(acc % WORD, digits + tail, base) == Num(Horner(acc, digits, base) % WORD, tail)
    decreases |digits|
  {
    var s := digits + tail;
    if digits == "" {
      assert s == tail;
    } else {
      assert s[0] == digits[0] && s[1..] == digits[1..] + tail;
      ShiftIn(acc, DigitValue(digits[0]), base);
      DigitsRead(acc * base + DigitValue(digits[0]), digits[1..], base, tail);
    }
  }

  predicate Ends(tail: string) { tail == "" || (!IsXDigit(tail[0]) && tail[0] != 'x') }

  lemma LeadRead(sp: Spelling, tail: string)
    requires sp.Ok() && Ends(tail)
    ensures Strtoul(sp.Lead() + sp.digits + tail) == Num(Horner(0, sp.digits, sp.base) % WORD, tail)
  {
    var s := sp.Lead() + sp.digits + tail;
    DigitsRead(0, sp.digits, sp.base, tail);
    if sp.base == 8 {
      assert s[0] == '0' && s[1..] == sp.digits + tail;
      assert sp.digits != "" ==> s[1] == sp.digits[0];
    } else if sp.base == 16 {
      assert s[0] == '0' && s[1] == 'x' && s[2] == sp.digits[0] && s[2..] == sp.digits + tail;
    } else {
      assert s == sp.digits + tail && s[0] == sp.digits[0];
    }
  }

  /** Every spelling is read as what it means, up to its last character. */
  lemma SpellingRead(sp: Spelling, tail: string)
    requires sp.Ok() && Stops(tail)
    ensures MemsizeParse(sp.Text() + tail) == Num(sp.Meaning(), tail)
  {
    var t := sp.suffix + tail;
    assert sp.Text() + tail == sp.Lead() + sp.digits + t;
    LeadRead(sp, t);
    UnitRead(sp.Lead() + sp.digits + t, Horner(0, sp.digits, sp.base) % WORD, sp, tail);
  }

  lemma UnitRead(s: string, v: u32, sp: Spelling, tail: string)
    requires sp.suffix in {"", "k", "K", "m", "M", "g", "G"} && Stops(tail) && Strtoul(s) == Num(v, sp.suffix + tail)
    ensures MemsizeParse(s) == Num(v * sp.Unit() % WORD, tail)
  {
    var t := sp.suffix + tail;
    if sp.suffix != "" { assert t[0] == sp.suffix[0] && t[1..] == tail; } else { assert t == tail; }
  }

  // ----- definitions -----

  /** A definition as typed; no size stands for the rest of the device. */
  datatype Definition = Definition(size: Option<Spelling>, at: Option<Spelling>, name: Option<string>, ro: bool) {
    predicate Ok() {
      && (size.Some? ==> size.value.Ok()) && (at.Some? ==> at.value.Ok())
      && (name.Some? ==> name.value != "" && ')' !in name.value)
    }

    function Text(): string {
      (if size.Some? then size.value.Text() else "-")
      + (if at.Some? then "@" + at.value.Text() else "")
      + (if name.Some? then "(" + name.value + ")" else "")
      + (if ro then "ro" else "")
    }

    function Size(): u32
      requires Ok()
    {
      if size.Some? then size.value.Meaning() else 0xFFFF_FFFF
    }

    /** The partition it asks for; all ones stand for an offset that is not given. */
    function Asks(): Part
      requires Ok()
    {
      Part(Size(), if at.Some? then at.value.Meaning() else 0xFFFF_FFFF, name, ro)
    }
  }

  lemma SizeRead(d: Definition, tail: string)
    requires d.Ok() && Stops(tail)
    ensures ParseSize((if d.size.Some? then d.size.value.Text() else "-") + tail)
         == if d.Size() < 4096 then Bad else Good(d.Size(), tail)
  {
    if d.size.Some? {
      SpellingRead(d.size.value, tail);
      NotADash(d.size.value, tail);
    } else {
      assert ("-" + tail)[1..] == tail;
    }
  }

  lemma NotADash(sp: Spelling, tail: string)
    requires sp.Ok()
    ensures !At(sp.Text() + tail, '-')
  {
    if sp.base == 10 { assert sp.Text()[0] == sp.digits[0]; }
  }

  lemma OffsetRead(at: Option<Spelling>, tail: string)
    requires (at.Some? ==> at.value.Ok()) && Stops(tail) && !At(tail, '@')
    ensures ParseOffset((if at.Some? then "@" + at.value.Text() else "") + tail)
         == Num(if at.Some? then at.value.Meaning() else 0xFFFF_FFFF, tail)
  {
    if at.Some? {
      assert ("@" + at.value.Text() + tail)[1..] == at.value.Text() + tail;
      SpellingRead(at.value, tail);
    } else {
      assert "" + tail == tail;
    }
  }

  /** Every definition that can be typed, with a comma behind it or none: it is read as what it asks for, unless the
      size is below 4096 or a fill-up partition is not the last. */
  lemma DefinitionRead(d: Definition, last: bool, tail: string)
    requires d.Ok() && (last ==> tail == "" || tail[0] == ';')
    ensures ParsePart(d.Text() + (if last then "" else ",") + tail)
         == if d.Size() < 4096 || (d.Size() == 0xFFFF_FFFF && !last) then Bad else Good(d.Asks(), tail)
  {
    var p := d.Asks();
    var sz := if d.size.Some? then d.size.value.Text() else "-";
    var off := if d.at.Some? then "@" + d.at.value.Text() else "";
    var t2 := NameText(p) + (RoText(p) + (Sep(last) + tail));
    Reassociate(sz, off, NameText(p), RoText(p), Sep(last), tail);
    NameStops(p, last, tail);
    OffsetRead(d.at, t2);
    OffStops(off, t2);
    SizeRead(d, off + t2);
    PiecesRead(sz, off, p, last, tail, t2);
  }

  lemma NameStops(p: Part, last: bool, tail: string)
    requires NameOk(p) && (last ==> tail == "" || tail[0] == ';')
    ensures var t2 := NameText(p) + (RoText(p) + (Sep(last) + tail)); Stops(t2) && !At(t2, '@')
    ensures Stops(RoText(p) + (Sep(last) + tail)) && !At(RoText(p) + (Sep(last) + tail), '(')
  {
    ReadEnd(p.size, last, tail);
  }

  lemma OffStops(off: string, t: string)
    requires Stops(t) && (off == "" || off[0] == '@')
    ensures Stops(off + t)
  {
    if off == "" { assert off + t == t; }
  }

  lemma PiecesRead(sz: string, off: string, p: Part, last: bool, tail: string, t2: string)
    requires NameOk(p) && (last ==> tail == "" || tail[0] == ';')
    requires t2 == NameText(p) + (RoText(p) + (Sep(last) + tail)) && ParseOffset(off + t2) == Num(p.offset, t2)
    requires ParseSize(sz + (off + t2)) == if p.size < 4096 then Bad else Good(p.size, off + t2)
    ensures ParsePart(sz + (off + t2))
         == if p.size < 4096 || (p.size == 0xFFFF_FFFF && !last) then Bad else Good(p, tail)
  {
    ReadEnd(p.size, last, tail);
    ReadRo(p, Sep(last) + tail);
    NameStops(p, last, tail);
    ReadName(p, RoText(p) + (Sep(last) + tail));
  }

  // ----- the printer -----

  /** A table of two devices and its text. Offsets are left out where the parser would infer them. */
  lemma PrintedExample(nand: MtdId, nor: MtdId)
    requires nand.name == "nand0" && nor.name == "nor0"
    ensures Generate([Device(nand, [Part(0x10_0000, 0, Some("a"), true), Part(0x800, 0x10_0000, None, false),
                                    Part(0x30_0000, 0x20_0000, Some("b"), false)], 3),
                      Device(nor, [Part(4097, 0, None, false)], 1)])
         == "mtdparts=nand0:1m(a)ro,2k,3m@2m(b);nor0:4097"
  {
    var a, b, c := Part(0x10_0000, 0, Some("a"), true), Part(0x800, 0x10_0000, None, false),
                   Part(0x30_0000, 0x20_0000, Some("b"), false);
    var e := Part(4097, 0, None, false);
    FourTexts(a, b, c, e);
    ThreeDefinitions(a, b, c, "1m(a)ro", "2k", "3m@2m(b)");
    OneDefinition(e, 0, "4097");
    TwoDevices(Device(nand, [a, b, c], 3), Device(nor, [e], 1), "1m(a)ro" + "," + ("2k" + "," + "3m@2m(b)"), "4097");
    InFull();
  }

  lemma InFull()
    ensures "mtdparts=" + (("nand0" + ":" + ("1m(a)ro" + "," + ("2k" + "," + "3m@2m(b)")))
                           + ";" + ("nor0" + ":" + "4097"))
         == "mtdparts=nand0:1m(a)ro,2k,3m@2m(b);nor0:4097"
  {
  }

  lemma TwoDevices(n: Device, m: Device, x: string, y: string)
    requires PartsText(n.parts, 0) == x && PartsText(m.parts, 0) == y
    ensures Generate([n, m]) == "mtdparts=" + ((n.id.name + ":" + x) + ";" + (m.id.name + ":" + y))
  {
    assert [n, m][1..] == [m] && [m][1..] == [];
    assert DevicesText([m]) == m.id.name + ":" + y + "" + "" == m.id.name + ":" + y;
  }

  lemma FourTexts(a: Part, b: Part, c: Part, e: Part)
    requires a == Part(0x10_0000, 0, Some("a"), true) && b == Part(0x800, 0x10_0000, None, false)
    requires c == Part(0x30_0000, 0x20_0000, Some("b"), false) && e == Part(4097, 0, None, false)
    ensures PartText(a, 0) == "1m(a)ro" && PartText(b, 0x10_0000) == "2k" && PartText(c, 0x10_0800) == "3m@2m(b)"
    ensures PartText(e, 0) == "4097" && End(a) == 0x10_0000 && End(b) == 0x10_0800
  {
    SmallNumbers();
  }

  lemma OneDefinition(p: Part, due: u32, text: string)
    requires PartText(p, due) == text
    ensures PartsText([p], due) == text
  {
    assert [p][1..] == [] && text + "" + "" == text;
  }

  lemma ThreeDefinitions(a: Part, b: Part, c: Part, x: string, y: string, z: string)
    requires PartText(a, 0) == x && PartText(b, End(a)) == y && PartText(c, End(b)) == z
    ensures PartsText([a, b, c], 0) == x + "," + (y + "," + z)
  {
    assert [a, b, c][1..] == [b, c] && [b, c][1..] == [c];
    OneDefinition(c, End(b), z);
    assert PartsText([b, c], End(a)) == y + "," + z;
  }

  lemma SmallNumbers()
    ensures MemsizeFormat(0x10_0000) == "1m" && MemsizeFormat(0x800) == "2k" && MemsizeFormat(0x30_0000) == "3m"
    ensures MemsizeFormat(0x20_0000) == "2m" && MemsizeFormat(4097) == "4097"
  {
    assert Decimal(4) == "4" && Decimal(40) == "40" && Decimal(409) == "409" && Decimal(4097) == "4097";
  }

  // ----- offsets that are not given -----

  lemma FirstCharacter(d: Definition)
    requires d.Ok()
    ensures d.Text() != "" && d.Text()[0] != ';'
  {
    if d.size.Some? && d.size.value.base == 10 { assert d.Text()[0] == d.size.value.digits[0]; }
  }

  /** For a device that is listed already, definitions go on behind its last partition. */
  lemma DueBehindLast(devices: seq<Device>, key: Key, d: Device)
    requires FindDevice(devices, key) == Some(d) && DeviceOk(d)
    ensures var p := d.parts[|d.parts| - 1];
            p.offset + p.size < WORD && StartOffset(devices, key) == p.offset + p.size
  {
    assert PartOk(d.id, d.parts[|d.parts| - 1]);
  }

  // ----- what is left behind a definition -----

  predicate Suffix(r: string, s: string) { |r| <= |s| && s[|s| - |r|..] == r }

  lemma SuffixOf(a: string, b: string, c: string)
    requires Suffix(a, b) && Suffix(b, c)
    ensures Suffix(a, c)
  {
    assert c[|c| - |b|..][|b| - |a|..] == c[|c| - |a|..];
  }

  lemma Dropped(s: string, k: nat)
    requires k <= |s|
    ensures Suffix(s[k..], s)
  {
  }

  lemma {:induction false} DigitsSuffix(acc: u32, s: string, base: nat)
    ensures Suffix(Digits(acc, s, base).rest, s)
    decreases |s|
  {
    if Accepts(s, base) {
      DigitsSuffix((acc * base + DigitValue(s[0])) % WORD, s[1..], base);
      SuffixOf(Digits(acc, s, base).rest, s[1..], s);
    }
  }

  lemma StrtoulSuffix(s: string)
    ensures Suffix(Strtoul(s).rest, s)
  {
    if s != "" && s[0] == '0' {
      if |s| >= 3 && s[1] == 'x' && IsXDigit(s[2]) {
        DigitsSuffix(0, s[2..], 16);
        SuffixOf(Strtoul(s).rest, s[2..], s);
      } else {
        DigitsSuffix(0, s[1..], 8);
        SuffixOf(Strtoul(s).rest, s[1..], s);
      }
    } else {
      DigitsSuffix(0, s, 10);
    }
  }

  lemma MemsizeSuffix(s: string)
    ensures Suffix(MemsizeParse(s).rest, s)
  {
    StrtoulSuffix(s);
    var rest := Strtoul(s).rest;
    if rest != "" { SuffixOf(rest[1..], rest, s); }
  }

  lemma NameSuffix(s: string)
    ensures var r := ParseName(s); r.Good? ==> Suffix(r.rest, s)
  {
    if At(s, '(') {
      FindBound(')', s[1..]);
      var k := Find(')', s[1..]);
      if k.Some? { Dropped(s[1..], k.value + 1); SuffixOf(s[1..][k.value + 1..], s[1..], s); }
    }
  }

  /** Whatever is accepted as a definition ends with a comma, in front of ';' or with the text; a fill-up partition
      not with a comma. */
  lemma DefinitionEnds(s: string)
    ensures var r := ParsePart(s);
            r.Good? ==>
              && Suffix(r.rest, s)
              && (r.rest == "" || r.rest[0] == ';'
                  || (|r.rest| < |s| && s[|s| - |r.rest| - 1] == ',' && r.value.size != 0xFFFF_FFFF))
  {
    if ParsePart(s).Good? {
      var s1 := ParseSize(s).rest;
      var s2 := ParseOffset(s1).rest;
      var s3 := ParseName(s2).rest;
      var s4 := ParseRo(s3).1;
      HeadSuffix(s);
      EndSuffix(s4, s, ParseSize(s).value);
    }
  }

  lemma HeadSuffix(s: string)
    requires ParsePart(s).Good?
    ensures ParseSize(s).Good? && ParseName(ParseOffset(ParseSize(s).rest).rest).Good?
    ensures Suffix(ParseRo(ParseName(ParseOffset(ParseSize(s).rest).rest).rest).1, s)
  {
    var s1 := ParseSize(s).rest;
    var s2 := ParseOffset(s1).rest;
    var s3 := ParseName(s2).rest;
    MemsizeSuffix(s);
    assert Suffix(s1, s);
    if At(s1, '@') { MemsizeSuffix(s1[1..]); SuffixOf(s2, s1[1..], s1); }
    SuffixOf(s2, s1, s);
    NameSuffix(s2);
    SuffixOf(s3, s2, s);
    SuffixOf(ParseRo(s3).1, s3, s);
  }

  lemma EndSuffix(s4: string, s: string, size: u32)
    requires Suffix(s4, s) && ParseEnd(s4, size).Good?
    ensures var r := ParseEnd(s4, size).rest;
            && Suffix(r, s)
            && (r == "" || r[0] == ';' || (|r| < |s| && s[|s| - |r| - 1] == ',' && size != 0xFFFF_FFFF))
  {
    if At(s4, ',') {
      SuffixOf(s4[1..], s4, s);
      assert s[|s| - |s4|..][0] == ',';
    }
  }

  // ----- whole devices and tables -----

  predicate AllOk(defs: seq<Definition>) { forall i | 0 <= i < |defs| :: defs[i].Ok() }

  function DefinitionsText(defs: seq<Definition>): string {
    if defs == [] then "" else defs[0].Text() + (if |defs| == 1 then "" else ",") + DefinitionsText(defs[1..])
  }

  /** What a definition asks for when `due` is the offset due. */
  function Placed(d: Definition, due: u32): Part
    requires d.Ok()
  {
    if d.Asks().offset == 0xFFFF_FFFF then d.Asks().(offset := due) else d.Asks()
  }

  /** The partitions that definitions stand for, each without an offset due where the one before it ends; none if one
      of them is too small, fills up in front of others or is not valid. */
  function Meant(defs: seq<Definition>, id: MtdId, due: u32): Option<seq<Part>>
    requires AllOk(defs)
    decreases |defs|
  {
    if defs == [] then Some([])
    else if defs[0].Size() < 4096 || (defs[0].Size() == 0xFFFF_FFFF && |defs| > 1) then None
    else
      match Validate(id, Placed(defs[0], due))
      case None => None
      case Some(p) =>
        match Meant(defs[1..], id, End(p))
        case None => None
        case Some(more) => Some([p] + more)
  }

  function AsParsed(r: Option<seq<Part>>, tail: string): Parsed<seq<Part>> {
    match r
    case None => Bad
    case Some(ps) => Good(ps, tail)
  }

  /** Every list of definitions that can be typed is read as what it stands for. */
  lemma {:induction false} DefinitionsRead(defs: seq<Definition>, id: MtdId, due: u32, tail: string)
    requires AllOk(defs) && (tail == "" || tail[0] == ';')
    ensures ParseParts(DefinitionsText(defs) + tail, id, due) == AsParsed(Meant(defs, id, due), tail)
    decreases |defs|
  {
    if defs == [] {
      assert DefinitionsText(defs) + tail == tail;
    } else {
      var d, last, rest := defs[0], |defs| == 1, DefinitionsText(defs[1..]) + tail;
      var sep := if last then "" else ",";
      assert last ==> rest == "" + tail == tail;
      Associate(d.Text() + sep, DefinitionsText(defs[1..]), tail);
      FirstRead(d, last, rest, id, due, d.Text() + sep + rest);
      if Validate(id, Placed(d, due)).Some? {
        DefinitionsRead(defs[1..], id, End(Validate(id, Placed(d, due)).value), tail);
      }
    }
  }

  lemma FirstRead(d: Definition, last: bool, rest: string, id: MtdId, due: u32, s: string)
    requires d.Ok() && (last ==> rest == "" || rest[0] == ';') && s == d.Text() + (if last then "" else ",") + rest
    ensures var v := Validate(id, Placed(d, due));
            ParseParts(s, id, due)
            == if d.Size() < 4096 || (d.Size() == 0xFFFF_FFFF && !last) || v.None? then Bad
               else Prepend(v.value, ParseParts(rest, id, End(v.value)))
  {
    DefinitionRead(d, last, rest);
    FirstCharacter(d);
    assert s[0] == d.Text()[0];
    ParsesFirst(s, id, due);
  }

  lemma ParsesFirst(s: string, id: MtdId, due: u32)
    requires s != "" && s[0] != ';'
    ensures ParseParts(s, id, due)
         == if ParsePart(s).Bad? then Bad
            else
              var raw := ParsePart(s).value;
              var v := Validate(id, if raw.offset == OFFSET_NOT_SPECIFIED then raw.(offset := due) else raw);
              if v.None? then Bad else Prepend(v.value, ParseParts(ParsePart(s).rest, id, End(v.value)))
  {
  }

  /** A device as typed: its name, a colon and its definitions, sorted by offset; the text of the next device is behind
      the semicolon. */
  lemma DeviceRead(id: MtdId, defs: seq<Definition>, tail: string, ids: seq<MtdId>, found: seq<Device>)
    requires ':' !in id.name && FindId(ids, id.name) == Some(id) && AllOk(defs) && (tail == "" || tail[0] == ';')
    ensures ParseDevice(id.name + ":" + DefinitionsText(defs) + tail, ids, found)
         == ListDevice(id, AsParsed(Meant(defs, id, StartOffset(found, id.key)), tail))
  {
    ColonSplit(id.name, DefinitionsText(defs), tail);
    DefinitionsRead(defs, id, StartOffset(found, id.key), tail);
  }

  /** What is refused in front of the definitions: a text without the prefix or with nothing behind it, a device
      without a colon or of an unknown name, and one without definitions. */
  lemma Refusals(text: string, ids: seq<MtdId>, found: seq<Device>, name: string, body: string)
    ensures |text| <= 9 || text[..9] != "mtdparts=" ==> ParseMtdparts(text, ids) == None
    ensures ':' !in text ==> ParseDevice(text, ids, found) == Bad
    ensures ':' !in name && (forall i | 0 <= i < |ids| :: ids[i].name != name) ==>
              ParseDevice(name + ":" + body, ids, found) == Bad
    ensures ':' !in name && (body == "" || body[0] == ';') ==> ParseDevice(name + ":" + body, ids, found) == Bad
  {
    FindBound(':', text);
    UnknownName(ids, name);
    if ':' !in name {
      ColonSplit(name, body, "");
      assert name + ":" + body + "" == name + ":" + body && body + "" == body;
    }
    if PREFIX <= text && text != PREFIX { assert text[..9] == PREFIX; }
  }

  lemma {:induction false} UnknownName(ids: seq<MtdId>, name: string)
    ensures (forall i | 0 <= i < |ids| :: ids[i].name != name) ==> FindId(ids, name).None?
    decreases |ids|
  {
    if ids != [] && ids[0].name != name { UnknownName(ids[1..], name); }
  }
}
