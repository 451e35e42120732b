/** Whole S-record transfers: what the saver sends, the loader stores. */
module SrecTransfer {
  import opened Bytes
  import opened Options
  import opened SrecText

  // ----- the loader -----

  datatype Input = Line(line: string, rest: string) | Interrupted | Pending

  predicate Interrupts(c: char) { c == '\0' || c == 3 as char }

  predicate EndsLine(c: char) { c == '\r' || c == '\n' }

  /** read_record with room for n more characters. */
  function ReadLine(text: string, n: nat): (r: Input)
    ensures r.Line? && n > 0 ==> |r.rest| < |text|
    ensures r.Line? ==> |r.rest| <= |text|
  {
    if n == 0 then Line("", text)
    else if text == "" then Pending
    else if EndsLine(text[0]) then Line("", text[1..])
    else if Interrupts(text[0]) then Interrupted
    else match ReadLine(text[1..], n - 1)
      case Line(line, rest) => Line([text[0]] + line, rest)
      case Interrupted => Interrupted
      case Pending => Pending
  }

  /** A load whose length is a negative number does not come back from the copy: the length is taken for that
      number modulo 2^32. */
  datatype Loaded =
    | Done(stores: seq<Piece>, entry: nat)
    | Failed(stores: seq<Piece>)
    | Waiting(stores: seq<Piece>)
    | Runaway(stores: seq<Piece>, to: nat, length: nat)
  {
    function Before(first: seq<Piece>): Loaded { this.(stores := first + stores) }
  }

  predicate IsData(typ: char) { typ == '1' || typ == '2' || typ == '3' }

  predicate IsEnd(typ: char) { typ == '7' || typ == '8' || typ == '9' }

  /** What the next record of a text asks for. */
  datatype Step =
    | Break
    | Wait
    | Finish(entry: nat)
    | Store(p: Piece, rest: string)
    | Overrun(to: nat, length: nat)
    | Skip(rest: string)

  function StepFor(d: Decoded, rest: string, offset: nat): Step {
    match d
    case Record(typ, addr, count, data) =>
      if IsData(typ) && count < 0 then Overrun((addr + offset) % WORD, count % WORD)
      else if IsData(typ) then Store(Piece((addr + offset) % WORD, data), rest)
      else if IsEnd(typ) then Finish(addr)
      else Skip(rest)
    case Empty => Skip(rest)
    case NoSrec => Break
    case BadType => Break
    case BadSum => Break
  }

  function NextStep(decode: string -> Decoded, text: string, offset: nat): (r: Step)
    ensures r.Store? || r.Skip? ==> |r.rest| < |text|
  {
    match ReadLine(text, MAX_RECORD)
    case Interrupted => Break
    case Pending => Wait
    case Line(line, rest) => StepFor(decode(line), rest, offset)
  }

  /** The stores that load_serial makes of a text, in order, with a decoder for its lines. */
  function LoadWith(decode: string -> Decoded, text: string, offset: nat): Loaded
    decreases |text|
  {
    match NextStep(decode, text, offset)
    case Break => Failed([])
    case Wait => Waiting([])
    case Finish(entry) => Done([], entry)
    case Overrun(to, length) => Runaway([], to, length)
    case Store(p, rest) => LoadWith(decode, rest, offset).Before([p])
    case Skip(rest) => LoadWith(decode, rest, offset)
  }

  function Load(text: string, offset: nat): Loaded { LoadWith(Decode, text, offset) }

  // ----- the saver -----

  /** The data records of pieces. */
  function Lines(ps: seq<Piece>): (r: seq<string>)
    requires PiecesOk(ps)
    ensures |r| == |ps| && forall i | 0 <= i < |ps| :: r[i] == DataRecord(ps[i].addr, ps[i].data)
  {
    seq(|ps|, i requires 0 <= i < |ps| => DataRecord(ps[i].addr, ps[i].data))
  }

  function Joined(lines: seq<string>): string {
    if lines == [] then "" else (lines[0] + "\n") + Joined(lines[1..])
  }

  ghost function SaveText(mem: nat -> byte, a: nat, n: nat): string
    requires a < WORD
  {
    PiecesTile(mem, a, n, a);
    (START + "\n") + (Joined(Lines(Pieces(mem, a, n))) + (END + "\n"))
  }

  // ----- the round trip -----

  predicate Plain(s: string) { forall i | 0 <= i < |s| :: !EndsLine(s[i]) && !Interrupts(s[i]) }

  lemma {:induction false} ReadPlain(s: string, rest: string, n: nat)
    requires Plain(s) && |s| < n
    ensures ReadLine((s + "\n") + rest, n) == Line(s, rest)
    decreases |s|
  {
    var t := (s + "\n") + rest;
    if s == "" {
      assert t[1..] == rest;
    } else {
      assert t[1..] == (s[1..] + "\n") + rest;
      ReadPlain(s[1..], rest, n - 1);
      assert [s[0]] + s[1..] == s;
    }
  }

  lemma {:induction false} HexPlain(b: seq<byte>)
    ensures Plain(Hex(b))
    decreases |b|
  {
    if b != [] {
      ValueOfDigit(b[0] / 16);
      ValueOfDigit(b[0] % 16);
      HexPlain(b[1..]);
    }
  }

  lemma RecordPlain(a: nat, data: seq<byte>)
    requires a < WORD && |data| <= BYTES_PER_RECORD
    ensures Plain(DataRecord(a, data)) && |DataRecord(a, data)| < MAX_RECORD
  {
    HexPlain([|data| + 5] + WordBytes(a) + data + [Checksum(WordBytes(a), data)]);
  }

  /** What a line of its own does. */
  lemma LoadLine(decode: string -> Decoded, s: string, rest: string, offset: nat, text: string)
    requires Plain(s) && |s| < MAX_RECORD && decode(s).Record? && text == (s + "\n") + rest
    ensures var d := decode(s);
            LoadWith(decode, text, offset)
            == if IsData(d.typ) && d.count < 0 then Runaway([], (d.addr + offset) % WORD, d.count % WORD)
               else if IsData(d.typ)
               then LoadWith(decode, rest, offset).Before([Piece((d.addr + offset) % WORD, d.data)])
               else if IsEnd(d.typ) then Done([], d.addr) else LoadWith(decode, rest, offset)
  {
    ReadPlain(s, rest, MAX_RECORD);
  }

  function Shifted(ps: seq<Piece>, offset: nat): (r: seq<Piece>)
    ensures |r| == |ps|
  {
    if ps == [] then [] else [Piece((ps[0].addr + offset) % WORD, ps[0].data)] + Shifted(ps[1..], offset)
  }

  /** The data record of a piece. */
  function Taken(p: Piece): Decoded { Record('3', p.addr, |p.data|, p.data) }

  /** Lines that the decoder takes for data records of the pieces. */
  ghost predicate Encodes(decode: string -> Decoded, lines: seq<string>, ps: seq<Piece>) {
    && |lines| == |ps|
    && forall i | 0 <= i < |lines| ::
         Plain(lines[i]) && |lines[i]| < MAX_RECORD && decode(lines[i]) == Taken(ps[i])
  }

  lemma {:induction false} LoadRecords(decode: string -> Decoded, lines: seq<string>, ps: seq<Piece>, rest: string,
                                       offset: nat, text: string)
    requires Encodes(decode, lines, ps) && text == Joined(lines) + rest
    ensures LoadWith(decode, text, offset) == LoadWith(decode, rest, offset).Before(Shifted(ps, offset))
    decreases |ps|
  {
    if ps == [] {
      assert text == rest;
      BeforeNone(LoadWith(decode, rest, offset));
    } else {
      var tail := Joined(lines[1..]) + rest;
      Associate(lines[0] + "\n", Joined(lines[1..]), rest);
      LoadLine(decode, lines[0], tail, offset, text);
      LoadRecords(decode, lines[1..], ps[1..], rest, offset, tail);
      BeforeTwice([Piece((ps[0].addr + offset) % WORD, ps[0].data)], Shifted(ps[1..], offset),
                  LoadWith(decode, rest, offset));
    }
  }

  lemma BeforeNone(l: Loaded)
    ensures l.Before([]) == l
  {
    assert [] + l.stores == l.stores;
  }

  lemma BeforeTwice(a: seq<Piece>, b: seq<Piece>, l: Loaded)
    ensures l.Before(b).Before(a) == l.Before(a + b)
  {
    Associate(a, b, l.stores);
  }

  lemma LinesEncode(ps: seq<Piece>)
    requires PiecesOk(ps)
    ensures Encodes(Decode, Lines(ps), ps)
  {
    forall i | 0 <= i < |ps|
      ensures var s := Lines(ps)[i]; Plain(s) && |s| < MAX_RECORD && Decode(s) == Taken(ps[i])
    {
      RecordPlain(ps[i].addr, ps[i].data);
      RecordRoundTrip(ps[i].addr, ps[i].data);
    }
  }

  /** The fixed first and last records are lines of their own. */
  lemma EndsPlain()
    ensures Plain(START) && Plain(END) && |START| < MAX_RECORD && |END| < MAX_RECORD
  {
  }

  lemma StartDecodes()
    ensures Decode(START).Record? && Decode(START).typ == '0'
  {
    var s := START;
    assert s[0] == 'S' && s[1] == '0' && Pair(s, 2) == 3;
    assert Pair(s, 4) == 0 && Pair(s, 6) == 0 && Pair(s, 8) == 252;
    assert [252][1..] == [] && [0, 252][1..] == [252] && [0, 0, 252][1..] == [0, 252];
    NextOctet(s, 8, [252]);
    NextOctet(s, 6, [0, 252]);
    NextOctet(s, 4, [0, 0, 252]);
    DecodeOctets(s, '0', [0, 0, 252]);
  }

  lemma EndDecodes()
    ensures Decode(END) == Record('7', 0, 0, [])
  {
    EndOctets();
    var tail: seq<byte> := [0, 0, 0, 0, 250];
    DecodeOctets(END, '7', tail);
    assert tail[..4] == WordBytes(0) && tail[4..4] == [];
    BigEndianAddress(0);
  }

  lemma EndOctets()
    ensures END[0] == 'S' && END[1] == '7' && Pair(END, 2) == 5
    ensures Octets(END, 4, 5) == Some([0, 0, 0, 0, 250]) && Sum([0, 0, 0, 0, 250]) == 250
  {
    var s := END;
    assert Pair(s, 4) == 0 && Pair(s, 6) == 0 && Pair(s, 8) == 0 && Pair(s, 10) == 0 && Pair(s, 12) == 250;
    LastOfFive(s, 250);
  }

  /** Four zero octets and a last one. */
  lemma LastOfFive(s: string, v: byte)
    requires Pair(s, 4) == 0 && Pair(s, 6) == 0 && Pair(s, 8) == 0 && Pair(s, 10) == 0 && Pair(s, 12) == v
    ensures Octets(s, 4, 5) == Some([0, 0, 0, 0, v]) && Sum([0, 0, 0, 0, v]) == v
  {
    assert [v][1..] == [] && [0, v][1..] == [v] && [0, 0, v][1..] == [0, v];
    assert [0, 0, 0, v][1..] == [0, 0, v] && [0, 0, 0, 0, v][1..] == [0, 0, 0, v];
    NextOctet(s, 12, [v]);
    NextOctet(s, 10, [0, v]);
    NextOctet(s, 8, [0, 0, v]);
    NextOctet(s, 6, [0, 0, 0, v]);
    NextOctet(s, 4, [0, 0, 0, 0, v]);
  }

  /** What the saver sends of a memory range, the loader stores again: consecutive pieces from the shifted
      address on, together the bytes of the range, each once. */
  lemma SavedLoads(mem: nat -> byte, a: nat, n: nat, offset: nat, rest: string)
    requires a < WORD
    ensures Load(SaveText(mem, a, n) + rest, offset) == Done(Shifted(Pieces(mem, a, n), offset), 0)
    ensures var stores := Shifted(Pieces(mem, a, n), offset);
            Consecutive(stores, a + offset) && Datas(stores) == Range(mem, a, n)
  {
    var ps := Pieces(mem, a, n);
    PiecesTile(mem, a, n, a);
    LinesEncode(ps);
    LoadFramed(Decode, Lines(ps), ps, rest, offset, SaveText(mem, a, n) + rest);
    ShiftedTiles(ps, a, offset);
  }

  lemma LoadFramed(decode: string -> Decoded, lines: seq<string>, ps: seq<Piece>, rest: string, offset: nat,
                   text: string)
    requires decode == Decode && Encodes(decode, lines, ps)
    requires text == (START + "\n") + (Joined(lines) + (END + "\n")) + rest
    ensures LoadWith(decode, text, offset) == Done(Shifted(ps, offset), 0)
  {
    EndsPlain();
    StartDecodes();
    EndDecodes();
    LoadAll(decode, START, END, lines, ps, rest, offset, text);
  }

  lemma LoadAll(decode: string -> Decoded, first: string, last: string, lines: seq<string>, ps: seq<Piece>,
                rest: string, offset: nat, text: string)
    requires Encodes(decode, lines, ps) && text == (first + "\n") + (Joined(lines) + (last + "\n")) + rest
    requires Plain(first) && Plain(last) && |first| < MAX_RECORD && |last| < MAX_RECORD
    requires decode(first).Record? && decode(first).typ == '0' && decode(last) == Record('7', 0, 0, [])
    ensures LoadWith(decode, text, offset) == Done(Shifted(ps, offset), 0)
  {
    var body, end := Joined(lines), last + "\n";
    Associate(first + "\n", body + end, rest);
    Associate(body, end, rest);
    LoadLine(decode, first, body + (end + rest), offset, text);
    LoadRecords(decode, lines, ps, end + rest, offset, body + (end + rest));
    LoadLine(decode, last, rest, offset, end + rest);
    assert Shifted(ps, offset) + [] == Shifted(ps, offset);
  }

  lemma {:induction false} ShiftedTiles(ps: seq<Piece>, a: nat, offset: nat)
    requires Consecutive(ps, a)
    ensures Consecutive(Shifted(ps, offset), a + offset) && Datas(Shifted(ps, offset)) == Datas(ps)
    decreases |ps|
  {
    if ps != [] {
      var s := Shifted(ps, offset);
      assert s[1..] == Shifted(ps[1..], offset);
      WrapAdd(a, offset);
      ShiftedTiles(ps[1..], a + |ps[0].data|, offset);
      assert a + |ps[0].data| + offset == (a + offset) + |ps[0].data|;
    }
  }
}
