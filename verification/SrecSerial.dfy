/** The loops of the S-record loader and saver, over the console as text. */
module SrecSerial {
  import opened Bytes
  import opened Options
  import opened SrecText
  import opened SrecTransfer

  // ----- the decoder -----

  method SkipToS(input: string) returns (i: nat)
    ensures i == AfterS(input, 0)
  {
    i := 0;
    while i < |input|
      invariant i <= |input| && AfterS(input, i) == AfterS(input, 0)
    {
      i := i + 1;
      if input[i - 1] == 'S' { return; }
    }
  }

  /** Reads pairs of digits and adds them to the checksum. */
  method TakeOctets(input: string, from: nat, n: nat, sum: nat) returns (b: Option<seq<byte>>, newSum: nat)
    ensures b == Octets(input, from, n)
    ensures newSum < 256 || newSum == sum
    ensures b.Some? ==> newSum % 256 == (sum + Sum(b.value)) % 256
  {
    newSum := sum;
    var got: seq<byte> := [];
    var i := 0;
    JointNone(Octets(input, from, n));
    while i < n
      invariant 0 <= i <= n && |got| == i
      invariant Octets(input, from, n) == Joint(got, Octets(input, from + 2 * i, n - i))
      invariant newSum < 256 || newSum == sum
      invariant newSum % 256 == (sum + Sum(got)) % 256
    {
      var v := Pair(input, from + 2 * i);
      if v < 0 { return None, newSum; }
      OctetsStep(input, from + 2 * i, n - i, got);
      AddOctet(sum, newSum, got, v);
      got := got + [v];
      newSum := (newSum + v) % 256;
      i := i + 1;
    }
    assert got + [] == got;
    return Some(got), newSum;
  }

  ghost function Joint(a: seq<byte>, b: Option<seq<byte>>): Option<seq<byte>> {
    if b.None? then None else Some(a + b.value)
  }

  lemma JointNone(b: Option<seq<byte>>)
    ensures Joint([], b) == b
  {
    if b.Some? { assert [] + b.value == b.value; }
  }

  lemma OctetsStep(s: string, i: nat, n: nat, got: seq<byte>)
    requires n > 0 && Pair(s, i) >= 0
    ensures Joint(got, Octets(s, i, n)) == Joint(got + [Pair(s, i)], Octets(s, i + 2, n - 1))
  {
    var rest := Octets(s, i + 2, n - 1);
    if rest.Some? { Associate(got, [Pair(s, i)], rest.value); }
  }

  lemma AddOctet(sum: nat, newSum: nat, got: seq<byte>, v: byte)
    requires newSum % 256 == (sum + Sum(got)) % 256
    ensures (newSum + v) % 256 % 256 == (sum + Sum(got + [v])) % 256
  {
    SumAppend(got, [v]);
    SumOne(v);
    AddMod(newSum, sum + Sum(got), v);
  }

  lemma AddMod(a: nat, b: nat, v: nat)
    requires a % 256 == b % 256
    ensures (a + v) % 256 % 256 == (b + v) % 256
  {
  }

  method SrecDecode(input: string) returns (r: Decoded)
    ensures r == Decode(input)
  {
    var i := SkipToS(input);
    if i == |input| { return Empty; }
    var typ, len := input[i], Pair(input, i + 1);
    if len < 0 { return NoSrec; }
    var k := AddressLength(typ);
    if k == 0 { return BadType; }
    r := DecodeFields(input, i + 3, typ, len, k);
  }

  /** Address, data and checksum. */
  method DecodeFields(input: string, from: nat, typ: char, len: nat, k: nat) returns (r: Decoded)
    requires k == AddressLength(typ)
    ensures var b := Octets(input, from, FieldOctets(typ, len));
            r == if b.None? then NoSrec else Fields(typ, len, b.value)
  {
    var count := if typ == '5' then 0 else len - k - 1;
    var fields := ReadFields(input, from, len, k, Turns(count));
    if fields.None? { return NoSrec; }
    var (address, data, good) := fields.value;
    if !good { return BadSum; }
    return Record(typ, BigEndian(0, address), count, data);
  }

  /** The address and data octets, and whether the checksum behind them is right. */
  method ReadFields(input: string, from: nat, count: nat, k: nat, n: nat)
    returns (r: Option<(seq<byte>, seq<byte>, bool)>)
    ensures var b := Octets(input, from, k + n + 1);
            r == if b.None? then None
                 else Some((b.value[..k], b.value[k..|b.value| - 1], (count + Sum(b.value)) % 256 == 255))
  {
    ThreeFields(input, from, k, n);
    var address, s1 := TakeOctets(input, from, k, count);
    if address.None? { return None; }
    var data, s2 := TakeOctets(input, from + 2 * k, n, s1);
    if data.None? { return None; }
    var v := Pair(input, from + 2 * k + 2 * n);
    if v < 0 { return None; }
    FieldSums(count, s1, s2, address.value, data.value, v);
    FieldSlices(address.value, data.value, v);
    return Some((address.value, data.value, v == 255 - s2 % 256));
  }

  lemma FieldSlices(address: seq<byte>, data: seq<byte>, v: byte)
    ensures var b := address + (data + [v]);
            b[..|address|] == address && b[|address|..|b| - 1] == data
  {
  }

  lemma ThreeFields(s: string, from: nat, k: nat, n: nat)
    ensures var x, y, v := Octets(s, from, k), Octets(s, from + 2 * k, n), Pair(s, from + 2 * k + 2 * n);
            Octets(s, from, k + n + 1)
            == if x.None? || y.None? || v < 0 then None else Some(x.value + (y.value + [v]))
  {
    OctetsSplit(s, from, k, n + 1);
    OctetsSplit(s, from + 2 * k, n, 1);
    LastOctet(s, from + 2 * k + 2 * n);
    assert k + (n + 1) == k + n + 1;
  }

  lemma LastOctet(s: string, i: nat)
    ensures Octets(s, i, 1) == if Pair(s, i) < 0 then None else Some([Pair(s, i)])
  {
    assert Octets(s, i + 2, 0) == Some([]);
    assert Pair(s, i) >= 0 ==> [Pair(s, i)] + [] == [Pair(s, i)];
  }

  lemma {:induction false} OctetsSplit(s: string, i: nat, a: nat, b: nat)
    ensures var x, y := Octets(s, i, a), Octets(s, i + 2 * a, b);
            Octets(s, i, a + b) == if x.None? then None else Joint(x.value, y)
    decreases a
  {
    if a == 0 {
      var y := Octets(s, i, b);
      if y.Some? { assert [] + y.value == y.value; }
    } else {
      OctetsSplit(s, i + 2, a - 1, b);
      var x, y := Octets(s, i + 2, a - 1), Octets(s, i + 2 * a, b);
      assert i + 2 + 2 * (a - 1) == i + 2 * a;
      if x.Some? && y.Some? && Pair(s, i) >= 0 { Associate([Pair(s, i)], x.value, y.value); }
    }
  }

  /** The complement test is the test that everything adds up to 0xFF. */
  lemma FieldSums(count: nat, s1: nat, s2: nat, address: seq<byte>, data: seq<byte>, v: byte)
    requires s1 % 256 == (count + Sum(address)) % 256 && s2 % 256 == (s1 + Sum(data)) % 256
    ensures v == 255 - s2 % 256 <==> (count + Sum(address + (data + [v]))) % 256 == 255
  {
    SumAppend(address, data + [v]);
    SumAppend(data, [v]);
    SumOne(v);
    AddMod(s1, count + Sum(address), Sum(data));
    ComplementIff(count + Sum(address) + Sum(data), s2, v);
  }

  lemma ComplementIff(t: nat, s: nat, v: byte)
    requires s % 256 == t % 256
    ensures v == 255 - s % 256 <==> (t + v) % 256 == 255
  {
  }

  // ----- the loader -----

  method ReadRecord(text: string, room: nat) returns (r: Input)
    ensures r == ReadLine(text, room)
  {
    var line, i := "", 0;
    while i < room && i < |text|
      invariant 0 <= i <= room && i <= |text|
      invariant ReadLine(text, room) == WithPrefix(line, ReadLine(text[i..], room - i))
    {
      var c := text[i];
      ReadStep(text[i..], room - i, line);
      assert text[i..][1..] == text[i + 1..];
      i := i + 1;
      if EndsLine(c) { return Line(line, text[i..]); }
      if Interrupts(c) { return Interrupted; }
      line := line + [c];
    }
    assert line + "" == line;
    if i == room { return Line(line, text[i..]); }
    return Pending;
  }

  ghost function WithPrefix(line: string, r: Input): Input {
    if r.Line? then Line(line + r.line, r.rest) else r
  }

  lemma ReadStep(text: string, n: nat, line: string)
    requires n > 0 && text != ""
    ensures var c := text[0];
            WithPrefix(line, ReadLine(text, n))
            == if EndsLine(c) then Line(line, text[1..]) else if Interrupts(c) then Interrupted
               else WithPrefix(line + [c], ReadLine(text[1..], n - 1))
  {
    assert line + "" == line;
    var r := ReadLine(text[1..], n - 1);
    if r.Line? { Associate(line, [text[0]], r.line); }
  }

  /** A data record with a right checksum stores its data octets exactly if its length has room for the address
      and the checksum. With any other length the copy runs away. */
  lemma StoredIff(s: string, rest: string, offset: nat)
    requires Decode(s).Record? && IsData(Decode(s).typ)
    ensures var d, i := Decode(s), AfterS(s, 0);
            var k, len, step := AddressLength(d.typ), Pair(s, i + 1), StepFor(d, rest, offset);
            var to := (d.addr + offset) % WORD;
            if len >= k + 1
            then step == Store(Piece(to, d.data), rest) && Octets(s, i + 3 + 2 * k, len - k - 1) == Some(d.data)
            else step == Overrun(to, WORD + len - k - 1)
  {
    var i := AfterS(s, 0);
    var typ, len := s[i], Pair(s, i + 1);
    var b := DecodedFields(s);
    StepOfFields(typ, len, b, rest, offset);
    DataOctets(s, i + 3, AddressLength(typ), Turns(DataCount(typ, len)), b);
  }

  lemma StepOfFields(typ: char, len: byte, b: seq<byte>, rest: string, offset: nat)
    requires |b| == FieldOctets(typ, len) && Fields(typ, len, b).Record? && IsData(typ)
    ensures var d, k := Fields(typ, len, b), AddressLength(typ);
            var to := (d.addr + offset) % WORD;
            && d.data == b[k..|b| - 1]
            && StepFor(d, rest, offset)
               == if len >= k + 1 then Store(Piece(to, d.data), rest) else Overrun(to, WORD + len - k - 1)
  {
  }

  lemma DecodedFields(s: string) returns (b: seq<byte>)
    requires Decode(s).Record?
    ensures var i := AfterS(s, 0);
            && i < |s| && Pair(s, i + 1) >= 0
            && Octets(s, i + 3, FieldOctets(s[i], Pair(s, i + 1))) == Some(b)
            && Decode(s) == Fields(s[i], Pair(s, i + 1), b)
  {
    var i := AfterS(s, 0);
    b := Octets(s, i + 3, FieldOctets(s[i], Pair(s, i + 1))).value;
  }

  lemma DataOctets(s: string, from: nat, k: nat, n: nat, b: seq<byte>)
    requires Octets(s, from, k + n + 1) == Some(b)
    ensures Octets(s, from + 2 * k, n) == Some(b[k..|b| - 1])
  {
    ThreeFields(s, from, k, n);
    var x, y := Octets(s, from, k).value, Octets(s, from + 2 * k, n).value;
    FieldSlices(x, y, Pair(s, from + 2 * k + 2 * n));
  }

  /** An accepted line that makes the copy run away. */
  const SHORT := "S30200000000FD"

  lemma ShortRecord(s: string, rest: string, offset: nat)
    requires s == SHORT
    ensures Decode(s) == Record('3', 0, -3, [])
    ensures Load((s + "\n") + rest, offset) == Runaway([], offset % WORD, WORD - 3)
  {
    ShortDecodes(s);
    ShortRuns(Decode, s, rest, offset);
  }

  lemma ShortRuns(decode: string -> Decoded, s: string, rest: string, offset: nat)
    requires Plain(s) && |s| < MAX_RECORD && decode(s) == Record('3', 0, -3, [])
    ensures LoadWith(decode, (s + "\n") + rest, offset) == Runaway([], offset % WORD, WORD - 3)
  {
    LoadLine(decode, s, rest, offset, (s + "\n") + rest);
  }

  lemma ShortDecodes(s: string)
    requires s == SHORT
    ensures Decode(s) == Record('3', 0, -3, [])
  {
    ShortOctets(s);
    var b: seq<byte> := [0, 0, 0, 0, 253];
    assert b[..4] == WordBytes(0);
    DecodeFrom(s, '3', 2, b);
    ShortFields(b);
  }

  lemma ShortFields(b: seq<byte>)
    requires |b| == 5 && b[..4] == WordBytes(0) && Sum(b) == 253
    ensures Fields('3', 2, b) == Record('3', 0, -3, [])
  {
    BigEndianAddress(0);
  }

  lemma ShortOctets(s: string)
    requires s == SHORT
    ensures Pair(s, 2) == 2 && Octets(s, 4, 5) == Some([0, 0, 0, 0, 253]) && Sum([0, 0, 0, 0, 253]) == 253
  {
    assert Pair(s, 4) == 0 && Pair(s, 6) == 0 && Pair(s, 8) == 0 && Pair(s, 10) == 0 && Pair(s, 12) == 253;
    LastOfFive(s, 253);
  }

  /** Reads and decodes one record. */
  method TakeStep(text: string, offset: nat, ghost decode: string -> Decoded) returns (s: Step)
    requires decode == Decode
    ensures s == NextStep(decode, text, offset)
  {
    var record := ReadRecord(text, MAX_RECORD);
    match record
    case Interrupted => return Break;
    case Pending => return Wait;
    case Line(line, rest) =>
      var d := SrecDecode(line);
      s := StepFor(d, rest, offset);
  }

  /** What a step does to the stores made so far. */
  lemma LoadStep(decode: string -> Decoded, text: string, offset: nat, stores: seq<Piece>, s: Step)
    requires s == NextStep(decode, text, offset)
    ensures LoadWith(decode, text, offset).Before(stores)
         == match s
            case Break => Failed(stores)
            case Wait => Waiting(stores)
            case Finish(entry) => Done(stores, entry)
            case Overrun(to, length) => Runaway(stores, to, length)
            case Store(p, rest) => LoadWith(decode, rest, offset).Before(stores + [p])
            case Skip(rest) => LoadWith(decode, rest, offset).Before(stores)
  {
    assert stores + [] == stores;
    if s.Store? { BeforeTwice(stores, [s.p], LoadWith(decode, s.rest, offset)); }
  }

  /** load_serial, with the stores it makes as its effect. */
  method LoadSerial(input: string, offset: nat) returns (r: Loaded)
    ensures r == Load(input, offset)
  {
    ghost var decode: string -> Decoded := Decode;
    ghost var whole := LoadWith(decode, input, offset);
    var text, stores: seq<Piece> := input, [];
    BeforeNone(whole);
    while true
      invariant LoadWith(decode, text, offset).Before(stores) == whole
      decreases |text|
    {
      var s := TakeStep(text, offset, decode);
      LoadStep(decode, text, offset, stores, s);
      match s
      case Break => return Failed(stores);
      case Wait => return Waiting(stores);
      case Finish(entry) => return Done(stores, entry);
      case Overrun(to, length) => return Runaway(stores, to, length);
      case Store(p, rest) => text, stores := rest, stores + [p];
      case Skip(rest) => text := rest;
    }
  }
}
