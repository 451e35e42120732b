/** Every kind of S-record and every way to end a line: what the decoder and the loader make of them. */
module SrecKinds {
  import opened Bytes
  import opened SrecText
  import opened SrecTransfer

  // ----- digits -----

  /** The characters that are hexadecimal digits, in both cases, and their values. */
  lemma DigitsAre(c: char, n: nat)
    requires n < 16
    ensures Value(c) == n <==> c == "0123456789ABCDEF"[n] || c == "0123456789abcdef"[n]
    ensures Value(c) >= 0 <==> c in "0123456789ABCDEFabcdef"
  {
  }

  // ----- records -----

  /** Addresses are written with their most significant octet first. */
  lemma AddressIs(address: seq<byte>)
    requires 2 <= |address| <= 4
    ensures BigEndian(0, address)
         == if |address| == 2 then 256 * address[0] as int + address[1]
            else if |address| == 3 then 65536 * address[0] as int + 256 * address[1] as int + address[2]
            else 16777216 * address[0] as int + 65536 * address[1] as int + 256 * address[2] as int + address[3]
  {
    var n := |address|;
    BigEndianLast(0, address[..n - 1], address[n - 1]);
    assert address[..n - 1] + [address[n - 1]] == address;
    BigEndianLast(0, address[..n - 2], address[n - 2]);
    assert address[..n - 2] + [address[n - 2]] == address[..n - 1];
    if n > 2 {
      BigEndianLast(0, address[..n - 3], address[n - 3]);
      assert address[..n - 3] + [address[n - 3]] == address[..n - 2];
    }
    if n > 3 {
      BigEndianLast(0, [], address[0]);
      assert [] + [address[0]] == address[..1];
    }
  }

  lemma {:induction false} BigEndianLast(acc: nat, b: seq<byte>, c: byte)
    ensures BigEndian(acc, b + [c]) == 256 * BigEndian(acc, b) + c
    decreases |b|
  {
    if b == [] {
      assert b + [c] == [c] && [c][1..] == [];
    } else {
      assert (b + [c])[0] == b[0] && (b + [c])[1..] == b[1..] + [c];
      BigEndianLast(256 * acc + b[0], b[1..], c);
    }
  }

  /** The number of address octets of a kind of record. */
  predicate Addresses(typ: char, n: nat) {
    || (n == 2 && typ in {'0', '1', '5', '9'})
    || (n == 3 && typ in {'2', '8'})
    || (n == 4 && typ in {'3', '7'})
  }

  /** A record line: type, length, address, data and checksum. */
  function RecordText(typ: char, address: seq<byte>, data: seq<byte>, check: byte): string
    requires |address| + |data| + 1 < 256
  {
    ['S', typ] + Hex([|address| + |data| + 1] + address + data + [check])
  }

  predicate SumsUp(address: seq<byte>, data: seq<byte>, check: byte) {
    (|address| + |data| + 1 + Sum(address) + Sum(data) + check) % 256 == 255
  }

  /** Every kind of record decodes to its address and data if its octets add up to 255, and is refused otherwise. */
  lemma KindDecodes(typ: char, address: seq<byte>, data: seq<byte>, check: byte)
    requires Addresses(typ, |address|) && typ != '5' && |address| + |data| + 1 < 256
    ensures Decode(RecordText(typ, address, data, check))
         == if SumsUp(address, data, check) then Record(typ, BigEndian(0, address), |data|, data) else BadSum
  {
    var tail := address + data + [check];
    var s := RecordText(typ, address, data, check);
    assert [|tail|] + address + data + [check] == [|tail|] + tail;
    TypeAndLength(s, typ, |tail|, tail);
    KindFields(typ, address, data, check, tail);
    DecodeFrom(s, typ, |tail|, tail);
  }

  lemma KindFields(typ: char, address: seq<byte>, data: seq<byte>, check: byte, tail: seq<byte>)
    requires Addresses(typ, |address|) && typ != '5' && tail == address + data + [check]
    ensures AddressLength(typ) == |address| && FieldOctets(typ, |tail|) == |tail|
    ensures Fields(typ, |tail|, tail)
         == if SumsUp(address, data, check) then Record(typ, BigEndian(0, address), |data|, data) else BadSum
  {
    TailSum(address, data, check);
    assert tail[..|address|] == address && tail[|address|..|tail| - 1] == data;
  }

  lemma TailSum(address: seq<byte>, data: seq<byte>, check: byte)
    ensures Sum(address + data + [check]) == Sum(address) + Sum(data) + check
  {
    SumAppend(address + data, [check]);
    SumAppend(address, data);
    SumOne(check);
  }

  /** A count record: the address field holds the count, and there are no data whatever the length says. */
  lemma CountDecodes(address: seq<byte>, check: byte, len: byte, s: string)
    requires |address| == 2 && s == ['S', '5'] + Hex([len] + address + [check])
    ensures Decode(s) == if (len + Sum(address) + check) % 256 == 255 then Record('5', BigEndian(0, address), 0, [])
                         else BadSum
  {
    var tail := address + [check];
    assert [len] + address + [check] == [len] + tail;
    TypeAndLength(s, '5', len, tail);
    CountFields(address, check, len, tail);
    DecodeFrom(s, '5', len, tail);
  }

  lemma CountFields(address: seq<byte>, check: byte, len: byte, tail: seq<byte>)
    requires |address| == 2 && tail == address + [check]
    ensures AddressLength('5') == 2 && FieldOctets('5', len) == 3
    ensures Fields('5', len, tail) == if (len + Sum(address) + check) % 256 == 255
                                      then Record('5', BigEndian(0, address), 0, []) else BadSum
  {
    SumAppend(address, [check]);
    SumOne(check);
    assert tail[..2] == address && tail[2..2] == [];
  }

  /** Any other type is refused. */
  lemma OtherTypes(s: string)
    requires |s| > 1 && s[0] == 'S' && Pair(s, 2) >= 0 && s[1] !in {'0', '1', '2', '3', '5', '7', '8', '9'}
    ensures Decode(s) == BadType
  {
    assert AfterS(s, 0) == 1;
  }

  /** What comes before the first 'S' does not matter. */
  lemma {:induction false} NoiseSkipped(t: string, n: nat)
    requires n <= |t| && 'S' !in t[..n]
    ensures Decode(t) == Decode(t[n..])
    decreases n
  {
    if n == 0 {
      assert t[0..] == t;
    } else {
      assert t[0] in t[..n] && t[1..][..n - 1] == t[..n][1..] && t[1..][n - 1..] == t[n..];
      OneLess(t);
      NoiseSkipped(t[1..], n - 1);
    }
  }

  lemma OneLess(t: string)
    requires t != "" && t[0] != 'S'
    ensures Decode(t) == Decode(t[1..])
  {
    AfterSShift(t, 0);
    var i := AfterS(t[1..], 0);
    assert i < |t| - 1 ==> t[1..][i] == t[i + 1];
    PairShift(t, i + 1);
    if i < |t| - 1 && Pair(t[1..], i + 1) >= 0 { OctetsShift(t, i + 3, FieldOctets(t[i + 1], Pair(t[1..], i + 1))); }
  }

  lemma {:induction false} AfterSShift(t: string, i: nat)
    requires i < |t|
    ensures AfterS(t, i + 1) == AfterS(t[1..], i) + 1
    decreases |t| - i
  {
    if i + 1 < |t| && t[i + 1] != 'S' { AfterSShift(t, i + 1); }
  }

  lemma PairShift(t: string, i: nat)
    requires t != ""
    ensures Pair(t, i + 1) == Pair(t[1..], i)
  {
  }

  lemma {:induction false} OctetsShift(t: string, i: nat, n: nat)
    requires t != ""
    ensures Octets(t, i + 1, n) == Octets(t[1..], i, n)
    decreases n
  {
    if n > 0 {
      PairShift(t, i);
      OctetsShift(t, i + 2, n - 1);
    }
  }

  // ----- lines -----

  /** A line ends at CR or newline. */
  lemma {:induction false} LineEnds(s: string, c: char, rest: string, n: nat)
    requires Plain(s) && |s| < n && c in {'\r', '\n'}
    ensures ReadLine(s + ([c] + rest), n) == Line(s, rest)
    decreases |s|
  {
    var t := s + ([c] + rest);
    if s == "" {
      assert t[1..] == rest;
    } else {
      LineEnds(s[1..], c, rest, n - 1);
      assert t[1..] == s[1..] + ([c] + rest) && [s[0]] + s[1..] == s;
    }
  }

  /** NUL and control-C break it off. */
  lemma {:induction false} LineBreaks(s: string, c: char, rest: string, n: nat)
    requires Plain(s) && |s| < n && c in {'\0', 3 as char}
    ensures ReadLine(s + ([c] + rest), n) == Interrupted
    decreases |s|
  {
    if s != "" {
      LineBreaks(s[1..], c, rest, n - 1);
      assert (s + ([c] + rest))[1..] == s[1..] + ([c] + rest);
    }
  }

  /** A line that fills the buffer is taken as far as it goes, and the rest of it is the next line. */
  lemma {:induction false} LineCut(t: string, n: nat)
    requires n <= |t| && Plain(t[..n])
    ensures ReadLine(t, n) == Line(t[..n], t[n..])
    decreases n
  {
    if n > 0 {
      assert t[0] == t[..n][0] && t[1..][..n - 1] == t[..n][1..] && t[1..][n - 1..] == t[n..];
      LineCut(t[1..], n - 1);
      assert [t[0]] + t[..n][1..] == t[..n];
    }
  }

  /** Without an end the reader waits. */
  lemma {:induction false} LineWaits(s: string, n: nat)
    requires Plain(s) && |s| < n
    ensures ReadLine(s, n) == Pending
    decreases |s|
  {
    if s != "" { LineWaits(s[1..], n - 1); }
  }

  /** The loader's lines hold 516 characters. */
  lemma LineRoom(decode: string -> Decoded, text: string, offset: nat)
    requires |text| >= 516 && Plain(text[..516])
    ensures NextStep(decode, text, offset) == StepFor(decode(text[..516]), text[516..], offset)
  {
    LineCut(text, 516);
  }

  // ----- saving -----

  /** The saver's record i holds the 16 octets from 16 * i on, or what is left of the range. */
  lemma {:induction false} PiecesAre(mem: nat -> byte, a: nat, n: nat, i: nat)
    requires a < WORD && 16 * i < n
    ensures i < |Pieces(mem, a, n)|
    ensures var at := (a + 16 * i) % WORD;
            Pieces(mem, a, n)[i] == Piece(at, Range(mem, at, if n - 16 * i < 16 then n - 16 * i else 16))
    decreases i
  {
    if i > 0 {
      PiecesAre(mem, (a + 16) % WORD, n - 16, i - 1);
      WrapAdd(a + 16, 16 * (i - 1));
      assert a + 16 + 16 * (i - 1) == a + 16 * i;
    }
  }

  // ----- loading -----

  /** What a line with a good record does: data are stored at their address plus the offset, an end record gives the
      entry address, and the others are passed over. */
  lemma KindLoads(typ: char, address: seq<byte>, data: seq<byte>, check: byte, rest: string, offset: nat,
                  s: string, addr: nat)
    requires Addresses(typ, |address|) && typ != '5' && |address| + |data| + 1 < 256 && SumsUp(address, data, check)
    requires s == RecordText(typ, address, data, check) && addr == BigEndian(0, address)
    ensures Load((s + "\n") + rest, offset)
         == if typ in {'1', '2', '3'} then Load(rest, offset).Before([Piece((addr + offset) % WORD, data)])
            else if typ in {'7', '8', '9'} then Done([], addr)
            else Load(rest, offset)
  {
    KindDecodes(typ, address, data, check);
    KindPlain(typ, address, data, check);
    LoadKind(Decode, s, typ, addr, data, rest, offset);
  }

  lemma LoadKind(decode: string -> Decoded, s: string, typ: char, addr: nat, data: seq<byte>, rest: string, offset: nat)
    requires Plain(s) && |s| < MAX_RECORD && decode(s) == Record(typ, addr, |data|, data)
    ensures LoadWith(decode, (s + "\n") + rest, offset)
         == if typ in {'1', '2', '3'} then LoadWith(decode, rest, offset).Before([Piece((addr + offset) % WORD, data)])
            else if typ in {'7', '8', '9'} then Done([], addr)
            else LoadWith(decode, rest, offset)
  {
    LoadLine(decode, s, rest, offset, (s + "\n") + rest);
  }

  lemma KindPlain(typ: char, address: seq<byte>, data: seq<byte>, check: byte)
    requires Addresses(typ, |address|) && |address| + |data| + 1 < 256
    ensures Plain(RecordText(typ, address, data, check)) && |RecordText(typ, address, data, check)| < MAX_RECORD
  {
    HexPlain([|address| + |data| + 1] + address + data + [check]);
  }
}
