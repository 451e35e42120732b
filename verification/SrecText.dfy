/** S-records: the decoder of the loader, the records the saver writes, and the round trip between them. */
module SrecText {
  import opened Bytes
  import opened Options

  const BYTES_PER_RECORD := 16
  const MAX_RECORD := 516

  // ----- hexadecimal -----

  function Digit(n: nat): char
    requires n < 16
  {
    "0123456789ABCDEF"[n]
  }

  /** hex1_bin. */
  function Value(c: char): (r: int)
    ensures -1 <= r < 16
  {
    if '0' <= c <= '9' then c as int - '0' as int
    else if 'a' <= c <= 'f' then c as int + 10 - 'a' as int
    else if 'A' <= c <= 'F' then c as int + 10 - 'A' as int
    else -1
  }

  lemma ValueOfDigit(n: nat)
    requires n < 16
    ensures Value(Digit(n)) == n && Digit(n) != '\0' && Digit(n) != '\r' && Digit(n) != '\n' && Digit(n) != 3 as char
    ensures Digit(n) != 'S'
  {
    assert "0123456789ABCDEF" == ['0', '1', '2', '3', '4', '5', '6', '7', '8', '9', 'A', 'B', 'C', 'D', 'E', 'F'];
  }

  /** hex2_bin at an index; the text is ended by a character that is no digit. */
  function Pair(s: string, i: nat): (r: int)
    ensures -1 <= r < 256
  {
    if i >= |s| || Value(s[i]) < 0 || i + 1 >= |s| || Value(s[i + 1]) < 0 then -1
    else 16 * Value(s[i]) + Value(s[i + 1])
  }

  function Hex(b: seq<byte>): (r: string)
    ensures |r| == 2 * |b|
  {
    if b == [] then "" else [Digit(b[0] / 16), Digit(b[0] % 16)] + Hex(b[1..])
  }

  /** n pairs of digits from an index on. */
  function Octets(s: string, i: nat, n: nat): (r: Option<seq<byte>>)
    ensures r.Some? ==> |r.value| == n
    decreases n
  {
    if n == 0 then Some([])
    else if Pair(s, i) < 0 then None
    else
      var rest := Octets(s, i + 2, n - 1);
      if rest.None? then None else Some([Pair(s, i)] + rest.value)
  }

  // ----- decoding -----

  /** The count may be negative; there are then no data. */
  datatype Decoded = Record(typ: char, addr: nat, count: int, data: seq<byte>) | Empty | NoSrec | BadType | BadSum

  /** Behind the first 'S', or the end. */
  function AfterS(s: string, i: nat): (r: nat)
    requires i <= |s|
    ensures i <= r <= |s|
    decreases |s| - i
  {
    if i == |s| then i else if s[i] == 'S' then i + 1 else AfterS(s, i + 1)
  }

  function AddressLength(typ: char): nat {
    if typ == '3' || typ == '7' then 4
    else if typ == '2' || typ == '8' then 3
    else if typ == '0' || typ == '1' || typ == '5' || typ == '9' then 2
    else 0
  }

  /** The count of data octets that the decoder works out of the length of a record. */
  function DataCount(typ: char, len: int): int { if typ == '5' then 0 else len - AddressLength(typ) - 1 }

  /** The turns of a loop that counts up to n. */
  function Turns(n: int): nat { if n < 0 then 0 else n }

  /** The address so far, shifted in octet by octet. */
  function BigEndian(addr: nat, b: seq<byte>): nat
    decreases |b|
  {
    if b == [] then addr else BigEndian(256 * addr + b[0], b[1..])
  }

  /** The octets of address, data and checksum that the decoder reads. */
  function FieldOctets(typ: char, len: nat): nat { AddressLength(typ) + Turns(DataCount(typ, len)) + 1 }

  /** The record that these octets make, if everything adds up to 0xFF. */
  function Fields(typ: char, len: nat, b: seq<byte>): Decoded
    requires |b| == FieldOctets(typ, len)
  {
    var k := AddressLength(typ);
    if (len + Sum(b)) % 256 != 255 then BadSum
    else Record(typ, BigEndian(0, b[..k]), DataCount(typ, len), b[k..|b| - 1])
  }

  function Decode(s: string): Decoded {
    var i := AfterS(s, 0);
    if i == |s| then Empty
    else if Pair(s, i + 1) < 0 then NoSrec
    else if AddressLength(s[i]) == 0 then BadType
    else
      var b := Octets(s, i + 3, FieldOctets(s[i], Pair(s, i + 1)));
      if b.None? then NoSrec else Fields(s[i], Pair(s, i + 1), b.value)
  }

  // ----- what the saver writes -----

  /** The complement of the sum of length, address and data. */
  function Checksum(address: seq<byte>, data: seq<byte>): byte {
    255 - (|data| + 5 + Sum(address) + Sum(data)) % 256
  }

  /** A data record without its line end. */
  function DataRecord(a: nat, data: seq<byte>): string
    requires a < WORD && |data| <= 250
  {
    "S3" + Hex([|data| + 5] + WordBytes(a) + data + [Checksum(WordBytes(a), data)])
  }

  const START := "S0030000FC"
  const END := "S70500000000FA"

  /** A piece of memory and where it goes. */
  datatype Piece = Piece(addr: nat, data: seq<byte>)

  function Range(mem: nat -> byte, a: nat, n: nat): (r: seq<byte>)
    ensures |r| == n
  {
    seq(n, i requires 0 <= i < n => mem((a + i) % WORD))
  }

  function Pieces(mem: nat -> byte, a: nat, n: nat): (r: seq<Piece>)
    requires a < WORD
    decreases n
  {
    if n == 0 then [] else
      var k := if n < BYTES_PER_RECORD then n else BYTES_PER_RECORD;
      [Piece(a, Range(mem, a, k))] + Pieces(mem, (a + k) % WORD, n - k)
  }

  predicate PiecesOk(ps: seq<Piece>) {
    forall i | 0 <= i < |ps| :: ps[i].addr < WORD && 0 < |ps[i].data| <= BYTES_PER_RECORD
  }

  function Datas(ps: seq<Piece>): seq<byte> {
    if ps == [] then [] else ps[0].data + Datas(ps[1..])
  }

  /** Each piece starts where the one before it ends. */
  predicate Consecutive(ps: seq<Piece>, a: nat) {
    ps == [] || (ps[0].addr == a % WORD && Consecutive(ps[1..], a + |ps[0].data|))
  }

  /** The pieces are consecutive, at most a record long, and together exactly the memory range. */
  lemma {:induction false} PiecesTile(mem: nat -> byte, a: nat, n: nat, base: nat)
    requires a < WORD && base % WORD == a
    ensures var ps := Pieces(mem, a, n);
            PiecesOk(ps) && Consecutive(ps, base) && Datas(ps) == Range(mem, a, n)
    decreases n
  {
    if n > 0 {
      var k := if n < BYTES_PER_RECORD then n else BYTES_PER_RECORD;
      var first, rest := Piece(a, Range(mem, a, k)), Pieces(mem, (a + k) % WORD, n - k);
      WrapAdd(base, k);
      PiecesTile(mem, (a + k) % WORD, n - k, base + k);
      assert ([first] + rest)[1..] == rest;
      RangeSplit(mem, a, k, n);
    }
  }

  lemma RangeSplit(mem: nat -> byte, a: nat, k: nat, n: nat)
    requires k <= n
    ensures Range(mem, a, n) == Range(mem, a, k) + Range(mem, (a + k) % WORD, n - k)
  {
    forall i | k <= i < n ensures Range(mem, a, n)[i] == Range(mem, (a + k) % WORD, n - k)[i - k] {
      WrapAdd(a + k, i - k);
    }
  }

  // ----- the round trip of a record -----

  lemma PairOf(s: string, i: nat, b: byte)
    requires i + 1 < |s| && s[i] == Digit(b / 16) && s[i + 1] == Digit(b % 16)
    ensures Pair(s, i) == b
  {
    ValueOfDigit(b / 16);
    ValueOfDigit(b % 16);
  }

  /** The digits of the first octet, and the others behind them. */
  lemma HexHead(s: string, i: nat, b: seq<byte>)
    requires b != [] && i + 2 * |b| <= |s| && s[i..i + 2 * |b|] == Hex(b)
    ensures s[i] == Digit(b[0] / 16) && s[i + 1] == Digit(b[0] % 16)
    ensures s[i + 2..i + 2 * |b|] == Hex(b[1..])
  {
    var t := s[i..i + 2 * |b|];
    assert t[0] == s[i] && t[1] == s[i + 1] && t[2..] == s[i + 2..i + 2 * |b|];
  }

  /** Reading back octets that are written at an index. */
  lemma {:induction false} OctetsOfHex(s: string, i: nat, b: seq<byte>)
    requires i + 2 * |b| <= |s| && s[i..i + 2 * |b|] == Hex(b)
    ensures Octets(s, i, |b|) == Some(b)
    decreases |b|
  {
    if b != [] {
      HexHead(s, i, b);
      PairOf(s, i, b[0]);
      OctetsOfHex(s, i + 2, b[1..]);
      NextOctet(s, i, b);
    }
  }

  /** One more octet in front. */
  lemma NextOctet(s: string, i: nat, b: seq<byte>)
    requires b != [] && Pair(s, i) == b[0] && Octets(s, i + 2, |b| - 1) == Some(b[1..])
    ensures Octets(s, i, |b|) == Some(b) && Sum(b) == b[0] as nat + Sum(b[1..])
  {
    assert [b[0]] + b[1..] == b;
  }

  lemma BigEndianAddress(a: nat)
    requires a < WORD
    ensures BigEndian(0, WordBytes(a)) == a
  {
    var b := WordBytes(a);
    assert b[1..] == [b[1], b[2], b[3]] && [b[1], b[2], b[3]][1..] == [b[2], b[3]];
    assert [b[2], b[3]][1..] == [b[3]] && [b[3]][1..] == [];
    var x: nat := 256 * (b[0] as nat) + b[1];
    var y: nat := 256 * x + b[2];
    var z: nat := 256 * y + b[3];
    assert BigEndian(y, [b[3]]) == BigEndian(z, []) == z;
    assert BigEndian(x, [b[2], b[3]]) == z;
    assert BigEndian(0, b) == BigEndian(b[0], [b[1], b[2], b[3]]);
    FourOctets(a);
  }

  lemma Complement(t: nat)
    ensures (t + (255 - t % 256)) % 256 == 255
  {
  }

  /** Length, address, data and checksum of a record add up to 0xFF, modulo 256. */
  lemma ChecksumSums(address: seq<byte>, data: seq<byte>)
    ensures (|data| + 5 + Sum(address + data + [Checksum(address, data)])) % 256 == 255
  {
    var c := Checksum(address, data);
    SumAppend(address + data, [c]);
    SumAppend(address, data);
    SumOne(c);
    Complement(|data| + 5 + Sum(address) + Sum(data));
  }

  lemma SumOne(c: byte)
    ensures Sum([c]) == c
  {
    assert [c][1..] == [];
  }

  /** Every record the saver writes is decoded to its address and data. */
  lemma RecordRoundTrip(a: nat, data: seq<byte>)
    requires a < WORD && |data| <= 250
    ensures Decode(DataRecord(a, data)) == Record('3', a, |data|, data)
  {
    var tail := WordBytes(a) + data + [Checksum(WordBytes(a), data)];
    ChecksumSums(WordBytes(a), data);
    BigEndianAddress(a);
    assert tail[..4] == WordBytes(a) && tail[4..4 + |data|] == data;
    assert [|data| + 5] + WordBytes(a) + data + [Checksum(WordBytes(a), data)] == [|data| + 5] + tail;
    DecodeTail(DataRecord(a, data), '3', tail);
  }

  /** Decoding a record whose length counts the octets behind it and whose sum is right. */
  lemma DecodeTail(s: string, typ: char, tail: seq<byte>)
    requires |tail| < 256 && s == ['S', typ] + Hex([|tail|] + tail)
    requires AddressLength(typ) > 0 && |tail| >= AddressLength(typ) + 1 && typ != '5'
    requires (|tail| + Sum(tail)) % 256 == 255
    ensures var k := AddressLength(typ);
            Decode(s) == Record(typ, BigEndian(0, tail[..k]), |tail| - k - 1, tail[k..|tail| - 1])
  {
    TypeAndLength(s, typ, |tail|, tail);
    DecodeOctets(s, typ, tail);
  }

  lemma DecodeOctets(s: string, typ: char, tail: seq<byte>)
    requires |s| > 2 && s[0] == 'S' && s[1] == typ && Pair(s, 2) == |tail| && Octets(s, 4, |tail|) == Some(tail)
    requires AddressLength(typ) > 0 && |tail| >= AddressLength(typ) + 1 && typ != '5'
    requires (|tail| + Sum(tail)) % 256 == 255
    ensures var k := AddressLength(typ);
            Decode(s) == Record(typ, BigEndian(0, tail[..k]), |tail| - k - 1, tail[k..|tail| - 1])
  {
    assert FieldOctets(typ, |tail|) == |tail|;
    DecodeFrom(s, typ, |tail|, tail);
    GoodFields(typ, tail);
  }

  lemma GoodFields(typ: char, tail: seq<byte>)
    requires |tail| >= AddressLength(typ) + 1 && typ != '5' && (|tail| + Sum(tail)) % 256 == 255
    ensures var k := AddressLength(typ);
            Fields(typ, |tail|, tail) == Record(typ, BigEndian(0, tail[..k]), |tail| - k - 1, tail[k..|tail| - 1])
  {
  }

  /** Decoding a record from the octets behind its length. */
  lemma DecodeFrom(s: string, typ: char, len: byte, b: seq<byte>)
    requires |s| > 2 && s[0] == 'S' && s[1] == typ && Pair(s, 2) == len && AddressLength(typ) > 0
    requires Octets(s, 4, FieldOctets(typ, len)) == Some(b)
    ensures Decode(s) == Fields(typ, len, b)
  {
    assert AfterS(s, 0) == 1;
  }

  /** Reading a record up to its length, and the octets behind it. */
  lemma TypeAndLength(s: string, typ: char, len: byte, tail: seq<byte>)
    requires s == ['S', typ] + Hex([len] + tail)
    ensures |s| > 2 && s[0] == 'S' && s[1] == typ && Pair(s, 2) == len
    ensures Octets(s, 4, |tail|) == Some(tail)
  {
    var b := [len] + tail;
    assert b[1..] == tail && s[2..2 + 2 * |b|] == Hex(b);
    HexHead(s, 2, b);
    PairOf(s, 2, len);
    OctetsOfHex(s, 4, tail);
  }
}
