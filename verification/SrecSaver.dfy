/** save_serial: a memory range as S-records, byte by byte into the record at hand. */
module SrecSaver {
  import opened Bytes
  import opened SrecText
  import opened SrecTransfer

  // ----- one record -----

  lemma {:induction false} HexAppend(a: seq<byte>, b: seq<byte>)
    ensures Hex(a + b) == Hex(a) + Hex(b)
    decreases |a|
  {
    if a == [] {
      assert a + b == b;
    } else {
      assert (a + b)[1..] == a[1..] + b;
      HexAppend(a[1..], b);
      Associate([Digit(a[0] / 16), Digit(a[0] % 16)], Hex(a[1..]), Hex(b));
    }
  }

  lemma HexOne(b: byte)
    ensures Hex([b]) == [Digit(b / 16), Digit(b % 16)]
  {
    assert [b][1..] == [];
  }

  /** The next byte, in hexadecimal and in the checksum. */
  lemma Collected(mem: nat -> byte, a: nat, k: nat)
    ensures var c := mem((a + k) % WORD);
            && Range(mem, a, k + 1) == Range(mem, a, k) + [c]
            && Hex(Range(mem, a, k + 1)) == Hex(Range(mem, a, k)) + [Digit(c / 16), Digit(c % 16)]
            && Sum(Range(mem, a, k + 1)) == Sum(Range(mem, a, k)) + c
  {
    var c := mem((a + k) % WORD);
    assert Range(mem, a, k + 1) == Range(mem, a, k) + [c];
    HexAppend(Range(mem, a, k), [c]);
    HexOne(c);
    SumAppend(Range(mem, a, k), [c]);
    SumOne(c);
  }

  /** Octet i of a number, counted from the lowest. */
  function Octet(n: nat, i: nat): byte {
    if i == 0 then n % 256 else if i == 1 then n / 0x100 % 256 else if i == 2 then n / 0x1_0000 % 256
    else n / 0x100_0000 % 256
  }

  /** The checksum of a record from the sum of its data. */
  method FinishChecksum(length: nat, address: nat, sum: nat, ghost data: seq<byte>) returns (checksum: byte)
    requires length == |data| + 5 < 256 && address < WORD && sum == Sum(data)
    ensures checksum == Checksum(WordBytes(address), data)
  {
    var total := sum;
    var i := 0;
    while i < 2
      invariant 0 <= i <= 2
      invariant total == sum + if i == 0 then 0 else length
    {
      total := total + Octet(length, i);
      i := i + 1;
    }
    i := 0;
    while i < 4
      invariant 0 <= i <= 4
      invariant total == sum + length + (if i > 0 then address % 256 else 0)
                         + (if i > 1 then address / 0x100 % 256 else 0)
                         + (if i > 2 then address / 0x1_0000 % 256 else 0)
                         + (if i > 3 then address / 0x100_0000 % 256 else 0)
    {
      total := total + Octet(address, i);
      i := i + 1;
    }
    AddressSum(address);
    return 255 - total % 256;
  }

  lemma AddressSum(a: nat)
    requires a < WORD
    ensures Sum(WordBytes(a)) == a % 256 + a / 0x100 % 256 + a / 0x1_0000 % 256 + a / 0x100_0000 % 256
  {
    var b := WordBytes(a);
    SumFour(b[0], b[1], b[2], b[3]);
    assert b == [b[0], b[1], b[2], b[3]];
  }

  lemma SumFour(p: byte, q: byte, r: byte, t: byte)
    ensures Sum([p, q, r, t]) == p as nat + q as nat + r as nat + t as nat
  {
    assert [p, q, r, t][1..] == [q, r, t] && [q, r, t][1..] == [r, t] && [r, t][1..] == [t] && [t][1..] == [];
    SumOne(t);
    assert Sum([r, t]) == r as nat + Sum([t]);
    assert Sum([q, r, t]) == q as nat + Sum([r, t]);
  }

  /** The text of a record: length, address, data and checksum. */
  method BuildRecord(address: nat, hex: string, sum: nat, n: nat, ghost data: seq<byte>) returns (record: string)
    requires address < WORD && n == |data| <= BYTES_PER_RECORD && hex == Hex(data) && sum == Sum(data)
    ensures record == DataRecord(address, data) + "\n"
  {
    var length := 4 + n + 1;
    var checksum := FinishChecksum(length, address, sum, data);
    record := Formatted(length, WordBytes(address), hex, checksum);
    RecordIs(address, data, length, checksum);
  }

  lemma RecordIs(a: nat, data: seq<byte>, length: byte, c: byte)
    requires a < WORD && length == |data| + 5 && |data| <= 250 && c == Checksum(WordBytes(a), data)
    ensures Formatted(length, WordBytes(a), Hex(data), c) == DataRecord(a, data) + "\n"
  {
    FourHex([length], WordBytes(a), data, [c]);
  }

  /** SREC3_FORMAT. */
  function Formatted(length: byte, address: seq<byte>, hex: string, checksum: byte): string {
    ("S3" + Hex([length]) + Hex(address) + hex + Hex([checksum])) + "\n"
  }

  lemma FourHex(a: seq<byte>, b: seq<byte>, c: seq<byte>, d: seq<byte>)
    ensures "S3" + Hex(a) + Hex(b) + Hex(c) + Hex(d) == "S3" + Hex(a + b + c + d)
  {
    HexAppend(a + b + c, d);
    HexAppend(a + b, c);
    HexAppend(a, b);
    FourParts("S3", Hex(a), Hex(b), Hex(c), Hex(d));
  }

  lemma FourParts<T>(s: seq<T>, a: seq<T>, b: seq<T>, c: seq<T>, d: seq<T>)
    ensures s + a + b + c + d == s + (a + b + c + d)
  {
  }

  // ----- the loop -----

  lemma {:induction false} JoinedConcat(a: seq<string>, b: seq<string>)
    ensures Joined(a + b) == Joined(a) + Joined(b)
    decreases |a|
  {
    if a == [] {
      assert a + b == b;
    } else {
      assert (a + b)[1..] == a[1..] + b;
      JoinedConcat(a[1..], b);
      Associate(a[0] + "\n", Joined(a[1..]), Joined(b));
    }
  }

  /** One more line. */
  lemma JoinedNext(lines: seq<string>, m: nat)
    requires m < |lines|
    ensures Joined(lines[..m + 1]) == Joined(lines[..m]) + (lines[m] + "\n")
  {
    assert lines[..m + 1] == lines[..m] + [lines[m]];
    JoinedConcat(lines[..m], [lines[m]]);
    assert [lines[m]][1..] == [];
    assert (lines[m] + "\n") + "" == lines[m] + "\n";
  }

  /** The lines sent so far are the beginning of all of them. */
  lemma JoinedPrefix(lines: seq<string>, m: nat)
    requires m <= |lines|
    ensures Joined(lines[..m]) <= Joined(lines)
  {
    assert lines == lines[..m] + lines[m..];
    JoinedConcat(lines[..m], lines[m..]);
  }

  /** A full record, or the last one, is the next piece. */
  lemma NextPiece(mem: nat -> byte, a: nat, k: nat, c: nat)
    requires a < WORD && 0 < k <= BYTES_PER_RECORD && (k == BYTES_PER_RECORD || c == 0)
    ensures Pieces(mem, a, k + c) == [Piece(a, Range(mem, a, k))] + Pieces(mem, (a + k) % WORD, c)
  {
  }

  /** The lines are the records of the pieces. */
  ghost predicate AreRecords(lines: seq<string>, ps: seq<Piece>) {
    PiecesOk(ps) && lines == Lines(ps)
  }

  /** Where the saver stands: m lines sent, and k bytes collected of a record at address a. */
  ghost predicate Saving(mem: nat -> byte, ps: seq<Piece>, lines: seq<string>, m: nat, a: nat, k: nat, c: nat,
                         hex: string, sum: nat, out: string)
  {
    && m <= |ps| == |lines| && a < WORD && Pieces(mem, a, k + c) == ps[m..]
    && hex == Hex(Range(mem, a, k)) && sum == Sum(Range(mem, a, k))
    && out == Joined(lines[..m])
  }

  /** Sends the collected record. */
  method Dump(ghost mem: nat -> byte, ghost ps: seq<Piece>, ghost lines: seq<string>, ghost m: nat, a: nat, k: nat,
              c: nat, hex: string, sum: nat, out: string) returns (newOut: string)
    requires AreRecords(lines, ps) && Saving(mem, ps, lines, m, a, k, c, hex, sum, out)
    requires 0 < k <= BYTES_PER_RECORD && (k == BYTES_PER_RECORD || c == 0)
    ensures Saving(mem, ps, lines, m + 1, (a + k) % WORD, 0, c, "", 0, newOut)
  {
    var record := BuildRecord(a, hex, sum, k, Range(mem, a, k));
    newOut := out + record;
    NextPiece(mem, a, k, c);
    assert ps[m] == ps[m..][0] == Piece(a, Range(mem, a, k));
    assert ps[m + 1..] == ps[m..][1..];
    JoinedNext(lines, m);
    assert Range(mem, (a + k) % WORD, 0) == [];
  }

  /** The next byte of the range. */
  method Collect(mem: nat -> byte, ghost ps: seq<Piece>, ghost lines: seq<string>, ghost m: nat, a: nat, k: nat, c: nat,
                 hex: string, sum: nat, ghost out: string) returns (newHex: string, newSum: nat)
    requires Saving(mem, ps, lines, m, a, k, c, hex, sum, out) && c > 0
    ensures Saving(mem, ps, lines, m, a, k + 1, c - 1, newHex, newSum, out)
  {
    var b := mem((a + k) % WORD);
    Collected(mem, a, k);
    newSum := sum + b;
    newHex := hex + [Digit(b / 16), Digit(b % 16)];
    assert k + 1 + (c - 1) == k + c;
  }

  /** Some record among the first n is followed by a break. */
  ghost predicate Stops(stop: nat -> bool, n: nat) { exists r | 0 <= r < n :: stop(r) }

  /** One turn of the loop: a byte is collected, and a record that is full or the last one is sent. */
  method Turn(mem: nat -> byte, ghost ps: seq<Piece>, ghost lines: seq<string>, ghost m: nat, a: nat, k: nat, c: nat,
              hex: string, sum: nat, out: string)
    returns (a1: nat, k1: nat, c1: nat, hex1: string, sum1: nat, out1: string, wrote: bool)
    requires AreRecords(lines, ps) && Saving(mem, ps, lines, m, a, k, c, hex, sum, out)
    requires k < BYTES_PER_RECORD
    ensures Saving(mem, ps, lines, if wrote then m + 1 else m, a1, k1, c1, hex1, sum1, out1)
    ensures k1 < BYTES_PER_RECORD && (if c == 0 then c1 == 0 else c1 == c - 1) && (c1 == 0 ==> k1 == 0)
  {
    a1, k1, c1, hex1, sum1, out1, wrote := a, k, c, hex, sum, out, false;
    if c > 0 {
      hex1, sum1 := Collect(mem, ps, lines, m, a, k, c, hex, sum, out);
      k1, c1 := k + 1, c - 1;
    }
    if (k1 == BYTES_PER_RECORD || c1 == 0) && k1 > 0 {
      out1 := Dump(mem, ps, lines, m, a, k1, c1, hex1, sum1, out);
      a1, k1, hex1, sum1, wrote := (a + k1) % WORD, 0, "", 0, true;
    }
  }

  /** The records of the range, until a break on the console; sent counts them and the first line. */
  method SaveRecords(mem: nat -> byte, address: nat, count: nat, stop: nat -> bool, ghost ps: seq<Piece>,
                     ghost lines: seq<string>) returns (ok: bool, out: string, sent: nat)
    requires address < WORD && ps == Pieces(mem, address, count) && AreRecords(lines, ps) && !stop(0)
    ensures 1 <= sent <= 1 + |lines| && out == Joined(lines[..sent - 1])
    ensures if ok then sent == 1 + |lines| && !Stops(stop, sent) else stop(sent - 1)
  {
    var a: nat, k: nat, c: nat, hex, sum: nat := address, 0, count, "", 0;
    out, sent := "", 1;
    SavingStarts(mem, ps, lines, a, c);
    var more := true;
    while more
      invariant k < BYTES_PER_RECORD && (!more ==> k + c == 0)
      invariant sent >= 1 && Saving(mem, ps, lines, sent - 1, a, k, c, hex, sum, out)
      invariant !Stops(stop, sent)
      decreases more, c
    {
      var wrote;
      a, k, c, hex, sum, out, wrote := Turn(mem, ps, lines, sent - 1, a, k, c, hex, sum, out);
      if wrote {
        sent := sent + 1;
        if stop(sent - 1) {
          SavingSent(mem, ps, lines, sent - 1, a, k, c, hex, sum, out);
          return false, out, sent;
        }
      }
      more := c > 0;
    }
    SavingSent(mem, ps, lines, sent - 1, a, k, c, hex, sum, out);
    return true, out, sent;
  }

  lemma SavingStarts(mem: nat -> byte, ps: seq<Piece>, lines: seq<string>, a: nat, n: nat)
    requires a < WORD && ps == Pieces(mem, a, n) && |lines| == |ps|
    ensures Saving(mem, ps, lines, 0, a, 0, n, "", 0, "")
  {
    assert Range(mem, a, 0) == [] && ps[0..] == ps;
  }

  lemma SavingSent(mem: nat -> byte, ps: seq<Piece>, lines: seq<string>, m: nat, a: nat, k: nat, c: nat,
                   hex: string, sum: nat, out: string)
    requires Saving(mem, ps, lines, m, a, k, c, hex, sum, out)
    ensures m <= |lines| && out == Joined(lines[..m]) && (k + c == 0 ==> m == |lines|)
  {
    if k + c == 0 { assert Pieces(mem, a, 0) == []; }
  }

  /** Sends START, the records of the range and END.  A break on the console after any record stops it: the
      text sent is then the beginning of the whole text. */
  method SaveSerial(mem: nat -> byte, address: nat, count: nat, stop: nat -> bool) returns (rc: int, out: string)
    requires address < WORD
    ensures rc == if Stops(stop, |Pieces(mem, address, count)| + 2) then -1 else 0
    ensures rc == 0 ==> out == SaveText(mem, address, count)
    ensures out <= SaveText(mem, address, count)
  {
    PiecesTile(mem, address, count, address);
    ghost var ps := Pieces(mem, address, count);
    rc, out := SendAll(mem, address, count, stop, START + "\n", END + "\n", ps, Lines(ps));
  }

  /** A first line, the records and a last line. */
  method SendAll(mem: nat -> byte, address: nat, count: nat, stop: nat -> bool, first: string, last: string,
                 ghost ps: seq<Piece>, ghost lines: seq<string>) returns (rc: int, out: string)
    requires address < WORD && ps == Pieces(mem, address, count) && AreRecords(lines, ps)
    ensures rc == if Stops(stop, |lines| + 2) then -1 else 0
    ensures rc == 0 ==> out == first + (Joined(lines) + last)
    ensures out <= first + (Joined(lines) + last)
  {
    out := first;
    if stop(0) { return -1, out; }
    var ok, records, sent := SaveRecords(mem, address, count, stop, ps, lines);
    JoinedPrefix(lines, sent - 1);
    Texts(first, records, Joined(lines), last);
    out := out + records;
    if !ok { return -1, out; }
    assert lines[..|lines|] == lines;
    out := out + last;
    rc := if stop(sent) then -1 else 0;
    assert Stops(stop, sent + 1) <==> Stops(stop, sent) || stop(sent);
  }

  lemma Texts(a: string, b: string, c: string, d: string)
    requires b <= c
    ensures a + b <= a + (c + d) && (a + c) + d == a + (c + d)
  {
  }
}
