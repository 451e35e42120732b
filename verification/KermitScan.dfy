/** Which packets the receiver accepts, stated without its scanner, and what damage the block check shows. */
module KermitScan {
  import opened Bytes
  import opened KermitProtocol
  import opened KermitDelivery

  // ----- the block check -----

  /** The check adds the two high bits of the low octet of the sum to its six low bits. */
  lemma CheckFolds(turns: int, high: nat, low: nat)
    requires high < 4 && low < 64
    ensures Check(256 * turns + 64 * high + low) == 32 + (high + low) % 64
  {
    CheckReduce(turns, 64 * high + low);
    assert (64 * high + low) / 64 == high;
    FullTurns(high, low + high);
  }

  /** A sum that is off by one bit of an octet has another check. */
  lemma CheckShowsBit(sum: int, d: int)
    requires d in {1, 2, 4, 8, 16, 32, 64, 128}
    ensures Check(sum + d) != Check(sum)
  {
    var turns, high, low := Folds(sum);
    CheckFolds(turns, high, low);
    if d < 64 {
      LowBit(turns, high, low, d);
    } else {
      HighBit(turns, high, low, d / 64);
    }
  }

  lemma Folds(sum: int) returns (turns: int, high: nat, low: nat)
    ensures sum == 256 * turns + 64 * high + low && high < 4 && low < 64
  {
    turns, high, low := sum / 256, sum % 256 / 64, sum % 256 % 64;
  }

  lemma LowBit(turns: int, high: nat, low: nat, d: nat)
    requires high < 4 && low < 64 && d in {1, 2, 4, 8, 16, 32}
    ensures Check(256 * turns + 64 * high + low + d) != 32 + (high + low) % 64
  {
    if low + d < 64 {
      CheckFolds(turns, high, low + d);
      Apart(high + low + d, high + low);
    } else if high < 3 {
      CheckFolds(turns, high + 1, low + d - 64);
      Apart(high + 1 + low + d - 64, high + low);
    } else {
      CheckFolds(turns + 1, 0, low + d - 64);
      Apart(low + d - 64, high + low);
    }
  }

  lemma HighBit(turns: int, high: nat, low: nat, e: nat)
    requires high < 4 && low < 64 && e in {1, 2}
    ensures Check(256 * turns + 64 * high + low + 64 * e) != 32 + (high + low) % 64
  {
    if high + e < 4 {
      CheckFolds(turns, high + e, low);
      Apart(high + e + low, high + low);
    } else {
      CheckFolds(turns + 1, high + e - 4, low);
      Apart(high + e - 4 + low, high + low);
    }
  }

  lemma Apart(x: int, y: int)
    requires -128 < x - y < 128 && x - y !in {-64, 0, 64}
    ensures x % 64 != y % 64
  {
  }

  // ----- what is accepted -----

  /** The number that two printable characters spell. */
  function Base95(high: int, low: int): int { (high - 32) * 95 + (low - 32) }

  /** From i on: length - 1 data characters, the check of everything summed up, and the end-of-line. */
  predicate Closes(b: seq<byte>, i: nat, length: nat, sum: nat) {
    && 0 < length && i + length < |b| && Printable(b[i..i + length])
    && b[i + length - 1] == Check(sum + Sum(b[i..i + length - 1]))
    && b[i + length] == END_CHAR
  }

  lemma ClosesStep(b: seq<byte>, i: nat, length: nat, sum: nat)
    requires length > 1 && i < |b|
    ensures Closes(b, i, length, sum) <==> !IsControl(b[i]) && Closes(b, i + 1, length - 1, sum + b[i])
  {
    if i + length < |b| {
      var all, more := b[i..i + length], b[i + 1..i + length];
      assert all == [b[i]] + more;
      assert Printable(all) <==> !IsControl(b[i]) && Printable(more) by {
        assert forall k | 0 <= k < |more| :: all[k + 1] == more[k];
        assert all[0] == b[i];
      }
      assert b[i..i + length - 1][1..] == b[i + 1..i + length - 1];
    }
  }

  /** The data loop of the scanner accepts exactly what closes so. */
  lemma {:induction false} ScanDataAccepts(n: byte, typ: byte, b: seq<byte>, i: nat, length: nat, sum: nat,
                                           done: seq<byte>)
    requires i <= |b| && length > 0
    ensures var r := ScanData(n, typ, b, i, length, sum, done);
            if Closes(b, i, length, sum)
            then r == Accept(n, typ, done + b[i..i + length - 1], i + length + 1)
            else !r.Accept?
    decreases length
  {
    if i < |b| {
      if length == 1 {
        assert b[i..i] == [] && done + [] == done;
        assert i + 1 < |b| ==> b[i..i + 1] == [b[i]];
      } else {
        ClosesStep(b, i, length, sum);
        if !IsControl(b[i]) {
          ScanDataAccepts(n, typ, b, i + 1, length - 1, sum + b[i], done + [b[i]]);
          if i + length < |b| {
            assert done + [b[i]] + b[i + 1..i + length - 1] == done + b[i..i + length - 1];
          }
        }
      }
    }
  }

  /** A short packet: the length character counts sequence, type, data and check, or too little for those. */
  predicate ShortPacket(b: seq<byte>, k: nat) {
    && k + 5 <= |b| && SPACE < b[0] && (b[0] - 32 == k + 3 || (b[0] - 32 < 3 && k == 0))
    && Printable(b[..k + 4]) && b[k + 3] == Check(Sum(b[..k + 3])) && b[k + 4] == END_CHAR
  }

  /** An extended packet: a length of zero, two characters that count data and check, and a header check. */
  predicate LongPacket(b: seq<byte>, k: nat) {
    && k + 8 <= |b| && b[0] == SPACE
    && (Base95(b[3], b[4]) == k + 1 || (b[3] == SPACE && b[4] == SPACE && k == 0))
    && Printable(b[..k + 7]) && b[5] == Check(Sum(b[..5]))
    && b[k + 6] == Check(Sum(b[..k + 6])) && b[k + 7] == END_CHAR
  }

  /** What an accepted packet says: the sequence character, the type and the data from i on. */
  function Taken(b: seq<byte>, i: nat, k: nat, used: nat): ScanResult
    requires 2 < |b| && i + k <= |b| && !IsControl(b[1])
  {
    Accept(b[1] - 32, b[2], b[i..i + k], used)
  }

  predicate PrintableHead(b: seq<byte>) { |b| >= 3 && !IsControl(b[0]) && !IsControl(b[1]) && !IsControl(b[2]) }

  lemma HeadPrintable(b: seq<byte>, m: nat)
    requires 3 <= m <= |b|
    ensures Printable(b[..m]) <==> PrintableHead(b) && Printable(b[3..m])
    ensures Sum(b[..m]) == Sum3(b) + Sum(b[3..m])
  {
    var all, head, rest := b[..m], b[..3], b[3..m];
    assert all == head + rest;
    assert forall k | 0 <= k < 3 :: all[k] == b[k];
    assert forall k | 0 <= k < |rest| :: rest[k] == all[k + 3];
    if Printable(rest) && PrintableHead(b) {
      forall k | 0 <= k < m ensures !IsControl(all[k]) { if k >= 3 { assert all[k] == rest[k - 3]; } }
    }
    SumAppend(head, rest);
    SumHead(head);
  }

  lemma ShortCloses(b: seq<byte>, k: nat)
    requires |b| >= 3 && SPACE < b[0] && (b[0] - 32 == k + 3 || (b[0] - 32 < 3 && k == 0))
    ensures ShortPacket(b, k) <==> PrintableHead(b) && Closes(b, 3, k + 1, Sum3(b))
  {
    if k + 5 <= |b| {
      HeadPrintable(b, k + 4);
      HeadPrintable(b, k + 3);
    }
  }

  /** Short packets: accepted exactly if their length character fits. */
  lemma ShortAccepts(b: seq<byte>)
    requires PrintableHead(b) && b[0] != SPACE
    ensures var k := if b[0] - 32 < 3 then 0 else b[0] - 35;
            if ShortPacket(b, k) then Scan(b) == Taken(b, 3, k, k + 5) else !Scan(b).Accept?
  {
    var k: nat := if b[0] - 32 < 3 then 0 else b[0] - 35;
    ShortCloses(b, k);
    ShortScan(b, k, Sum3(b));
  }

  lemma ShortScan(b: seq<byte>, k: nat, sum: nat)
    requires PrintableHead(b) && b[0] != SPACE && k == (if b[0] - 32 < 3 then 0 else b[0] - 35) && sum == Sum3(b)
    ensures if Closes(b, 3, k + 1, sum) then Scan(b) == Taken(b, 3, k, k + 5) else !Scan(b).Accept?
  {
    var n, length := b[1] - 32, b[0] as int - 34;
    ScanDataAccepts(n, b[2], b, 3, k + 1, sum, []);
    if length <= 1 { ScanDataShort(n, b[2], b, 3, length, sum, []); }
    ShortReads(b, n, length, sum);
    if Closes(b, 3, k + 1, sum) { assert [] + b[3..3 + k] == b[3..3 + k]; }
  }

  lemma ShortReads(b: seq<byte>, n: byte, length: int, sum: nat)
    requires PrintableHead(b) && b[0] != SPACE && n == b[1] - 32 && length == b[0] as int - 34 && sum == Sum3(b)
    ensures Scan(b) == ScanData(n, b[2], b, 3, length, sum, [])
  {
    assert UnToChar(b[1]) == n && UnToChar(b[0]) - 2 == length;
  }

  lemma LongHead(b: seq<byte>, m: nat)
    requires 6 <= m <= |b| && PrintableHead(b)
    ensures Printable(b[..m]) <==> !IsControl(b[3]) && !IsControl(b[4]) && !IsControl(b[5]) && Printable(b[6..m])
    ensures Sum(b[..m]) == Sum3(b) + b[3] + b[4] + b[5] + Sum(b[6..m]) && Sum(b[..5]) == Sum3(b) + b[3] + b[4]
  {
    HeadPrintable(b, m);
    HeadPrintable(b, 5);
    HeadPrintable(b[3..], m - 3);
    SumTwo(b[3], b[4]);
    assert b[3..][..m - 3] == b[3..m] && b[3..][3..m - 3] == b[6..m] && b[3..5] == [b[3], b[4]];
  }

  lemma SumTwo(x: byte, y: byte)
    ensures Sum([x, y]) == (x as int) + (y as int)
  {
    assert [x, y][1..] == [y] && [y][1..] == [];
    assert Sum([y]) == y as int;
  }

  lemma LongCloses(b: seq<byte>, k: nat)
    requires |b| >= 6 && PrintableHead(b) && b[0] == SPACE
    requires var v := Base95(b[3], b[4]); v == k + 1 || (b[3] == SPACE && b[4] == SPACE && k == 0)
    ensures LongPacket(b, k) <==>
            && !IsControl(b[3]) && !IsControl(b[4]) && !IsControl(b[5]) && b[5] == Check(Sum3(b) + b[3] + b[4])
            && Closes(b, 6, k + 1, Sum3(b) + b[3] + b[4] + b[5])
  {
    if k + 8 <= |b| {
      LongHead(b, k + 7);
      LongHead(b, k + 6);
    }
  }

  /** Extended packets: accepted exactly if the header check and the two length characters fit. */
  lemma LongAccepts(b: seq<byte>)
    requires PrintableHead(b) && b[0] == SPACE && |b| >= 6 && !IsControl(b[3]) && !IsControl(b[4])
    ensures var v := Base95(b[3], b[4]);
            var k := if v == 0 then 0 else v - 1;
            if LongPacket(b, k) then Scan(b) == Taken(b, 6, k, k + 8) else !Scan(b).Accept?
  {
    var v := Base95(b[3], b[4]);
    var k: nat := if v == 0 then 0 else v - 1;
    LongCloses(b, k);
    LongScan(b, k, Sum3(b) + b[3] + b[4] + b[5]);
  }

  lemma LongScan(b: seq<byte>, k: nat, sum: nat)
    requires PrintableHead(b) && b[0] == SPACE && |b| >= 6 && !IsControl(b[3]) && !IsControl(b[4])
    requires Base95(b[3], b[4]) == k + 1 || (Base95(b[3], b[4]) == 0 && k == 0)
    requires sum == Sum3(b) + b[3] + b[4] + b[5]
    ensures if !IsControl(b[5]) && b[5] == Check(Sum3(b) + b[3] + b[4]) && Closes(b, 6, k + 1, sum)
            then Scan(b) == Taken(b, 6, k, k + 8) else !Scan(b).Accept?
  {
    var n, v := b[1] - 32, Base95(b[3], b[4]);
    ScanDataAccepts(n, b[2], b, 6, k + 1, sum, []);
    if v == 0 { ScanDataShort(n, b[2], b, 6, v, sum, []); }
    LongReads(b, n, v, sum);
    if Closes(b, 6, k + 1, sum) { assert [] + b[6..6 + k] == b[6..6 + k]; }
  }

  lemma LongReads(b: seq<byte>, n: byte, v: int, sum: nat)
    requires PrintableHead(b) && b[0] == SPACE && |b| >= 6 && !IsControl(b[3]) && !IsControl(b[4])
    requires n == b[1] - 32 && v == Base95(b[3], b[4]) && sum == Sum3(b) + b[3] + b[4] + b[5]
    ensures Scan(b) == if IsControl(b[5]) || b[5] != Check(Sum3(b) + b[3] + b[4]) then Reject(n, 6)
                       else ScanData(n, b[2], b, 6, v, sum, [])
  {
    assert UnToChar(b[1]) == n && UnToChar(b[3]) * 95 + UnToChar(b[4]) == v;
    assert Scan(b) == ScanLong(b, n, Sum3(b));
  }

  /** The scanner accepts exactly the short and the extended packets, with the number, type and data they hold. */
  lemma AcceptIff(b: seq<byte>)
    ensures forall k: nat | ShortPacket(b, k) :: PrintableHead(b) && Scan(b) == Taken(b, 3, k, k + 5)
    ensures forall k: nat | LongPacket(b, k) :: PrintableHead(b) && Scan(b) == Taken(b, 6, k, k + 8)
    ensures Scan(b).Accept? ==> var k := |Scan(b).data|; ShortPacket(b, k) || LongPacket(b, k)
  {
    forall k: nat | ShortPacket(b, k) ensures PrintableHead(b) && Scan(b) == Taken(b, 3, k, k + 5) {
      HeadPrintable(b, k + 4);
      ShortAccepts(b);
    }
    forall k: nat | LongPacket(b, k) ensures PrintableHead(b) && Scan(b) == Taken(b, 6, k, k + 8) {
      HeadPrintable(b, k + 7);
      LongHead(b, k + 7);
      LongAccepts(b);
    }
    if Scan(b).Accept? {
      if b[0] != SPACE { ShortAccepts(b); } else { LongAccepts(b); }
    }
  }

  /** Whatever is accepted with a full length character was framed by a sender, octet for octet. */
  lemma AcceptedIsFramed(b: seq<byte>)
    requires Scan(b).Accept?
    ensures var r := Scan(b);
            && 0 < r.used <= |b|
            && (b[0] >= 35 ==> b[..r.used] == Framed(r.n, r.typ, r.data) + [END_CHAR])
            && (b[0] == SPACE && |b| > 4 && b[4] < 127 && !(b[3] == b[4] == SPACE) ==>
                b[..r.used] == FramedLong(Packet(r.n, r.typ, r.data)) + [END_CHAR])
  {
    AcceptIff(b);
    ScanUsed(b);
    var r := Scan(b);
    var k := |r.data|;
    if ShortPacket(b, k) {
      ShortIsFramed(b, k, r);
    } else if b[4] < 127 && !(b[3] == b[4] == SPACE) {
      LongIsFramed(b, k, r);
    }
  }

  lemma ShortIsFramed(b: seq<byte>, k: nat, r: ScanResult)
    requires ShortPacket(b, k) && PrintableHead(b) && r == Taken(b, 3, k, k + 5)
    ensures b[0] >= 35 ==> b[..k + 5] == Framed(r.n, r.typ, r.data) + [END_CHAR]
  {
    var head := b[..k + 3];
    assert b[..k + 5] == head + [b[k + 3], b[k + 4]];
    if b[0] >= 35 { assert head == [ToChar(k + 3), ToChar(r.n), r.typ] + r.data; }
  }

  lemma LongIsFramed(b: seq<byte>, k: nat, r: ScanResult)
    requires LongPacket(b, k) && PrintableHead(b) && r == Taken(b, 6, k, k + 8)
    requires b[4] < 127 && !(b[3] == b[4] == SPACE)
    ensures b[..k + 8] == FramedLong(Packet(r.n, r.typ, r.data)) + [END_CHAR]
  {
    LongSums(b, k);
    LongDigits(b[3], b[4], k + 1);
    LongPieces(b, k);
    HeadIs(b);
    LongShape(Packet(r.n, r.typ, r.data), b[..3], b[3], b[4], b[5], b[k + 6]);
  }

  lemma HeadIs(b: seq<byte>)
    requires PrintableHead(b)
    ensures b[..3] == [b[0], ToChar(b[1] - 32), b[2]]
  {
  }

  lemma LongSums(b: seq<byte>, k: nat)
    requires LongPacket(b, k) && PrintableHead(b)
    ensures b[5] == Check(Sum(b[..3]) + b[3] + b[4])
    ensures b[k + 6] == Check(Sum(b[..3]) + b[3] + b[4] + b[5] + Sum(b[6..k + 6]))
    ensures !IsControl(b[3]) && !IsControl(b[4])
  {
    LongHead(b, k + 7);
    LongHead(b, k + 6);
    SumHead(b[..3]);
    assert Sum3(b[..3]) == Sum3(b);
  }

  lemma LongDigits(high: byte, low: byte, v: nat)
    requires !IsControl(high) && !IsControl(low) && low < 127 && Base95(high, low) == v
    ensures high == ToChar(v / 95) && low == ToChar(v % 95)
  {
    BaseDigits(v, high - 32, low - 32);
  }

  lemma LongShape(p: Packet, head: seq<byte>, high: byte, low: byte, check: byte, last: byte)
    requires head == [SPACE, ToChar(p.n), p.typ]
    requires high == ToChar((|p.data| + 1) / 95) && low == ToChar((|p.data| + 1) % 95)
    requires check == Check(Sum(head) + high + low) && last == Check(Sum(head) + high + low + check + Sum(p.data))
    ensures FramedLong(p) == head + [high, low] + [check] + p.data + [last]
  {
  }

  lemma LongPieces(b: seq<byte>, k: nat)
    requires k + 8 <= |b|
    ensures b[..k + 8] == b[..3] + [b[3], b[4]] + [b[5]] + b[6..k + 6] + [b[k + 6]] + [b[k + 7]]
  {
  }

  lemma BaseDigits(v: nat, high: nat, low: nat)
    requires v == high * 95 + low && low < 95
    ensures v / 95 == high && v % 95 == low
  {
  }

  // ----- damage -----

  /** The octets differ by one bit's worth, as they do when one bit is wrong. */
  predicate OneBit(x: byte, y: byte) {
    x - y in {1, 2, 4, 8, 16, 32, 64, 128} || y - x in {1, 2, 4, 8, 16, 32, 64, 128}
  }

  lemma {:induction false} SumUpdate(s: seq<byte>, i: nat, x: byte)
    requires i < |s|
    ensures Sum(s[i := x]) == Sum(s) - s[i] + x
    decreases |s|
  {
    if i == 0 {
      assert s[i := x][1..] == s[1..];
    } else {
      assert s[i := x][1..] == s[1..][i - 1 := x];
      SumUpdate(s[1..], i - 1, x);
    }
  }

  /** Octets whose check stands right behind them no longer agree with it once one bit of either is wrong. */
  lemma DamageShows(b: seq<byte>, m: nat, i: nat, x: byte)
    requires i <= m < |b| && OneBit(b[i], x) && b[m] == Check(Sum(b[..m]))
    ensures var c := b[i := x]; c[m] != Check(Sum(c[..m]))
  {
    var c := b[i := x];
    if i < m {
      assert c[..m] == b[..m][i := x];
      SumUpdate(b[..m], i, x);
      var before, after := Sum(b[..m]), Sum(c[..m]);
      if x > b[i] { CheckShowsBit(before, x - b[i]); } else { CheckShowsBit(after, b[i] - x); }
    } else {
      assert c[..m] == b[..m];
    }
  }

  /** One wrong bit behind the length character, in the number, the type, the data, a check or the end-of-line of an
      accepted packet, and it is not accepted any more. */
  lemma OneBitShows(b: seq<byte>, i: nat, x: byte)
    requires Scan(b).Accept? && 0 < i < Scan(b).used && i < |b| && OneBit(b[i], x)
    ensures !Scan(b[i := x]).Accept?
  {
    var c, k := b[i := x], |Scan(b).data|;
    AcceptIff(b);
    AcceptIff(c);
    var k' := if Scan(c).Accept? then |Scan(c).data| else 0;
    if ShortPacket(b, k) { ShortDamage(b, k, i, x, k'); } else { LongDamage(b, k, i, x, k'); }
  }

  lemma ShortDamage(b: seq<byte>, k: nat, i: nat, x: byte, k': nat)
    requires ShortPacket(b, k) && 0 < i < k + 5 && OneBit(b[i], x)
    ensures !ShortPacket(b[i := x], k') && !LongPacket(b[i := x], k')
  {
    if i <= k + 3 { DamageShows(b, k + 3, i, x); }
  }

  lemma LongDamage(b: seq<byte>, k: nat, i: nat, x: byte, k': nat)
    requires LongPacket(b, k) && 0 < i < k + 8 && OneBit(b[i], x)
    ensures !ShortPacket(b[i := x], k') && !LongPacket(b[i := x], k')
  {
    if i <= 5 { DamageShows(b, 5, i, x); } else if i <= k + 6 { DamageShows(b, k + 6, i, x); }
  }

  // ----- promptness -----

  lemma {:induction false} ScanDataPrompt(n: byte, typ: byte, b: seq<byte>, i: nat, length: int, sum: nat,
                                          data: seq<byte>)
    requires i <= |b| && !ScanData(n, typ, b, i, length, sum, data).Starved?
    ensures var u := ScanData(n, typ, b, i, length, sum, data).used;
            i < u <= |b| && ScanData(n, typ, b[..u - 1], i, length, sum, data).Starved?
    decreases |b| - i
  {
    ScanDataUsed(n, typ, b, i, length, sum, data);
    if !IsControl(b[i]) && length > 1 { ScanDataPrompt(n, typ, b, i + 1, length - 1, sum + b[i], data + [b[i]]); }
  }

  /** The verdict on a packet falls with the last octet it reads, no earlier. */
  lemma ScanPrompt(b: seq<byte>)
    requires !Scan(b).Starved?
    ensures 0 < Scan(b).used <= |b| && Scan(b[..Scan(b).used - 1]).Starved?
  {
    ScanUsed(b);
    if PrintableHead(b) {
      if b[0] != SPACE {
        ScanDataPrompt(UnToChar(b[1]), b[2], b, 3, UnToChar(b[0]) - 2, Sum3(b), []);
      } else if |b| >= 6 && !IsControl(b[3]) && !IsControl(b[4]) && !IsControl(b[5])
                && b[5] == Check(Sum3(b) + b[3] + b[4]) {
        ScanDataPrompt(UnToChar(b[1]), b[2], b, 6, UnToChar(b[3]) * 95 + UnToChar(b[4]),
                       Sum3(b) + b[3] + b[4] + b[5], []);
      }
    }
  }

  lemma {:induction false} ScanDataCompletes(n: byte, typ: byte, b: seq<byte>, i: nat, length: int, sum: nat,
                                             data: seq<byte>) returns (ext: seq<byte>)
    requires i <= |b| && ScanData(n, typ, b, i, length, sum, data).Starved?
    ensures ScanData(n, typ, b + ext, i, length, sum, data).Accept?
    decreases |b| - i
  {
    if i == |b| {
      var m: nat := if length > 1 then length else 1;
      ext := Filled(b, m, sum);
      ScanDataAccepts(n, typ, b + ext, i, m, sum, data);
      if length <= 1 { ScanDataShort(n, typ, b + ext, i, length, sum, data); }
    } else {
      assert forall e: seq<byte> :: (b + e)[i] == b[i];
      if length > 1 {
        ext := ScanDataCompletes(n, typ, b, i + 1, length - 1, sum + b[i], data + [b[i]]);
      } else {
        ext := [END_CHAR];
      }
    }
  }

  lemma Filled(b: seq<byte>, m: nat, sum: nat) returns (ext: seq<byte>)
    requires m > 0
    ensures Closes(b + ext, |b|, m, sum)
  {
    var filler := seq(m - 1, _ => SPACE);
    var check := CheckFor(sum + Sum(filler));
    ext := filler + [check, END_CHAR];
    Behind(b, filler, check, END_CHAR);
    ClosedBy(b + ext, |b|, filler, check, sum);
  }

  lemma CheckFor(sum: nat) returns (check: byte)
    ensures check == Check(sum) && !IsControl(check)
  {
    check := Check(sum);
    CheckIsPrintable(sum);
  }

  lemma ClosedBy(c: seq<byte>, i: nat, filler: seq<byte>, check: byte, sum: nat)
    requires i + |filler| + 2 == |c| && Printable(filler) && !IsControl(check)
    requires c[i..i + |filler|] == filler && c[i..i + |filler| + 1] == filler + [check]
    requires c[i + |filler|] == check == Check(sum + Sum(filler)) && c[i + |filler| + 1] == END_CHAR
    ensures Closes(c, i, |filler| + 1, sum)
  {
    assert Printable(filler + [check]);
  }

  lemma Behind(b: seq<byte>, filler: seq<byte>, x: byte, y: byte)
    ensures var c, m := b + (filler + [x, y]), |b| + |filler|;
            && |c| == m + 2 && c[|b|..m] == filler && c[|b|..m + 1] == filler + [x] && c[m] == x && c[m + 1] == y
  {
  }

  /** As long as there is no verdict, some continuation would still be accepted. */
  lemma Completable(b: seq<byte>) returns (ext: seq<byte>)
    requires Scan(b).Starved?
    ensures Scan(b + ext).Accept?
    decreases if |b| < 7 then 7 - |b| else 0
  {
    if |b| < 3 {
      ext := CompletesWith(b, 0x42);
    } else if b[0] != SPACE {
      ext := ScanDataCompletes(UnToChar(b[1]), b[2], b, 3, UnToChar(b[0]) - 2, Sum3(b), []);
      SameHead(b, ext);
    } else if |b| < 5 {
      ext := CompletesWith(b, 0x42);
    } else if |b| == 5 {
      CheckIsPrintable(Sum3(b) + b[3] + b[4]);
      ext := CompletesWith(b, Check(Sum3(b) + b[3] + b[4]));
    } else {
      ext := ScanDataCompletes(UnToChar(b[1]), b[2], b, 6, UnToChar(b[3]) * 95 + UnToChar(b[4]),
                               Sum3(b) + b[3] + b[4] + b[5], []);
      SameHead(b, ext);
    }
  }

  lemma SameHead(b: seq<byte>, ext: seq<byte>)
    requires |b| >= 3
    ensures Sum3(b + ext) == Sum3(b)
    ensures forall k | 0 <= k < |b| :: (b + ext)[k] == b[k]
  {
  }

  lemma CompletesWith(b: seq<byte>, c: byte) returns (ext: seq<byte>)
    requires |b| < 6 && Scan(b + [c]).Starved?
    ensures Scan(b + ext).Accept?
    decreases 7 - |b|, 0
  {
    var more := Completable(b + [c]);
    ext := [c] + more;
    Associate(b, [c], more);
  }

  /** The scanner waits exactly as long as the packet can still turn out good. */
  lemma StarvedIff(b: seq<byte>)
    requires !Scan(b).Accept?
    ensures Scan(b).Starved? <==> exists ext: seq<byte> :: Scan(b + ext).Accept?
  {
    if Scan(b).Starved? {
      var ext := Completable(b);
    } else {
      forall ext: seq<byte> ensures !Scan(b + ext).Accept? { ScanPrefix(b, ext); }
    }
  }
}
