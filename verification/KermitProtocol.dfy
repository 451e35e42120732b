/** The Kermit packet layer of `loadb`: the packet grammar that the receiver scans, the control
    quoting codec, the replies, and the receiver as a function from console input to outcome. */
module KermitProtocol {
  import opened Bytes

  const START_CHAR: byte := 0x01
  const ETX_CHAR: byte := 0x03
  const END_CHAR: byte := 0x0D
  const SPACE: byte := 0x20
  const K_ESCAPE: byte := 0x23
  const SEND_TYPE: byte := 0x53   // 'S'
  const DATA_TYPE: byte := 0x44   // 'D'
  const ACK_TYPE: byte := 0x59    // 'Y'
  const NACK_TYPE: byte := 0x4E   // 'N'
  const BREAK_TYPE: byte := 0x42  // 'B'
  const SEND_DATA_SIZE := 20

  function ToChar(x: int): byte { (x + SPACE) % 256 }

  function UnToChar(c: byte): byte { (c - SPACE) % 256 }

  /** The test (c & 0xE0) == 0. */
  predicate IsControl(c: byte) { c < 32 }

  /** The type-1 block check of a sum of octets, as a printable character. */
  function Check(sum: int): byte { ToChar((sum + (sum / 64) % 4) % 64) }

  function Sum3(b: seq<byte>): nat
    requires |b| >= 3
  {
    (b[0] as int) + (b[1] as int) + (b[2] as int)
  }

  // ----- scanning one packet -----

  /** What reading one packet (the octets after START_CHAR) leads to. `used` counts the octets read. */
  datatype ScanResult =
    | Starved                                                  // input ended inside the packet
    | Early(used: nat)                                         // bad length or sequence character
    | Reject(n: byte, used: nat)                               // bad after the sequence number
    | Accept(n: byte, typ: byte, data: seq<byte>, used: nat)

  function Scan(b: seq<byte>): ScanResult {
    if |b| < 1 then Starved
    else if IsControl(b[0]) then Early(1)
    else if |b| < 2 then Starved
    else if IsControl(b[1]) then Early(2)
    else if |b| < 3 then Starved
    else if IsControl(b[2]) then Reject(UnToChar(b[1]), 3)
    else
      var sum := Sum3(b);
      if b[0] == SPACE then ScanLong(b, UnToChar(b[1]), sum)
      else ScanData(UnToChar(b[1]), b[2], b, 3, UnToChar(b[0]) - 2, sum, [])
  }

  /** A length character of zero announces two more length characters and a header check. */
  function ScanLong(b: seq<byte>, n: byte, sum: nat): ScanResult
    requires |b| >= 3
  {
    if |b| < 4 then Starved
    else if IsControl(b[3]) then Reject(n, 4)
    else if |b| < 5 then Starved
    else if IsControl(b[4]) then Reject(n, 5)
    else if |b| < 6 then Starved
    else if IsControl(b[5]) || b[5] != Check(sum + b[3] + b[4]) then Reject(n, 6)
    else ScanData(n, b[2], b, 6, UnToChar(b[3]) * 95 + UnToChar(b[4]), sum + b[3] + b[4] + b[5], [])
  }

  /** The data characters, the block check and the end-of-line. */
  function ScanData(n: byte, typ: byte, b: seq<byte>, i: nat, length: int, sum: nat, data: seq<byte>): ScanResult
    requires i <= |b|
    decreases |b| - i
  {
    if i == |b| then Starved
    else if IsControl(b[i]) then Reject(n, i + 1)
    else if length > 1 then ScanData(n, typ, b, i + 1, length - 1, sum + b[i], data + [b[i]])
    else if b[i] != Check(sum) then Reject(n, i + 1)
    else if i + 1 == |b| then Starved
    else if b[i + 1] != END_CHAR then Reject(n, i + 2)
    else Accept(n, typ, data, i + 2)
  }

  // ----- control quoting -----

  /** Undoes the quoting of one character. */
  function Ktrans(c: byte): byte {
    if (c / 32) % 4 == 2 then c - 64        // (in & 0x60) == 0x40
    else if c % 128 == 63 then c + 64       // (in & 0x7f) == 0x3f
    else c
  }

  /** The output so far and whether the last character was an unresolved quote. */
  datatype Link = Link(out: seq<byte>, escape: bool)

  function FeedChar(l: Link, c: byte, quote: byte): Link {
    if l.escape then Link(l.out + [Ktrans(c)], false)
    else if c == quote then l.(escape := true)
    else l.(out := l.out + [c])
  }

  function Feed(l: Link, data: seq<byte>, quote: byte): Link {
    if data == [] then l else FeedChar(Feed(l, data[..|data| - 1], quote), data[|data| - 1], quote)
  }

  // ----- session state -----

  datatype Params = Params(quote: byte, eol: byte, padCount: nat, padChar: byte)

  const DEFAULT_PARAMS := Params(K_ESCAPE, END_CHAR, 0, 0)

  datatype Session = Session(cur: Link, saved: Link, lastN: int, n: byte, params: Params, sent: seq<byte>)

  const EMPTY_LINK := Link([], false)
  const INITIAL := Session(EMPTY_LINK, EMPTY_LINK, -1, 0, DEFAULT_PARAMS, [])

  /** How many initiation parameters are honoured: the parameter buffer has 20 cells, the last one is
      where surplus characters land, and a full buffer loses one more. */
  function ParmCount(data: seq<byte>): nat {
    if |data| >= SEND_DATA_SIZE - 1 then SEND_DATA_SIZE - 2 else |data|
  }

  function Negotiate(data: seq<byte>): Params {
    var k := ParmCount(data);
    Params(if k >= 6 then data[5] else K_ESCAPE,
           if k >= 5 then UnToChar(data[4]) else END_CHAR,
           if k >= 3 then UnToChar(data[2]) else 0,
           if k >= 4 then Ktrans(data[3]) else 0)
  }

  /** Everything this receiver can answer to an initiation packet. */
  const CAPABILITIES: seq<byte> :=
    [ToChar(94), ToChar(1), ToChar(0), 0x40, ToChar(END_CHAR), 0x23, 0x4E, 0x31, 0x4E,
     ToChar(2), ToChar(0), ToChar(94), ToChar(94)]

  /** One answer per parameter received; the tenth draws the four capability octets at once. */
  function InitPayload(data: seq<byte>): seq<byte> {
    var k := ParmCount(data);
    if k >= 10 then CAPABILITIES else CAPABILITIES[..k]
  }

  /** A packet without START_CHAR and end-of-line: length, sequence, type, data, block check. */
  function Framed(n: byte, typ: byte, data: seq<byte>): seq<byte> {
    var head := [ToChar(|data| + 3), ToChar(n), typ] + data;
    head + [Check(Sum(head))]
  }

  function Pad(count: nat, c: byte): seq<byte> { seq(count, _ => c) }

  /** A reply as transmitted: a NUL end-of-line character ends the C string before it. */
  function Reply(p: Params, n: byte, typ: byte, payload: seq<byte>): seq<byte> {
    Pad(p.padCount, p.padChar) + [START_CHAR] + Framed(n, typ, payload) + if p.eol == 0 then [] else [p.eol]
  }

  // ----- the receiver -----

  function Checkpoint(st: Session, n: byte): Session {
    if n == st.lastN then st.(cur := st.saved, n := n)
    else st.(saved := st.cur, lastN := n, n := n)
  }

  function Nacked(st: Session): Session {
    st.(cur := st.saved, sent := st.sent + Reply(st.params, st.n, NACK_TYPE, []))
  }

  function Accepted(st: Session, n: byte, typ: byte, data: seq<byte>): Session {
    var s := Checkpoint(st, n);
    if typ == SEND_TYPE then
      s.(params := Negotiate(data), sent := s.sent + Reply(Negotiate(data), n, ACK_TYPE, InitPayload(data)))
    else
      s.(cur := if typ == DATA_TYPE then Feed(s.cur, data, s.params.quote) else s.cur,
         sent := s.sent + Reply(s.params, n, ACK_TYPE, []))
  }

  /** The session after one packet that the scanner judged as `r`. */
  function Advance(st: Session, r: ScanResult): Session {
    match r
    case Starved => st
    case Early(_) => Nacked(st)
    case Reject(n, _) => Nacked(Checkpoint(st, n))
    case Accept(n, typ, data, _) => Accepted(st, n, typ, data)
  }

  predicate IsBreak(r: ScanResult) { r.Accept? && r.typ == BREAK_TYPE }

  datatype Outcome = Done(st: Session) | Aborted(st: Session) | Waiting

  function Run(st: Session, input: seq<byte>): Outcome
    decreases |input|
  {
    if input == [] then Waiting
    else if input[0] == ETX_CHAR then Aborted(st)
    else if input[0] != START_CHAR then Run(st, input[1..])
    else
      var b := input[1..];
      var r := Scan(b);
      ScanUsed(b);
      if r.Starved? then Waiting
      else if IsBreak(r) then Done(Advance(st, r))
      else Run(Advance(st, r), b[r.used..])
  }

  // ----- facts about the block check and scanning -----

  /** Whole turns of 256 do not show in the block check, so summing signed or unsigned chars is the same. */
  lemma CheckModulo(sum: int, turns: int)
    ensures Check(sum - 256 * turns) == Check(sum)
  {
    CheckReduce(sum / 256, sum % 256);
    CheckReduce(sum / 256 - turns, sum % 256);
  }

  lemma CheckReduce(q: int, r: int)
    requires 0 <= r < 256
    ensures Check(256 * q + r) == Check(r)
  {
    Quarters(q, r);
    FullTurns(4 * q, r + r / 64);
  }

  lemma Quarters(q: int, r: int)
    requires 0 <= r < 256
    ensures (256 * q + r) / 64 % 4 == r / 64
  {
    assert (256 * q + r) / 64 == 4 * q + r / 64;
  }

  lemma FullTurns(k: int, x: int)
    ensures (64 * k + x) % 64 == x % 64
  {
  }

  /** The scanner never reads past its input and always reads at least one octet. */
  lemma ScanUsed(b: seq<byte>)
    ensures var r := Scan(b); !r.Starved? ==> 0 < r.used <= |b|
  {
    if |b| >= 3 && !IsControl(b[0]) && !IsControl(b[1]) && !IsControl(b[2]) {
      var sum := Sum3(b);
      if b[0] != SPACE {
        ScanDataUsed(UnToChar(b[1]), b[2], b, 3, UnToChar(b[0]) - 2, sum, []);
      } else if |b| >= 6 {
        ScanDataUsed(UnToChar(b[1]), b[2], b, 6, UnToChar(b[3]) * 95 + UnToChar(b[4]), sum + b[3] + b[4] + b[5], []);
      }
    }
  }

  lemma {:induction false} ScanDataUsed(n: byte, typ: byte, b: seq<byte>, i: nat, length: int, sum: nat,
                                        data: seq<byte>)
    requires i <= |b|
    ensures var r := ScanData(n, typ, b, i, length, sum, data);
            (r.Starved? || r.Reject? || r.Accept?) && (!r.Starved? ==> 0 < r.used <= |b|)
    decreases |b| - i
  {
    if i < |b| && !IsControl(b[i]) && length > 1 {
      ScanDataUsed(n, typ, b, i + 1, length - 1, sum + b[i], data + [b[i]]);
    }
  }

  /** Below two, the length field no longer matters: only check and end-of-line are to come. */
  lemma ScanDataShort(n: byte, typ: byte, b: seq<byte>, i: nat, length: int, sum: nat, data: seq<byte>)
    requires i <= |b| && length <= 1
    ensures ScanData(n, typ, b, i, length, sum, data) == ScanData(n, typ, b, i, 1, sum, data)
  {
  }

  lemma {:induction false} ScanDataKeepsN(n: byte, typ: byte, b: seq<byte>, i: nat, length: int, sum: nat,
                                          data: seq<byte>)
    requires i <= |b|
    ensures var r := ScanData(n, typ, b, i, length, sum, data);
            (r.Reject? ==> r.n == n) && (r.Accept? ==> r.n == n && r.typ == typ)
    decreases |b| - i
  {
    if i < |b| && !IsControl(b[i]) && length > 1 {
      ScanDataKeepsN(n, typ, b, i + 1, length - 1, sum + b[i], data + [b[i]]);
    }
  }

  /** A verdict reached on a prefix of the input stands whatever follows. */
  lemma ScanPrefix(b: seq<byte>, rest: seq<byte>)
    requires !Scan(b).Starved?
    ensures Scan(b + rest) == Scan(b)
  {
    var c := b + rest;
    if |b| >= 3 && !IsControl(b[0]) && !IsControl(b[1]) && !IsControl(b[2]) {
      var sum := Sum3(b);
      if b[0] != SPACE {
        ScanDataPrefix(UnToChar(b[1]), b[2], b, rest, 3, UnToChar(b[0]) - 2, sum, []);
      } else if |b| >= 6 {
        ScanDataPrefix(UnToChar(b[1]), b[2], b, rest, 6, UnToChar(b[3]) * 95 + UnToChar(b[4]),
                       sum + b[3] + b[4] + b[5], []);
      }
    }
  }

  lemma {:induction false} ScanDataPrefix(n: byte, typ: byte, b: seq<byte>, rest: seq<byte>, i: nat, length: int,
                                          sum: nat, data: seq<byte>)
    requires i <= |b|
    ensures var r := ScanData(n, typ, b, i, length, sum, data);
            !r.Starved? ==> ScanData(n, typ, b + rest, i, length, sum, data) == r
    decreases |b| - i
  {
    if i < |b| {
      assert (b + rest)[i] == b[i];
      if !IsControl(b[i]) && length > 1 {
        ScanDataPrefix(n, typ, b, rest, i + 1, length - 1, sum + b[i], data + [b[i]]);
      }
    }
  }

  /** Nothing in a framed packet can end the C string it is sent as. */
  lemma FramedHasNoNul(n: byte, typ: byte, payload: seq<byte>)
    requires n < 224 && typ != 0 && 0 !in payload && |payload| <= 20
    ensures 0 !in [ToChar(|payload| + 3), ToChar(n), typ] + payload
    ensures 0 !in Framed(n, typ, payload)
  {
  }
}
