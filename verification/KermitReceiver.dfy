/** `k_recv` as it runs: characters come from the console one at a time, data goes straight into RAM
    before the packet is known to be good, and a checkpoint of the write pointer and the escape flag
    undoes what a bad or repeated packet wrote. */
module KermitReceiver {
  import opened Bytes
  import opened KermitProtocol

  const REPLY_SIZE := 24

  /** How a packet ended: console input exhausted, error, or block check and end-of-line good. */
  datatype Rest = RestStarved | RestBad | RestGood

  datatype Step = Block | Cancel | Stop | Continue

  datatype Verdict = Starve | More | Finished

  /** What a write above some bytes leaves of them. */
  lemma SameBelow(a: array<byte>, before: seq<byte>, lo: nat, hi: nat)
    requires |before| <= a.Length && (forall k | 0 <= k < |before| :: a[k] == before[k]) && lo <= hi <= |before|
    ensures a[lo..hi] == before[lo..hi]
  {
  }

  datatype Result = Size(size: nat) | Cancelled | Blocked

  class Receiver {
    const ram: array<byte>
    const start: nat                 // bin_start_address
    const signedChar: bool           // whether char is signed on this machine

    var input: seq<byte>             // console input
    var pos: nat                     // how much of it getc() has returned
    var sent: seq<byte>              // console output

    var hisEol: byte
    var hisPadCount: nat
    var hisPadChar: byte
    var hisQuote: byte

    var osDataAddr: nat
    var osDataAddrSaved: nat
    var kDataEscape: bool
    var kDataEscapeSaved: bool

    const aB: array<byte>            // the reply buffer
    const sendParms: array<byte>     // initiation parameters received
    var sendPtr: nat

    ghost predicate Valid()
      reads this
    {
      && aB.Length == REPLY_SIZE && sendParms.Length == SEND_DATA_SIZE
      && ram != aB && ram != sendParms && aB != sendParms
      && start <= osDataAddrSaved <= osDataAddr
      && pos <= |input|
      && osDataAddr + (|input| - pos) <= ram.Length   // the load area has room for what may still arrive
    }

    ghost function Cur(): Link
      requires Valid()
      reads this, ram
    {
      Link(ram[start..osDataAddr], kDataEscape)
    }

    ghost function Saved(): Link
      requires Valid()
      reads this, ram
    {
      Link(ram[start..osDataAddrSaved], kDataEscapeSaved)
    }

    ghost function Negotiated(): Params
      reads this
    {
      Params(hisQuote, hisEol, hisPadCount, hisPadChar)
    }

    ghost function View(lastN: int, n: byte): Session
      requires Valid()
      reads this, ram
    {
      Session(Cur(), Saved(), lastN, n, Negotiated(), sent)
    }

    constructor (ram: array<byte>, start: nat, signedChar: bool, input: seq<byte>)
      requires start + |input| <= ram.Length
      ensures Valid() && this.ram == ram && this.start == start && this.input == input && pos == 0 && sent == []
      ensures fresh(aB) && fresh(sendParms)
    {
      this.ram, this.start, this.signedChar := ram, start, signedChar;
      this.input, pos, sent := input, 0, [];
      hisEol, hisPadCount, hisPadChar, hisQuote := END_CHAR, 0, 0, K_ESCAPE;
      osDataAddr, osDataAddrSaved := start, start;
      kDataEscape, kDataEscapeSaved := false, false;
      aB := new byte[REPLY_SIZE];
      sendParms := new byte[SEND_DATA_SIZE];
      sendPtr := 0;
    }

    method GetC() returns (c: byte)
      requires Valid() && pos < |input|
      modifies this`pos
      ensures Valid() && pos == old(pos) + 1 && c == input[old(pos)]
    {
      c := input[pos];
      pos := pos + 1;
    }

    // ----- k_data_* and os_data_* -----

    method KDataSave()
      requires Valid()
      modifies this`osDataAddrSaved, this`kDataEscapeSaved
      ensures Valid() && Saved() == Cur() == old(Cur())
    {
      kDataEscapeSaved := kDataEscape;
      osDataAddrSaved := osDataAddr;
    }

    method KDataRestore()
      requires Valid()
      modifies this`osDataAddr, this`kDataEscape
      ensures Valid() && Cur() == Saved() == old(Saved())
    {
      kDataEscape := kDataEscapeSaved;
      osDataAddr := osDataAddrSaved;
    }

    /** One data character: the write lands behind everything a checkpoint protects. */
    method KDataChar(c: byte)
      requires Valid() && osDataAddr < ram.Length - (|input| - pos)
      modifies this`osDataAddr, this`kDataEscape, ram
      ensures Valid()
      ensures Cur() == FeedChar(old(Cur()), c, hisQuote)
      ensures Saved() == old(Saved())
      ensures osDataAddr <= old(osDataAddr) + 1
    {
      ghost var before := ram[..osDataAddr];
      if kDataEscape {
        ram[osDataAddr] := Ktrans(c);
        osDataAddr := osDataAddr + 1;
        kDataEscape := false;
      } else if c == hisQuote {
        kDataEscape := true;
      } else {
        ram[osDataAddr] := c;
        osDataAddr := osDataAddr + 1;
      }
      SameBelow(ram, before, start, osDataAddrSaved);
      SameBelow(ram, before, start, |before|);
    }

    // ----- replies -----

    /** The block check over the C string at `from`; `total` may go negative where char is signed. */
    method Chk1(from: nat, ghost end: nat) returns (c: int)
      requires Valid() && from <= end < REPLY_SIZE && aB[end] == 0 && 0 !in aB[from..end]
      ensures ToChar(c) == Check(Sum(aB[from..end]))
    {
      var total: int := 0;
      ghost var turns: int := 0;
      var i := from;
      while aB[i] != 0
        invariant from <= i <= end
        invariant total == Sum(aB[from..i]) - 256 * turns
        decreases end - i
      {
        var ch: int := aB[i];
        if signedChar && ch >= 128 {
          ch, turns := ch - 256, turns + 1;
        }
        total := total + ch;
        assert aB[from..i + 1] == aB[from..i] + [aB[i]];
        SumAppend(aB[from..i], [aB[i]]);
        i := i + 1;
      }
      c := (total + (total / 64) % 4) % 64;
      CheckModulo(Sum(aB[from..end]), turns);
    }

    method S1SendPacket(ghost end: nat)
      requires Valid() && end < REPLY_SIZE && aB[end] == 0 && 0 !in aB[..end]
      modifies this`sent
      ensures sent == old(sent) + Pad(hisPadCount, hisPadChar) + aB[..end]
    {
      var count := 0;
      while count < hisPadCount
        invariant count <= hisPadCount && sent == old(sent) + Pad(count, hisPadChar)
      {
        sent := sent + [hisPadChar];
        count := count + 1;
        assert Pad(count, hisPadChar) == Pad(count - 1, hisPadChar) + [hisPadChar];
      }
      var k := 0;
      while aB[k] != 0
        invariant k <= end && sent == old(sent) + Pad(hisPadCount, hisPadChar) + aB[..k]
        decreases end - k
      {
        sent := sent + [aB[k]];
        assert aB[..k + 1] == aB[..k] + [aB[k]];
        k := k + 1;
      }
    }

    method PutHeader(n: byte, typ: byte, length: nat)
      requires Valid() && 3 <= length <= REPLY_SIZE - 4
      modifies aB
      ensures Valid() && aB[length + 1] == 0
      ensures aB[..length + 1] == [START_CHAR, ToChar(length), ToChar(n), typ] + old(aB[4..length + 1])
    {
      aB[0] := START_CHAR;
      aB[1] := ToChar(length);
      aB[2] := ToChar(n);
      aB[3] := typ;
      aB[length + 1] := 0;
      assert aB[4..length + 1] == old(aB[4..length + 1]);
    }

    method PutTrailer(check: byte, length: nat)
      requires Valid() && 3 <= length <= REPLY_SIZE - 4
      modifies aB
      ensures Valid() && aB[length + 3] == 0
      ensures aB[..length + 3] == old(aB[..length + 1]) + [check, hisEol]
    {
      aB[length + 1] := check;
      aB[length + 2] := hisEol;
      aB[length + 3] := 0;
    }

    /** A reply in the buffer, as far as its first NUL. */
    ghost function Buffered(n: byte, typ: byte, payload: seq<byte>): seq<byte>
      reads this
    {
      [START_CHAR] + Framed(n, typ, payload) + if hisEol == 0 then [] else [hisEol]
    }

    method Build(n: byte, typ: byte, length: nat)
      requires Valid() && n < 224 && typ != 0 && 3 <= length <= REPLY_SIZE - 4
      requires 0 !in aB[4..length + 1]
      modifies aB
      ensures Valid()
      ensures var whole := Buffered(n, typ, old(aB[4..length + 1]));
              |whole| < REPLY_SIZE && aB[..|whole|] == whole && aB[|whole|] == 0
    {
      ghost var payload := aB[4..length + 1];
      ghost var head: seq<byte> := [ToChar(length), ToChar(n), typ] + payload;
      FramedHasNoNul(n, typ, payload);
      PutHeader(n, typ, length);
      assert aB[..length + 1] == [START_CHAR] + head;
      assert aB[1..length + 1] == aB[..length + 1][1..] == head;
      var c := Chk1(1, length + 1);
      PutTrailer(ToChar(c), length);
      ghost var whole := Buffered(n, typ, payload);
      assert aB[..length + 3] == [START_CHAR] + Framed(n, typ, payload) + [hisEol];
      assert aB[..|whole|] == aB[..length + 3][..|whole|];
      assert hisEol == 0 ==> aB[|whole|] == aB[..length + 3][|whole|];
    }

    /** The common tail of send_ack, send_nack and handle_send_packet: header, block check, end-of-line,
        over a payload already in the buffer behind the header. */
    method Finish(n: byte, typ: byte, length: nat)
      requires Valid() && n < 224 && typ != 0 && 3 <= length <= REPLY_SIZE - 4
      requires 0 !in aB[4..length + 1]
      modifies this`sent, aB
      ensures sent == old(sent) + Reply(Negotiated(), n, typ, old(aB[4..length + 1]))
      ensures Valid()
    {
      ghost var payload := aB[4..length + 1];
      FramedHasNoNul(n, typ, payload);
      Build(n, typ, length);
      ghost var whole := Buffered(n, typ, payload);
      S1SendPacket(|whole|);
      assert Pad(hisPadCount, hisPadChar) + whole == Reply(Negotiated(), n, typ, payload);
      assert old(sent) + (Pad(hisPadCount, hisPadChar) + whole) == old(sent) + Pad(hisPadCount, hisPadChar) + whole;
    }

    /** a_b[++length] = c, for the next of the answers. */
    method Put(length: nat, c: byte) returns (longer: nat)
      requires Valid() && Answers(length) && length < 16 && c == CAPABILITIES[length - 3]
      modifies aB
      ensures Valid() && longer == length + 1 && Answers(longer)
    {
      aB[length + 1] := c;
      longer := length + 1;
    }

    /** The buffer holds answers up to index `length`. */
    ghost predicate Answers(length: nat)
      reads this, aB
    {
      aB.Length == REPLY_SIZE && 3 <= length <= 16 && aB[4..length + 1] == CAPABILITIES[..length - 3]
    }

    method SendAck(n: byte)
      requires Valid() && n < 224
      modifies this`sent, aB
      ensures Valid() && sent == old(sent) + Reply(Negotiated(), n, ACK_TYPE, [])
    {
      Finish(n, ACK_TYPE, 3);
    }

    method SendNack(n: byte)
      requires Valid() && n < 224
      modifies this`sent, aB
      ensures Valid() && sent == old(sent) + Reply(Negotiated(), n, NACK_TYPE, [])
    {
      Finish(n, NACK_TYPE, 3);
    }

    /** The characters of `data` that the parameter buffer holds. */
    ghost predicate ParmsHold(data: seq<byte>)
      requires Valid()
      reads this, sendParms
    {
      && sendPtr == (if |data| < SEND_DATA_SIZE then |data| else SEND_DATA_SIZE - 1)
      && forall i | 0 <= i < |data| && i < SEND_DATA_SIZE - 1 :: sendParms[i] == data[i]
    }

    /** The parameters that are answered without being taken up: no 8th-bit prefix, type-1 check, no repeat
        prefix, long packets without windows. */
    method RefuseRest(bytes: nat) returns (length: nat)
      requires Valid() && Answers(9)
      modifies aB
      ensures Valid() && Answers(length)
      ensures length == if bytes >= 10 then 16 else if bytes <= 6 then 9 else bytes + 3
    {
      length := 9;
      label parms: {
        if bytes < 7 { break parms; }
        length := Put(length, 0x4E);                   // QBIN
        if bytes < 8 { break parms; }
        length := Put(length, 0x31);                   // CHKT
        if bytes < 9 { break parms; }
        length := Put(length, 0x4E);                   // REPT
        if bytes < 10 { break parms; }
        length := Put(length, ToChar(2));              // CAPAS: long packets, no windows, 94 * 95 + 94
        length := Put(length, ToChar(0));
        length := Put(length, ToChar(94));
        length := Put(length, ToChar(94));
      }
    }

    /** The parameters that are remembered: padding, end-of-line and quote character. */
    method TakeUp(bytes: nat, ghost data: seq<byte>) returns (length: nat)
      requires Valid() && Answers(5) && 3 <= bytes <= |data|
      requires forall i | 2 <= i < 6 && i < bytes :: sendParms[i] == data[i]
      modifies this`hisEol, this`hisPadCount, this`hisPadChar, this`hisQuote, aB
      ensures Valid() && Answers(length)
      ensures length == if bytes >= 10 then 16 else bytes + 3
      ensures hisPadCount == UnToChar(data[2])
      ensures hisPadChar == if bytes >= 4 then Ktrans(data[3]) else old(hisPadChar)
      ensures hisEol == if bytes >= 5 then UnToChar(data[4]) else old(hisEol)
      ensures hisQuote == if bytes >= 6 then data[5] else old(hisQuote)
    {
      hisPadCount := UnToChar(sendParms[2]);
      length := Put(5, ToChar(0));                    // NPAD
      if bytes < 4 { return; }
      hisPadChar := Ktrans(sendParms[3]);
      length := Put(length, 0x40);                    // PADC
      if bytes < 5 { return; }
      length := TakeUpEnds(bytes, data);
    }

    method TakeUpEnds(bytes: nat, ghost data: seq<byte>) returns (length: nat)
      requires Valid() && Answers(7) && 5 <= bytes <= |data|
      requires forall i | 4 <= i < 6 && i < bytes :: sendParms[i] == data[i]
      modifies this`hisEol, this`hisQuote, aB
      ensures Valid() && Answers(length)
      ensures length == if bytes >= 10 then 16 else bytes + 3
      ensures hisEol == UnToChar(data[4])
      ensures hisQuote == if bytes >= 6 then data[5] else old(hisQuote)
    {
      hisEol := UnToChar(sendParms[4]);
      length := Put(7, ToChar(END_CHAR));             // EOL
      if bytes < 6 { return; }
      hisQuote := sendParms[5];
      length := Put(length, 0x23);                    // QCTL
      length := RefuseRest(bytes);
    }

    method CrackParms(ghost data: seq<byte>) returns (length: nat)
      requires Valid() && ParmsHold(data)
      modifies this`hisEol, this`hisPadCount, this`hisPadChar, this`hisQuote, this`sendPtr, aB
      ensures Valid() && Negotiated() == Negotiate(data)
      ensures Answers(length) && length == if ParmCount(data) >= 10 then 16 else ParmCount(data) + 3
    {
      length := 3;
      hisEol, hisPadCount, hisPadChar, hisQuote := END_CHAR, 0, 0, K_ESCAPE;
      if sendPtr == SEND_DATA_SIZE - 1 {
        sendPtr := sendPtr - 1;
      }
      var bytes := sendPtr;
      if bytes < 1 { return; }
      length := Put(length, ToChar(94));            // MAXL
      if bytes < 2 { return; }
      length := Put(length, ToChar(1));             // TIME
      if bytes < 3 { return; }
      length := TakeUp(bytes, data);
    }

    method HandleSendPacket(n: byte, ghost data: seq<byte>)
      requires Valid() && n < 224 && ParmsHold(data)
      modifies this`hisEol, this`hisPadCount, this`hisPadChar, this`hisQuote, this`sendPtr, this`sent, aB
      ensures Valid() && Negotiated() == Negotiate(data)
      ensures sent == old(sent) + Reply(Negotiate(data), n, ACK_TYPE, InitPayload(data))
    {
      var length := CrackParms(data);
      assert CAPABILITIES[..length - 3] == InitPayload(data);
      assert 0 !in CAPABILITIES;
      Finish(n, ACK_TYPE, length);
    }

    // ----- the main loop -----

    /** One data octet of a packet of type `typ`. */
    method Store(typ: byte, c: byte, ghost data: seq<byte>)
      requires Valid() && osDataAddr < ram.Length - (|input| - pos)
      requires typ == SEND_TYPE ==> ParmsHold(data)
      modifies this`osDataAddr, this`kDataEscape, this`sendPtr, ram, sendParms
      ensures Valid() && Saved() == old(Saved())
      ensures Cur() == if typ == DATA_TYPE then FeedChar(old(Cur()), c, hisQuote) else old(Cur())
      ensures typ == SEND_TYPE ==> ParmsHold(data + [c])
    {
      if typ == DATA_TYPE {
        KDataChar(c);
      } else if typ == SEND_TYPE {
        sendParms[sendPtr] := c;
        sendPtr := sendPtr + 1;
        if sendPtr >= SEND_DATA_SIZE { sendPtr := sendPtr - 1; }
      }
    }

    /** The data octets of one packet. They take effect as they come, before the packet is known to be good. */
    method RecvData(n: byte, typ: byte, len0: int, sum0: nat, ghost base: nat)
        returns (res: Rest, sum: nat, ghost data: seq<byte>)
      requires Valid() && base <= pos && sendPtr == 0
      modifies this`pos, this`osDataAddr, this`kDataEscape, this`sendPtr, ram, sendParms
      ensures Valid() && pos >= old(pos) && Saved() == old(Saved())
      ensures var r := ScanData(n, typ, input[base..], old(pos) - base, len0, sum0, []);
              match res
              case RestStarved => r.Starved?
              case RestBad => r.Reject? && pos == base + r.used
              case RestGood =>
                && r == ScanData(n, typ, input[base..], pos - base, 1, sum, data)
                && Cur() == (if typ == DATA_TYPE then Feed(old(Cur()), data, hisQuote) else old(Cur()))
                && (typ == SEND_TYPE ==> ParmsHold(data))
    {
      ghost var b := input[base..];
      ghost var r := ScanData(n, typ, b, pos - base, len0, sum0, []);
      var length: int := len0;
      sum, data := sum0, [];
      while length > 1
        invariant Valid() && pos >= old(pos) && Saved() == old(Saved())
        invariant r == ScanData(n, typ, b, pos - base, length, sum, data)
        invariant Cur() == (if typ == DATA_TYPE then Feed(old(Cur()), data, hisQuote) else old(Cur()))
        invariant typ == SEND_TYPE ==> ParmsHold(data)
        decreases length
      {
        if pos == |input| { return RestStarved, sum, data; }
        var c := GetC();
        assert b[pos - 1 - base] == c;
        if IsControl(c) { return RestBad, sum, data; }
        sum := sum + c;
        length := length - 1;
        Store(typ, c, data);
        assert (data + [c])[..|data|] == data;
        data := data + [c];
      }
      ScanDataShort(n, typ, b, pos - base, length, sum, data);
      res := RestGood;
    }

    /** The data, block check and end-of-line of one packet. */
    method RecvRest(n: byte, typ: byte, len0: int, sum0: nat, ghost base: nat) returns (res: Rest)
      requires Valid() && base <= pos && sendPtr == 0
      modifies this`pos, this`osDataAddr, this`kDataEscape, this`sendPtr, ram, sendParms
      ensures Valid() && pos >= old(pos) && Saved() == old(Saved())
      ensures var r := ScanData(n, typ, input[base..], old(pos) - base, len0, sum0, []);
              match res
              case RestStarved => r.Starved?
              case RestBad => r.Reject? && pos == base + r.used
              case RestGood =>
                && r.Accept? && pos == base + r.used
                && Cur() == (if typ == DATA_TYPE then Feed(old(Cur()), r.data, hisQuote) else old(Cur()))
                && (typ == SEND_TYPE ==> ParmsHold(r.data))
    {
      var sum: nat;
      ghost var data;
      res, sum, data := RecvData(n, typ, len0, sum0, base);
      if res != RestGood { return; }
      if pos == |input| { return RestStarved; }
      var c := GetC();
      assert input[base..][pos - 1 - base] == c;
      if IsControl(c) { return RestBad; }
      if c != Check(sum) { return RestBad; }
      if pos == |input| { return RestStarved; }
      c := GetC();
      assert input[base..][pos - 1 - base] == c;
      if c != END_CHAR { return RestBad; }
    }

    /** Extended length: reads the two length digits and the header check. */
    method RecvLongHeader(n: byte, sum0: nat, ghost base: nat) returns (res: Rest, length: int, sum: nat)
      requires Valid() && base + 3 == pos
      modifies this`pos
      ensures Valid() && pos >= old(pos)
      ensures var b := input[base..];
              match res
              case RestStarved => ScanLong(b, n, sum0).Starved?
              case RestBad => ScanLong(b, n, sum0) == Reject(n, pos - base)
              case RestGood => pos == base + 6 && ScanLong(b, n, sum0) == ScanData(n, b[2], b, 6, length, sum, [])
    {
      length, sum := 0, sum0;
      ghost var b := input[base..];
      if pos == |input| { return RestStarved, length, sum; }
      var c := GetC();
      assert b[3] == c;
      if IsControl(c) { return RestBad, length, sum; }
      sum := sum + c;
      var lenHi: int := UnToChar(c);
      if pos == |input| { return RestStarved, length, sum; }
      c := GetC();
      assert b[4] == c;
      if IsControl(c) { return RestBad, length, sum; }
      sum := sum + c;
      var lenLo: int := UnToChar(c);
      length := lenHi * 95 + lenLo;
      if pos == |input| { return RestStarved, length, sum; }
      c := GetC();
      assert b[5] == c;
      if IsControl(c) { return RestBad, length, sum; }
      if c != Check(sum) { return RestBad, length, sum; }
      sum := sum + c;
      return RestGood, length, sum;
    }

    /** Packet type, extended length if announced, and the rest. */
    method RecvBody(lengthChar: byte, seqChar: byte, ghost base: nat) returns (res: Rest, typ: byte)
      requires Valid() && base + 2 == pos && sendPtr == 0
      requires input[base] == lengthChar && input[base + 1] == seqChar && !IsControl(lengthChar) && !IsControl(seqChar)
      modifies this`pos, this`osDataAddr, this`kDataEscape, this`sendPtr, ram, sendParms
      ensures Valid() && pos >= old(pos) && Saved() == old(Saved())
      ensures var r := Scan(input[base..]);
              match res
              case RestStarved => r.Starved?
              case RestBad => r == Reject(UnToChar(seqChar), pos - base)
              case RestGood =>
                && r.Accept? && r.n == UnToChar(seqChar) && pos == base + r.used && typ == r.typ
                && Cur() == (if typ == DATA_TYPE then Feed(old(Cur()), r.data, hisQuote) else old(Cur()))
                && (typ == SEND_TYPE ==> ParmsHold(r.data))
    {
      typ := 0;
      ghost var b := input[base..];
      var n := UnToChar(seqChar);
      assert b[0] == lengthChar && b[1] == seqChar;
      if pos == |input| { return RestStarved, typ; }
      typ := GetC();
      assert b[2] == typ;
      if IsControl(typ) { return RestBad, typ; }
      var sum: nat := (lengthChar as int) + (seqChar as int) + (typ as int);
      var length: int := UnToChar(lengthChar);
      length := length - 1;
      length := length - 1;
      if length == -2 {
        res, length, sum := RecvLongHeader(n, sum, base);
        if res != RestGood { return res, typ; }
      }
      ghost var i := pos - base;
      ScanDataKeepsN(n, typ, b, i, length, sum, []);
      res := RecvRest(n, typ, length, sum, base);
    }

    /** packet_error: back to the checkpoint, and a negative acknowledge. */
    method PacketError(n: byte, ghost lastN: int)
      requires Valid() && n < 224
      modifies this`osDataAddr, this`kDataEscape, this`sent, aB
      ensures Valid() && View(lastN, n) == Nacked(old(View(lastN, n)))
    {
      KDataRestore();
      SendNack(n);
    }

    /** A repeated sequence number goes back to the checkpoint, a new one makes the next checkpoint. */
    method CheckSequence(n: byte, lastN0: int, ghost n0: byte) returns (lastN: int)
      requires Valid()
      modifies this`osDataAddr, this`kDataEscape, this`osDataAddrSaved, this`kDataEscapeSaved
      ensures Valid() && View(lastN, n) == Checkpoint(old(View(lastN0, n0)), n)
    {
      lastN := lastN0;
      if n == lastN {
        KDataRestore();
      } else {
        lastN := n;
        KDataSave();
      }
    }

    method Acknowledge(n: byte, typ: byte, ghost data: seq<byte>) returns (v: Verdict)
      requires Valid() && n < 224 && (typ == SEND_TYPE ==> ParmsHold(data))
      modifies this`hisEol, this`hisPadCount, this`hisPadChar, this`hisQuote, this`sendPtr, this`sent, aB
      ensures Valid() && v == if typ == BREAK_TYPE then Finished else More
      ensures Negotiated() == if typ == SEND_TYPE then Negotiate(data) else old(Negotiated())
      ensures sent == old(sent) + Reply(Negotiated(), n, ACK_TYPE, if typ == SEND_TYPE then InitPayload(data) else [])
    {
      v := More;
      if typ == SEND_TYPE {
        HandleSendPacket(n, data);
      } else {
        SendAck(n);
        if typ == BREAK_TYPE { v := Finished; }
      }
    }

    /** One packet once its sequence number is in: checkpoint, body, reply. */
    method RecvNumbered(lengthChar: byte, seqChar: byte, n0: byte, lastN0: int, ghost base: nat)
        returns (n: byte, lastN: int, v: Verdict)
      requires Valid() && base + 2 == pos && sendPtr == 0
      requires input[base] == lengthChar && input[base + 1] == seqChar && !IsControl(lengthChar) && !IsControl(seqChar)
      modifies this`pos, this`sent, this`hisEol, this`hisPadCount, this`hisPadChar, this`hisQuote, this`osDataAddr,
               this`osDataAddrSaved, this`kDataEscape, this`kDataEscapeSaved, this`sendPtr, ram, aB, sendParms
      ensures Valid() && n < 224 && old(pos) <= pos
      ensures v == Judge(Scan(input[base..]))
      ensures v != Starve ==>
        && pos == base + Scan(input[base..]).used
        && View(lastN, n) == Advance(old(View(lastN0, n0)), Scan(input[base..]))
    {
      ghost var r := Scan(input[base..]);
      ghost var st := View(lastN0, n0);
      n := UnToChar(seqChar);
      lastN := CheckSequence(n, lastN0, n0);
      var res, typ := RecvBody(lengthChar, seqChar, base);
      match res
      case RestStarved => v := Starve;
      case RestBad =>
        assert Checkpoint(st, n).(cur := Cur()) == View(lastN, n);
        PacketError(n, lastN);
        v := More;
      case RestGood =>
        v := Acknowledge(n, typ, r.data);
        assert View(lastN, n) == Accepted(st, n, typ, r.data);
    }

    static function Judge(r: ScanResult): Verdict {
      if r.Starved? then Starve else if IsBreak(r) then Finished else More
    }

    /** One turn of the main loop, from behind START_CHAR. */
    method RecvPacket(n0: byte, lastN0: int) returns (n: byte, lastN: int, v: Verdict)
      requires Valid() && n0 < 224
      modifies this`pos, this`sent, this`hisEol, this`hisPadCount, this`hisPadChar, this`hisQuote, this`osDataAddr,
               this`osDataAddrSaved, this`kDataEscape, this`kDataEscapeSaved, this`sendPtr, ram, aB, sendParms
      ensures Valid() && n < 224 && old(pos) <= pos
      ensures v == Judge(Scan(input[old(pos)..]))
      ensures v != Starve ==>
        && pos == old(pos) + Scan(input[old(pos)..]).used
        && View(lastN, n) == Advance(old(View(lastN0, n0)), Scan(input[old(pos)..]))
    {
      n, lastN, v := n0, lastN0, More;
      ghost var base := pos;
      ghost var b := input[base..];
      sendPtr := 0;
      if pos == |input| { return n, lastN, Starve; }
      var lengthChar := GetC();
      assert b[0] == lengthChar;
      if IsControl(lengthChar) {
        PacketError(n, lastN);
        return;
      }
      if pos == |input| { return n, lastN, Starve; }
      var seqChar := GetC();
      assert b[1] == seqChar;
      if IsControl(seqChar) {
        PacketError(n, lastN);
        return;
      }
      assert View(lastN0, n0) == old(View(lastN0, n0));
      n, lastN, v := RecvNumbered(lengthChar, seqChar, n, lastN, base);
    }

    method KDataInit()
      requires start + (|input| - pos) <= ram.Length && pos <= |input| && aB.Length == REPLY_SIZE
      requires sendParms.Length == SEND_DATA_SIZE && ram != aB && ram != sendParms && aB != sendParms
      modifies this`hisEol, this`hisPadCount, this`hisPadChar, this`hisQuote, this`osDataAddr,
               this`osDataAddrSaved, this`kDataEscape, this`kDataEscapeSaved
      ensures Valid() && View(-1, 0) == INITIAL.(sent := sent)
    {
      hisEol, hisPadCount, hisPadChar, hisQuote := END_CHAR, 0, 0, K_ESCAPE;
      osDataAddr, osDataAddrSaved := start, start;
      kDataEscape, kDataEscapeSaved := false, false;
    }

    /** Waits for a packet or ^C, and takes the packet. */
    method Turn(n0: byte, lastN0: int) returns (n: byte, lastN: int, step: Step)
      requires Valid() && n0 < 224
      modifies this`pos, this`sent, this`hisEol, this`hisPadCount, this`hisPadChar, this`hisQuote, this`osDataAddr,
               this`osDataAddrSaved, this`kDataEscape, this`kDataEscapeSaved, this`sendPtr, ram, aB, sendParms
      ensures Valid() && n < 224
      ensures var o := Run(old(View(lastN0, n0)), input[old(pos)..]);
              match step
              case Block => o.Waiting?
              case Cancel => o.Aborted?
              case Stop => o == Done(View(lastN, n))
              case Continue => pos > old(pos) && o == Run(View(lastN, n), input[pos..])
    {
      n, lastN, step := n0, lastN0, Continue;
      if pos == |input| { return n, lastN, Block; }
      ghost var st := View(lastN, n);
      var c := GetC();
      ghost var b := input[pos..];
      ghost var was := pos;
      assert input[pos - 1..][0] == c && input[pos - 1..][1..] == b;
      assert View(lastN, n) == st;
      if c == ETX_CHAR { return n, lastN, Cancel; }
      if c == START_CHAR {
        ScanUsed(b);
        var v: Verdict;
        n, lastN, v := RecvPacket(n, lastN);
        if v == Starve { return n, lastN, Block; }
        assert b[pos - was..] == input[pos..];
        if v == Finished { step := Stop; }
      }
    }

    /** Receives a file. The outcome is that of the protocol's function on the same console input; on success
        RAM from the start address, for the returned size, holds exactly the session's data. */
    method KRecv() returns (r: Result)
      requires Valid() && start + (|input| - pos) <= ram.Length
      modifies this, ram, aB, sendParms
      ensures input == old(input)
      ensures match Run(INITIAL.(sent := old(sent)), input[old(pos)..])
              case Waiting => r == Blocked
              case Aborted(_) => r == Cancelled
              case Done(st) =>
                && r == Size(|st.cur.out|) && start + |st.cur.out| <= ram.Length
                && ram[start..start + |st.cur.out|] == st.cur.out && sent == st.sent
    {
      KDataInit();
      var n: byte, lastN: int := 0, -1;
      ghost var o := Run(View(lastN, n), input[pos..]);
      while true
        invariant Valid() && input == old(input) && n < 224
        invariant o == Run(View(lastN, n), input[pos..])
        decreases |input| - pos
      {
        var step: Step;
        n, lastN, step := Turn(n, lastN);
        match step
        case Block => return Blocked;
        case Cancel => return Cancelled;
        case Stop => return Size(osDataAddr - start);
        case Continue =>
      }
    }
  }
}
