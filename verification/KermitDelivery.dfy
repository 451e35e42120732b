/** What a `loadb` transfer delivers: quoting round trips, packets and replies that the scanner
    accepts, and exactly-once delivery over every schedule of damaged and repeated packets. */
module KermitDelivery {
  import opened Bytes
  import opened KermitProtocol

  // ----- the quoting codec -----

  /** Control characters and DEL travel as quote plus the character with bit 6 flipped; the quote
      character travels as itself behind a quote. */
  function QuoteByte(b: byte, quote: byte): seq<byte> {
    if b % 128 < 32 then [quote, b + 64]
    else if b % 128 == 127 then [quote, b - 64]
    else if b == quote then [quote, b]
    else [b]
  }

  function QuoteAll(x: seq<byte>, quote: byte): seq<byte> {
    if x == [] then [] else QuoteAll(x[..|x| - 1], quote) + QuoteByte(x[|x| - 1], quote)
  }

  lemma {:induction false} FeedAppend(l: Link, a: seq<byte>, b: seq<byte>, quote: byte)
    ensures Feed(l, a + b, quote) == Feed(Feed(l, a, quote), b, quote)
  {
    if b == [] {
      assert a + b == a;
    } else {
      assert (a + b)[..|a + b| - 1] == a + b[..|b| - 1];
      FeedAppend(l, a, b[..|b| - 1], quote);
    }
  }

  lemma FeedQuotedByte(l: Link, b: byte, quote: byte)
    requires !l.escape && Ktrans(quote) == quote
    ensures Feed(l, QuoteByte(b, quote), quote) == Link(l.out + [b], false)
  {
    QuotedTranslates(b, quote);
    var e := QuoteByte(b, quote);
    if |e| == 2 {
      FeedTwo(l, quote, e[1], quote);
    } else {
      FeedOne(l, b, quote);
    }
  }

  /** An octet is quoted as itself, or as a character that is translated to it. */
  lemma QuotedTranslates(b: byte, quote: byte)
    requires Ktrans(quote) == quote
    ensures var e := QuoteByte(b, quote);
            (e == [b] && b != quote) || (|e| == 2 && e == [quote, e[1]] && Ktrans(e[1]) == b)
  {
  }

  lemma FeedOne(l: Link, c: byte, quote: byte)
    ensures Feed(l, [c], quote) == FeedChar(l, c, quote)
  {
    assert [c][..0] == [];
  }

  lemma FeedTwo(l: Link, c: byte, d: byte, quote: byte)
    ensures Feed(l, [c, d], quote) == FeedChar(FeedChar(l, c, quote), d, quote)
  {
    assert [c, d][..1] == [c];
    FeedOne(l, c, quote);
  }

  /** Feeding the quoted form of any octets to the receiver stores those octets and leaves no quote open. */
  lemma {:induction false} QuoteRoundTrip(l: Link, x: seq<byte>, quote: byte)
    requires !l.escape && Ktrans(quote) == quote
    ensures Feed(l, QuoteAll(x, quote), quote) == Link(l.out + x, false)
  {
    if x != [] {
      var k := |x| - 1;
      QuoteRoundTrip(l, x[..k], quote);
      FeedAppend(l, QuoteAll(x[..k], quote), QuoteByte(x[k], quote), quote);
      FeedQuotedByte(Link(l.out + x[..k], false), x[k], quote);
      assert x[..k] + [x[k]] == x;
      Associate(l.out, x[..k], [x[k]]);
    }
  }

  /** The negotiated quote characters for which the codec is lossless are those that survive unquoting. */
  lemma QuoteLosslessIff(quote: byte)
    ensures Ktrans(quote) == quote <==>
            forall x: seq<byte> :: Feed(EMPTY_LINK, QuoteAll(x, quote), quote) == Link(x, false)
  {
    if Ktrans(quote) == quote {
      forall x: seq<byte> ensures Feed(EMPTY_LINK, QuoteAll(x, quote), quote) == Link(x, false) {
        QuoteRoundTrip(EMPTY_LINK, x, quote);
        assert [] + x == x;
      }
    } else {
      var x := [quote];
      var e := [quote, quote];
      assert x[..0] == [] && QuoteAll([], quote) == [];
      assert QuoteAll(x, quote) == [] + QuoteByte(quote, quote) == e;
      assert e[..1] == [quote] && [quote][..0] == [];
      assert Feed(EMPTY_LINK, [quote], quote) == FeedChar(Feed(EMPTY_LINK, [], quote), quote, quote);
      assert Feed(EMPTY_LINK, e, quote) == Link([] + [Ktrans(quote)], false);
      assert ([] + [Ktrans(quote)])[0] != x[0];
      assert Feed(EMPTY_LINK, QuoteAll(x, quote), quote) != Link(x, false);
    }
  }

  /** No octet of a quoted text is one the scanner would take for a control character. */
  lemma {:induction false} QuotedIsPrintable(x: seq<byte>, quote: byte)
    requires !IsControl(quote)
    ensures forall c | c in QuoteAll(x, quote) :: !IsControl(c)
  {
    if x != [] {
      QuotedIsPrintable(x[..|x| - 1], quote);
    }
  }

  // ----- packets -----

  datatype Packet = Packet(n: byte, typ: byte, data: seq<byte>)

  predicate Printable(s: seq<byte>) { forall i | 0 <= i < |s| :: !IsControl(s[i]) }

  /** The data loop of the scanner over a printable run followed by the right block check. */
  lemma {:induction false} ScanRun(n: byte, typ: byte, b: seq<byte>, i: nat, data: seq<byte>, sum: nat, done: seq<byte>)
    requires i + |data| + 2 == |b|
    requires b[i..i + |data|] == data && Printable(data)
    requires b[i + |data|] == Check(sum + Sum(data)) && b[i + |data| + 1] == END_CHAR
    ensures ScanData(n, typ, b, i, |data| + 1, sum, done) == Accept(n, typ, done + data, |b|)
    decreases |data|
  {
    if data == [] {
      assert done + data == done;
    } else {
      assert b[i] == data[0];
      assert b[i + 1..i + 1 + |data[1..]|] == data[1..];
      ScanRun(n, typ, b, i + 1, data[1..], sum + b[i], done + [b[i]]);
      assert done + [b[i]] + data[1..] == done + data;
    }
  }

  predicate Sendable(p: Packet) {
    p.n < 224 && !IsControl(p.typ) && Printable(p.data)
  }

  lemma CharRoundTrip(x: int)
    requires 0 <= x < 224
    ensures !IsControl(ToChar(x)) && UnToChar(ToChar(x)) == x && (ToChar(x) == SPACE <==> x == 0)
  {
  }

  lemma CheckIsPrintable(sum: int)
    ensures !IsControl(Check(sum))
  {
  }

  /** The scanner accepts every short packet as framed, with its sequence number, type and data. */
  lemma ScanFramed(p: Packet)
    requires Sendable(p) && |p.data| <= 220
    ensures var b := Framed(p.n, p.typ, p.data) + [END_CHAR];
            Scan(b) == Accept(p.n, p.typ, p.data, |b|)
  {
    var head: seq<byte> := [ToChar(|p.data| + 3), ToChar(p.n), p.typ];
    var b := Framed(p.n, p.typ, p.data) + [END_CHAR];
    assert b == head + p.data + [Check(Sum(head + p.data))] + [END_CHAR];
    SumAppend(head, p.data);
    SumHead(head);
    ScanShort(b, p);
  }

  lemma ScanShort(b: seq<byte>, p: Packet)
    requires Sendable(p) && |p.data| <= 220 && |b| == |p.data| + 5
    requires b[0] == ToChar(|p.data| + 3) && b[1] == ToChar(p.n) && b[2] == p.typ
    requires b[3..3 + |p.data|] == p.data
    requires b[3 + |p.data|] == Check(Sum3(b) + Sum(p.data)) && b[4 + |p.data|] == END_CHAR
    ensures Scan(b) == Accept(p.n, p.typ, p.data, |b|)
  {
    CharRoundTrip(|p.data| + 3);
    CharRoundTrip(p.n);
    ScanRun(p.n, p.typ, b, 3, p.data, Sum3(b), []);
    assert [] + p.data == p.data;
  }

  lemma SumHead(head: seq<byte>)
    requires |head| == 3
    ensures Sum(head) == Sum3(head)
  {
    assert head[1..][1..] == head[2..] && head[2..][1..] == [];
    assert Sum(head[2..]) == head[2] + Sum([]);
  }

  /** An extended-length packet: zero length, sequence, type, two base-95 length digits, header check, data, check. */
  function FramedLong(p: Packet): seq<byte> {
    var k := |p.data| + 1;
    var head: seq<byte> := [SPACE, ToChar(p.n), p.typ];
    var digits: seq<byte> := [ToChar(k / 95), ToChar(k % 95)];
    var hsum: nat := Sum(head) + digits[0] + digits[1];
    head + digits + [Check(hsum)] + p.data + [Check(hsum + Check(hsum) + Sum(p.data))]
  }

  lemma ScanFramedLong(p: Packet)
    requires Sendable(p) && |p.data| + 1 <= 95 * 223
    ensures var b := FramedLong(p) + [END_CHAR];
            Scan(b) == Accept(p.n, p.typ, p.data, |b|)
  {
    var b := FramedLong(p) + [END_CHAR];
    var head: seq<byte> := [SPACE, ToChar(p.n), p.typ];
    SumHead(head);
    assert b[0] == head[0] && b[1] == head[1] && b[2] == head[2] && Sum3(b) == Sum3(head);
    assert b[6..6 + |p.data|] == p.data;
    ScanExtended(b, p);
  }

  lemma ScanExtended(b: seq<byte>, p: Packet)
    requires Sendable(p) && |p.data| + 1 <= 95 * 223 && |b| == |p.data| + 8
    requires b[0] == SPACE && b[1] == ToChar(p.n) && b[2] == p.typ
    requires b[3] == ToChar((|p.data| + 1) / 95) && b[4] == ToChar((|p.data| + 1) % 95)
    requires b[5] == Check(Sum3(b) + b[3] + b[4])
    requires b[6..6 + |p.data|] == p.data
    requires b[6 + |p.data|] == Check(Sum3(b) + b[3] + b[4] + b[5] + Sum(p.data)) && b[7 + |p.data|] == END_CHAR
    ensures Scan(b) == Accept(p.n, p.typ, p.data, |b|)
  {
    LongLength(|p.data| + 1);
    CharRoundTrip(p.n);
    CheckIsPrintable(Sum3(b) + b[3] + b[4]);
    ScanRun(p.n, p.typ, b, 6, p.data, Sum3(b) + b[3] + b[4] + b[5], []);
    assert [] + p.data == p.data;
  }

  lemma LongLength(k: nat)
    requires k <= 95 * 223
    ensures !IsControl(ToChar(k / 95)) && !IsControl(ToChar(k % 95))
    ensures UnToChar(ToChar(k / 95)) * 95 + UnToChar(ToChar(k % 95)) == k
  {
    assert k / 95 < 224;
    assert k == k / 95 * 95 + k % 95;
  }

  /** Every reply, behind its padding and up to its block check, is a good packet for the receiver's own scanner,
      with the number, type and payload it was built from: the length field counts exactly the octets through
      the block check. Whatever end-of-line was asked for comes behind it, and none for NUL. */
  lemma ReplyWellFormed(p: Params, n: byte, typ: byte, payload: seq<byte>)
    requires n < 224 && !IsControl(typ) && Printable(payload) && |payload| <= 220
    ensures var r := Reply(p, n, typ, payload); var end := p.padCount + |payload| + 5;
            && |r| == end + (if p.eol == 0 then 0 else 1)
            && r[..p.padCount] == Pad(p.padCount, p.padChar) && r[p.padCount] == START_CHAR
            && Scan(r[p.padCount + 1..end] + [END_CHAR]) == Accept(n, typ, payload, |payload| + 5)
            && r[end..] == if p.eol == 0 then [] else [p.eol]
  {
    var r := Reply(p, n, typ, payload);
    ScanFramed(Packet(n, typ, payload));
    assert r[p.padCount + 1..p.padCount + |payload| + 5] == Framed(n, typ, payload);
  }

  /** Whatever parameters arrive, the answer to them is printable and fits the 24-octet reply buffer
      together with header, block check, end-of-line and terminator. */
  lemma InitPayloadFits(data: seq<byte>)
    ensures Printable(InitPayload(data)) && 4 + |InitPayload(data)| + 3 <= 24
  {
  }

  /** A reply is a good packet behind its padding, and fits the 24-octet buffer with its terminator. */
  ghost predicate GoodReply(p: Params, n: byte, typ: byte, payload: seq<byte>) {
    var r := Reply(p, n, typ, payload); var end := p.padCount + |payload| + 5;
    && end <= |r| && r[..p.padCount] == Pad(p.padCount, p.padChar) && r[p.padCount] == START_CHAR
    && Scan(r[p.padCount + 1..end] + [END_CHAR]) == Accept(n, typ, payload, |payload| + 5)
    && r[end..] == (if p.eol == 0 then [] else [p.eol])
    && |r| - p.padCount + 1 <= 24
  }

  /** For every parameter string and sequence character received, the answer to the string and every
      acknowledgement under the parameters it asks for are good replies. */
  lemma RepliesToAnyParameters(data: seq<byte>, c: byte)
    requires !IsControl(c)
    ensures var p, n := Negotiate(data), UnToChar(c);
            && GoodReply(p, n, ACK_TYPE, InitPayload(data))
            && GoodReply(p, n, ACK_TYPE, []) && GoodReply(p, n, NACK_TYPE, [])
  {
    var p, n := Negotiate(data), UnToChar(c);
    InitPayloadFits(data);
    ReplyWellFormed(p, n, ACK_TYPE, InitPayload(data));
    ReplyWellFormed(p, n, ACK_TYPE, []);
    ReplyWellFormed(p, n, NACK_TYPE, []);
  }

  // ----- one attempt at a packet -----

  predicate Quiet(s: seq<byte>) { START_CHAR !in s && ETX_CHAR !in s }

  /** Line noise, START_CHAR, and the octets that reached the receiver after it. */
  datatype Attempt = Attempt(noise: seq<byte>, body: seq<byte>)

  function Wire(a: Attempt): seq<byte> { a.noise + [START_CHAR] + a.body }

  /** A transmission of `p`, perhaps damaged: length and sequence characters intact, the octets left over
      after an error hold no false packet start. A damaged packet may even pass the block check, unless another
      kind of packet then reads as an initiation or as a break. */
  predicate AttemptOf(a: Attempt, p: Packet) {
    var r := Scan(a.body);
    ScanUsed(a.body);
    && Quiet(a.noise)
    && (r.Reject? || r.Accept?)
    && r.n == p.n
    && Quiet(a.body[r.used..])
    && (r.Accept? && r.typ in {SEND_TYPE, BREAK_TYPE} ==> r.typ == p.typ)
  }

  predicate Delivers(a: Attempt, p: Packet) {
    && AttemptOf(a, p)
    && Scan(a.body).Accept? && Scan(a.body).typ == p.typ && Scan(a.body).data == p.data
  }

  lemma FramedDelivers(p: Packet)
    requires Sendable(p) && |p.data| <= 220
    ensures Delivers(Attempt([], Framed(p.n, p.typ, p.data) + [END_CHAR]), p)
  {
    ScanFramed(p);
  }

  lemma {:induction false} SkipQuiet(st: Session, s: seq<byte>, rest: seq<byte>)
    requires Quiet(s)
    ensures Run(st, s + rest) == Run(st, rest)
  {
    if s == [] {
      assert s + rest == rest;
    } else {
      assert s[0] in s;
      assert (s + rest)[1..] == s[1..] + rest;
      SkipQuiet(st, s[1..], rest);
    }
  }

  /** The session after one attempt. */
  function Tried(st: Session, a: Attempt): Session { Advance(st, Scan(a.body)) }

  lemma RunAttempt(st: Session, a: Attempt, p: Packet, rest: seq<byte>)
    requires AttemptOf(a, p)
    ensures var r := Scan(a.body);
            Run(st, Wire(a) + rest) ==
              if IsBreak(r) then Done(Tried(st, a)) else Run(Tried(st, a), rest)
  {
    var r := Scan(a.body);
    ScanUsed(a.body);
    var input := [START_CHAR] + (a.body + rest);
    assert Wire(a) + rest == a.noise + input;
    SkipQuiet(st, a.noise, input);
    assert input[1..] == a.body + rest;
    ScanPrefix(a.body, rest);
    assert (a.body + rest)[r.used..] == a.body[r.used..] + rest;
    SkipQuiet(Tried(st, a), a.body[r.used..], rest);
  }

  // ----- exactly-once delivery -----

  /** All transmissions of one packet; the last one gets through. */
  datatype Exchange = Exchange(p: Packet, tries: seq<Attempt>, last: Attempt)

  predicate ValidExchange(x: Exchange) {
    (forall i | 0 <= i < |x.tries| :: AttemptOf(x.tries[i], x.p)) && Delivers(x.last, x.p)
  }

  function WireTries(tries: seq<Attempt>): seq<byte> {
    if tries == [] then [] else Wire(tries[0]) + WireTries(tries[1..])
  }

  function WireAll(xs: seq<Exchange>): seq<byte> {
    if xs == [] then [] else WireTries(xs[0].tries) + Wire(xs[0].last) + WireAll(xs[1..])
  }

  /** A stop-and-wait sender: each packet is repeated until it gets through, and neighbours differ in
      sequence number. */
  ghost predicate StopAndWait(xs: seq<Exchange>, lastN: int) {
    xs == [] ||
    (ValidExchange(xs[0]) && xs[0].p.n != lastN && StopAndWait(xs[1..], xs[0].p.n))
  }

  /** The effect of packet `p` on the delivered data, when it counts once. */
  function Effect(l: Link, quote: byte, p: Packet): Link {
    if p.typ == DATA_TYPE then Feed(l, p.data, quote) else l
  }

  function QuoteAfter(quote: byte, p: Packet): byte {
    if p.typ == SEND_TYPE then Negotiate(p.data).quote else quote
  }

  function Intended(l: Link, quote: byte, xs: seq<Exchange>): Link
    decreases |xs|
  {
    if xs == [] then l
    else Intended(Effect(l, quote, xs[0].p), QuoteAfter(quote, xs[0].p), xs[1..])
  }

  /** `l` is what was delivered before packet number `n`, checkpointed or about to be. */
  predicate Base(st: Session, n: byte, l: Link) {
    (if st.lastN == n then st.saved else st.cur) == l
  }

  lemma TriedKeepsBase(st: Session, a: Attempt, p: Packet, l: Link)
    requires AttemptOf(a, p) && Base(st, p.n, l)
    ensures var s := Tried(st, a);
            && Base(s, p.n, l) && s.lastN == p.n
            && (p.typ != SEND_TYPE ==> s.params == st.params)
            && (Delivers(a, p) ==>
                s.cur == Effect(l, st.params.quote, p) && s.params.quote == QuoteAfter(st.params.quote, p))
  {
  }

  lemma {:induction false} RunExchange(st: Session, p: Packet, tries: seq<Attempt>, last: Attempt, l: Link,
                                       rest: seq<byte>)
    requires ValidExchange(Exchange(p, tries, last)) && Base(st, p.n, l)
    ensures exists s: Session ::
              && s.lastN == p.n && s.cur == Effect(l, st.params.quote, p)
              && s.params.quote == QuoteAfter(st.params.quote, p)
              && Run(st, WireTries(tries) + Wire(last) + rest) == if p.typ == BREAK_TYPE then Done(s) else Run(s, rest)
    decreases |tries|
  {
    if tries == [] {
      assert WireTries(tries) + Wire(last) + rest == Wire(last) + rest;
      RunAttempt(st, last, p, rest);
      TriedKeepsBase(st, last, p, l);
    } else {
      var a := tries[0];
      var more := WireTries(tries[1..]) + Wire(last) + rest;
      assert WireTries(tries) + Wire(last) + rest == Wire(a) + more;
      RunAttempt(st, a, p, more);
      TriedKeepsBase(st, a, p, l);
      if !IsBreak(Scan(a.body)) {
        RunExchange(Tried(st, a), p, tries[1..], last, l, rest);
      }
    }
  }

  predicate EndsInBreak(xs: seq<Exchange>) {
    && xs != []
    && forall i | 0 <= i < |xs| :: xs[i].p.typ == BREAK_TYPE <==> i == |xs| - 1
  }

  /** Exactly-once delivery: over every schedule of damaged, repeated and re-acknowledged packets, the
      receiver finishes with the data of each distinct packet taken once and in order. */
  lemma {:induction false} ExactlyOnce(st: Session, xs: seq<Exchange>, rest: seq<byte>)
    requires EndsInBreak(xs) && StopAndWait(xs, st.lastN)
    ensures var o := Run(st, WireAll(xs) + rest);
            o.Done? && o.st.cur == Intended(st.cur, st.params.quote, xs)
    decreases |xs|
  {
    var x := xs[0];
    var more := WireAll(xs[1..]) + rest;
    assert WireAll(xs) + rest == WireTries(x.tries) + Wire(x.last) + more;
    RunExchange(st, x.p, x.tries, x.last, st.cur, more);
    var s: Session :| && s.lastN == x.p.n && s.cur == Effect(st.cur, st.params.quote, x.p)
                      && s.params.quote == QuoteAfter(st.params.quote, x.p)
                      && Run(st, WireTries(x.tries) + Wire(x.last) + more)
                         == if x.p.typ == BREAK_TYPE then Done(s) else Run(s, more);
    if |xs| > 1 {
      forall i | 0 <= i < |xs[1..]| ensures xs[1..][i].p.typ == BREAK_TYPE <==> i == |xs[1..]| - 1 {
        assert xs[1..][i] == xs[i + 1];
      }
      ExactlyOnce(s, xs[1..], rest);
    }
  }

  /** Packet i carries the octets pieces[i], quoted with the character negotiated before it. */
  ghost predicate Carries(xs: seq<Exchange>, quote: byte, pieces: seq<seq<byte>>) {
    |xs| == |pieces| &&
    (xs != [] ==>
      && (if xs[0].p.typ == DATA_TYPE then Ktrans(quote) == quote && xs[0].p.data == QuoteAll(pieces[0], quote)
          else pieces[0] == [])
      && Carries(xs[1..], QuoteAfter(quote, xs[0].p), pieces[1..]))
  }

  lemma {:induction false} IntendedIsFile(l: Link, quote: byte, xs: seq<Exchange>, pieces: seq<seq<byte>>)
    requires !l.escape && Carries(xs, quote, pieces)
    ensures Intended(l, quote, xs) == Link(l.out + Flatten(pieces), false)
    decreases |xs|
  {
    if xs == [] {
      assert l.out + Flatten(pieces) == l.out;
    } else {
      if xs[0].p.typ == DATA_TYPE {
        QuoteRoundTrip(l, pieces[0], quote);
      } else {
        assert l.out + [] == l.out;
      }
      var l1 := Link(l.out + pieces[0], false);
      IntendedIsFile(l1, QuoteAfter(quote, xs[0].p), xs[1..], pieces[1..]);
      assert l1.out + Flatten(pieces[1..]) == l.out + Flatten(pieces);
    }
  }

  /** A file cut into pieces, quoted, and sent over any such line arrives whole. */
  lemma FileArrives(xs: seq<Exchange>, pieces: seq<seq<byte>>, rest: seq<byte>, sent: seq<byte>)
    requires EndsInBreak(xs) && StopAndWait(xs, -1) && Carries(xs, K_ESCAPE, pieces)
    ensures var o := Run(INITIAL.(sent := sent), WireAll(xs) + rest);
            o.Done? && o.st.cur == Link(Flatten(pieces), false)
  {
    ExactlyOnce(INITIAL.(sent := sent), xs, rest);
    IntendedIsFile(EMPTY_LINK, K_ESCAPE, xs, pieces);
    assert [] + Flatten(pieces) == Flatten(pieces);
  }

  // ----- where the guarantee ends -----

  /** A number is only taken from a header whose two characters are printable. */
  lemma ScanNumber(b: seq<byte>)
    requires !Scan(b).Starved?
    ensures var r := Scan(b);
            if |b| < 2 || IsControl(b[0]) || IsControl(b[1]) then r.Early?
            else (r.Reject? || r.Accept?) && r.n == UnToChar(b[1])
  {
    if |b| >= 3 && !IsControl(b[0]) && !IsControl(b[1]) && !IsControl(b[2]) {
      var n, sum := UnToChar(b[1]), Sum3(b);
      if b[0] != SPACE {
        ScanDataKeepsN(n, b[2], b, 3, UnToChar(b[0]) - 2, sum, []);
        ScanDataUsed(n, b[2], b, 3, UnToChar(b[0]) - 2, sum, []);
      } else if |b| >= 6 {
        var length, more := UnToChar(b[3]) * 95 + UnToChar(b[4]), sum + b[3] + b[4] + b[5];
        ScanDataKeepsN(n, b[2], b, 6, length, more, []);
        ScanDataUsed(n, b[2], b, 6, length, more, []);
      }
    }
  }

  /** What was accepted becomes the state to fall back on exactly if the next packet's length and sequence
      characters arrive as printable characters and with a new number; whatever comes behind them is harmless. */
  lemma AcceptedKeptIff(st: Session, b: seq<byte>)
    requires !Scan(b).Starved? && st.saved != st.cur
    ensures Advance(st, Scan(b)).saved == st.cur <==>
            |b| >= 2 && !IsControl(b[0]) && !IsControl(b[1]) && UnToChar(b[1]) != st.lastN
  {
    ScanNumber(b);
  }

  /** Why the length and sequence characters must arrive intact: after a packet with a new number has been
      accepted, a damaged length character alone throws its data away, and the next new packet makes the
      loss final. */
  lemma EarlyErrorDropsPacket(st: Session, p: Packet, bad: byte, rest: seq<byte>)
    requires Sendable(p) && |p.data| <= 220 && p.typ == DATA_TYPE
    requires st.lastN != p.n && IsControl(bad)
    ensures exists s: Session ::
              && s.cur == st.cur && s.lastN == p.n
              && Run(st, [START_CHAR] + Framed(p.n, p.typ, p.data) + [END_CHAR, START_CHAR, bad] + rest) == Run(s, rest)
  {
    var body, tail := Framed(p.n, p.typ, p.data) + [END_CHAR], [START_CHAR, bad] + rest;
    var a := Attempt([], body);
    FramedDelivers(p);
    RunAttempt(st, a, p, tail);
    BadHeaderBehind(Framed(p.n, p.typ, p.data), bad, rest);
    TriedKeepsBase(st, a, p, st.cur);
    EarlyStep(Tried(st, a), bad, rest);
  }

  lemma BadHeaderBehind(framed: seq<byte>, bad: byte, rest: seq<byte>)
    ensures [START_CHAR] + framed + [END_CHAR, START_CHAR, bad] + rest
         == Wire(Attempt([], framed + [END_CHAR])) + ([START_CHAR, bad] + rest)
  {
  }

  /** A start character and a control character: a negative acknowledgement and a roll back. */
  lemma EarlyStep(st: Session, bad: byte, rest: seq<byte>)
    requires IsControl(bad)
    ensures Run(st, [START_CHAR, bad] + rest) == Run(Nacked(st), rest)
  {
    var b := [bad] + rest;
    assert ([START_CHAR, bad] + rest)[1..] == b && b[1..] == rest;
    assert Scan(b) == Early(1);
  }
}
