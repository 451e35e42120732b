/** What the receiver takes from an initiation, what it answers, and what it sends back over a whole run. */
module KermitReplies {
  import opened Bytes
  import opened KermitProtocol
  import opened KermitDelivery

  // ----- negotiation -----

  /** A control character as it travels in a parameter: with bit 6 toggled. */
  function Ctl(c: byte): byte
    requires c % 128 < 32 || c % 128 == 127
  {
    if c % 128 < 32 then c + 64 else c - 64
  }

  /** The first six parameters of a sender: longest packet, time-out, padding, pad character, end-of-line, quote. */
  function Offer(maxl: byte, time: byte, p: Params): (r: seq<byte>)
    requires p.padChar % 128 < 32 || p.padChar % 128 == 127
    ensures |r| == 6
  {
    [ToChar(maxl), ToChar(time), ToChar(p.padCount), Ctl(p.padChar), ToChar(p.eol), p.quote]
  }

  /** The receiver takes up exactly the parameters that were offered, and the defaults for those left out. */
  lemma OfferTaken(maxl: byte, time: byte, p: Params, k: nat, more: seq<byte>)
    requires p.padCount < 256 && (p.padChar % 128 < 32 || p.padChar % 128 == 127) && k <= 6
    ensures Negotiate(Offer(maxl, time, p) + more) == p
    ensures Negotiate(Offer(maxl, time, p)[..k])
         == Params(if k >= 6 then p.quote else 0x23, if k >= 5 then p.eol else 0x0D,
                   if k >= 3 then p.padCount else 0, if k >= 4 then p.padChar else 0)
  {
    CtlBack(p.padChar);
    CharBack(p.padCount);
    CharBack(p.eol);
    var data := Offer(maxl, time, p) + more;
    assert data[2] == ToChar(p.padCount) && data[3] == Ctl(p.padChar) && data[4] == ToChar(p.eol) && data[5] == p.quote;
  }

  lemma CtlBack(c: byte)
    requires c % 128 < 32 || c % 128 == 127
    ensures Ktrans(Ctl(c)) == c
  {
  }

  /** Unquoting turns exactly the quoted forms of control characters into those, and nothing else. */
  lemma KtransIff(c: byte)
    ensures Ktrans(c) != c <==> exists x: byte :: (x % 128 < 32 || x % 128 == 127) && Ctl(x) == c
  {
    if Ktrans(c) != c { ChangedIsCtl(c); }
    forall x: byte | (x % 128 < 32 || x % 128 == 127) && Ctl(x) == c ensures Ktrans(c) != c { CtlBack(x); }
  }

  lemma ChangedIsCtl(c: byte)
    requires Ktrans(c) != c
    ensures var x := Ktrans(c); (x % 128 < 32 || x % 128 == 127) && Ctl(x) == c
  {
  }

  lemma CharBack(x: byte)
    ensures UnToChar(ToChar(x)) == x
  {
  }

  /** The answer asks the sender for what the receiver expects: no padding, CR and `#`, however much was asked. */
  lemma AnswerAsksDefaults(data: seq<byte>)
    ensures Negotiate(InitPayload(data)) == Params(0x23, 0x0D, 0, 0)
  {
    assert Ktrans(0x40) == 0;
  }

  /** One answer for each parameter, up to the tenth, which draws all of `~! @-#N1N" ~~`. */
  lemma AnswerText(data: seq<byte>)
    ensures var k := |data|;
            InitPayload(data) == [0x7E, 0x21, 0x20, 0x40, 0x2D, 0x23, 0x4E, 0x31, 0x4E, 0x22, 0x20, 0x7E, 0x7E]
                                 [..if k < 10 then k else 13]
  {
  }

  // ----- between packets -----

  /** A break between packets aborts the load, whatever noise comes before it. */
  lemma EtxAborts(st: Session, s: seq<byte>, rest: seq<byte>)
    requires Quiet(s)
    ensures Run(st, s + ([0x03] + rest)) == Aborted(st)
  {
    SkipQuiet(st, s, [0x03] + rest);
  }

  /** Noise alone is waited out. */
  lemma NoiseWaits(st: Session, s: seq<byte>)
    requires Quiet(s)
    ensures Run(st, s) == Waiting
  {
    SkipQuiet(st, s, []);
    assert s + [] == s;
  }

  // ----- replies -----

  /** An attempt that the receiver reads to a verdict behind an intact header. */
  predicate Heard(a: Attempt) {
    var r := Scan(a.body);
    ScanUsed(a.body);
    Quiet(a.noise) && (r.Reject? || r.Accept?) && Quiet(a.body[r.used..]) && !IsBreak(r)
  }

  predicate Initiates(a: Attempt) { Scan(a.body).Accept? && Scan(a.body).typ == SEND_TYPE }

  function ParamsAfter(p: Params, a: Attempt): Params { if Initiates(a) then Negotiate(Scan(a.body).data) else p }

  /** An acknowledgement for a packet that was accepted and a negative one for any other, under its number. */
  function AnswerTo(p: Params, a: Attempt): seq<byte>
    requires Heard(a)
  {
    var r := Scan(a.body);
    Reply(ParamsAfter(p, a), r.n, if r.Accept? then 0x59 else 0x4E, if Initiates(a) then InitPayload(r.data) else [])
  }

  function Answers(p: Params, tries: seq<Attempt>): seq<byte>
    requires forall i | 0 <= i < |tries| :: Heard(tries[i])
    decreases |tries|
  {
    if tries == [] then [] else AnswerTo(p, tries[0]) + Answers(ParamsAfter(p, tries[0]), tries[1..])
  }

  lemma AttemptAnswered(st: Session, a: Attempt)
    requires Heard(a)
    ensures var s, r := Tried(st, a), Scan(a.body);
            && s.sent == st.sent + AnswerTo(st.params, a) && s.params == ParamsAfter(st.params, a)
            && s.n == r.n && (r.Reject? ==> s.cur == s.saved)
  {
  }

  /** An error in the header is answered under the last number that was read, and rolls back. */
  lemma HeaderErrorAnswered(st: Session, b: seq<byte>)
    requires Scan(b).Early?
    ensures var s := Advance(st, Scan(b));
            s.sent == st.sent + Reply(st.params, st.n, 0x4E, []) && s.cur == st.saved && s.n == st.n
  {
  }

  /** Over every run of attempts the receiver sends one answer for each, in order: an acknowledgement exactly for
      those it accepts. */
  lemma {:induction false} EachAttemptAnswered(st: Session, tries: seq<Attempt>, rest: seq<byte>)
    requires forall i | 0 <= i < |tries| :: Heard(tries[i])
    ensures exists s: Session ::
              s.sent == st.sent + Answers(st.params, tries) && Run(st, WireTries(tries) + rest) == Run(s, rest)
    decreases |tries|
  {
    if tries == [] {
      assert WireTries(tries) + rest == rest && st.sent + [] == st.sent;
    } else {
      var a, more := tries[0], WireTries(tries[1..]) + rest;
      var r := Scan(a.body);
      assert WireTries(tries) + rest == Wire(a) + more;
      RunAttempt(st, a, Packet(r.n, if r.Accept? then r.typ else DATA_TYPE, []), more);
      AttemptAnswered(st, a);
      EachAttemptAnswered(Tried(st, a), tries[1..], rest);
      Associate(st.sent, AnswerTo(st.params, a), Answers(ParamsAfter(st.params, a), tries[1..]));
    }
  }
}
