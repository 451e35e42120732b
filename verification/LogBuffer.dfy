/** logbuff_printk as it runs: the line is copied into a scratch buffer, missing level prefixes are
    written over bytes that were logged already, and every character goes into a masked ring. */
module LogBuffer {
  import opened Bytes
  import opened LogText

  const SCRATCH_LEN := 1024
  const NUL := '\0'

  /** The slot of a ring position: the 32-bit sum of the fields, masked. */
  function Slot(x: nat): nat { (x % WORD) % LOGBUFF_LEN }

  lemma SlotIs(x: nat)
    ensures Slot(x) == x % LOGBUFF_LEN < LOGBUFF_LEN
  {
    var q := x / WORD;
    assert x == q * WORD + x % WORD;
    assert q * WORD == (q * 262144) * LOGBUFF_LEN;
    AddMultiple(x % WORD, q * 262144);
  }

  lemma AddMultiple(r: nat, k: nat)
    ensures (r + k * LOGBUFF_LEN) % LOGBUFF_LEN == r % LOGBUFF_LEN
  {
  }

  /** Positions less than a ring length apart have different slots. */
  lemma SlotsDiffer(a: nat, b: nat)
    requires a < b < a + LOGBUFF_LEN
    ensures a % LOGBUFF_LEN != b % LOGBUFF_LEN
  {
  }

  lemma SlotShift(x: nat)
    ensures (x + LOGBUFF_LEN) % LOGBUFF_LEN == x % LOGBUFF_LEN
  {
  }

  ghost function RingText(ring: string, start: nat, size: nat): (s: string)
    requires |ring| == LOGBUFF_LEN
    ensures |s| == size && forall i | 0 <= i < size :: s[i] == ring[(start + i) % LOGBUFF_LEN]
  {
    seq(size, i requires 0 <= i < size => ring[(start + i) % LOGBUFF_LEN])
  }

  class LogBuffer {
    const scratch: array<char>       // buf
    const ring: array<char>          // log_buf
    var logStart: nat
    var logSize: nat
    var loggedChars: nat
    ghost var logged: nat            // characters since the last reset
    var msgLevel: int                // -1 between lines

    ghost predicate Valid()
      reads this
    {
      && scratch.Length == SCRATCH_LEN && ring.Length == LOGBUFF_LEN && scratch != ring
      && logSize <= LOGBUFF_LEN && logStart < WORD && loggedChars == logged % WORD && -1 <= msgLevel <= 7
    }

    /** The logged text, oldest character first. */
    ghost function Contents(): (s: string)
      requires Valid()
      reads this, ring
      ensures |s| == logSize && forall i | 0 <= i < logSize :: s[i] == ring[(logStart + i) % LOGBUFF_LEN]
    {
      RingText(ring[..], logStart, logSize)
    }

    ghost function View(): Log
      requires Valid()
      reads this, ring
    {
      Log(msgLevel >= 0, Contents())
    }

    constructor ()
      ensures Valid() && View() == Log(false, []) && loggedChars == logged == 0
      ensures fresh(scratch) && fresh(ring)
    {
      scratch := new char[SCRATCH_LEN];
      ring := new char[LOGBUFF_LEN];
      logStart, logSize, loggedChars, msgLevel := 0, 0, 0, -1;
      logged := 0;
    }

    /** `log reset`: the text goes, an open line stays open. */
    method Reset()
      requires Valid()
      modifies this`logStart, this`logSize, this`loggedChars, this`logged
      ensures Valid() && View() == Log(old(View().open), []) && loggedChars == logged == 0
    {
      logStart, logSize, loggedChars := 0, 0, 0;
      logged := 0;
    }

    /** One character into the ring; a full ring loses its oldest. */
    method Put(c: char)
      requires Valid()
      modifies this`logStart, this`logSize, this`loggedChars, this`logged, ring
      ensures Valid() && Contents() == Last(old(Contents()) + [c], LOGBUFF_LEN)
      ensures logged == old(logged) + 1
    {
      ghost var before := Contents();
      SlotIs(logStart + logSize);
      ring[Slot(logStart + logSize)] := c;
      if logSize < LOGBUFF_LEN {
        forall i | 0 <= i < logSize ensures ring[(logStart + i) % LOGBUFF_LEN] == before[i] {
          SlotsDiffer(logStart + i, logStart + logSize);
        }
        logSize := logSize + 1;
        assert Contents() == before + [c];
      } else {
        forall i | 0 < i < logSize ensures ring[(logStart + i) % LOGBUFF_LEN] == before[i] {
          SlotsDiffer(logStart + i, logStart + logSize);
        }
        DropOldest(before, c);
      }
      WrapAdd(logged, 1);
      loggedChars := (loggedChars + 1) % WORD;
      logged := logged + 1;
    }

    /** A full ring whose oldest slot was overwritten goes on from the next position. */
    method DropOldest(ghost before: string, ghost c: char)
      requires Valid() && logSize == LOGBUFF_LEN && |before| == logSize && ring[(logStart + logSize) % LOGBUFF_LEN] == c
      requires forall i | 0 < i < logSize :: ring[(logStart + i) % LOGBUFF_LEN] == before[i]
      modifies this`logStart
      ensures Valid() && Contents() == Last(before + [c], LOGBUFF_LEN)
    {
      SlotShift(logStart);
      PutFull(before, c);
      logStart := (logStart + 1) % WORD;
      assert Contents() == before[1..] + [c];
    }

    // ----- logbuff_printk -----

    /** strcpy(buf + 3, line) */
    method CopyLine(line: string)
      requires Valid() && |line| + 4 <= SCRATCH_LEN
      modifies scratch
      ensures scratch[3..3 + |line|] == line && scratch[3 + |line|] == NUL
    {
      var i := 0;
      while i < |line|
        invariant i <= |line| && scratch[3..3 + i] == line[..i]
      {
        scratch[3 + i] := line[i];
        assert scratch[3..3 + (i + 1)] == scratch[3..3 + i] + [line[i]];
        i := i + 1;
      }
      scratch[3 + i] := NUL;
      assert line[..i] == line;
    }

    /** One more character behind `done`. */
    method PutMore(c: char, ghost before: string, ghost done: string)
      requires Valid() && Contents() == Last(before + done, LOGBUFF_LEN)
      modifies this`logStart, this`logSize, this`loggedChars, this`logged, ring
      ensures Valid() && Contents() == Last(before + (done + [c]), LOGBUFF_LEN)
      ensures logged == old(logged) + 1
    {
      Put(c);
      LastLast(before + done, [c], LOGBUFF_LEN);
      Associate(before, done, [c]);
    }

    /** The inner loop: logs from p up to a newline or the end; the result is where it stopped. */
    method PutLine(p0: nat, bufEnd: nat, ghost text: string) returns (p: nat, lineFeed: bool)
      requires Valid() && p0 < bufEnd <= SCRATCH_LEN && scratch[p0..bufEnd] == text
      modifies this`logStart, this`logSize, this`loggedChars, this`logged, ring
      ensures Valid()
      ensures Contents() == Last(old(Contents()) + Upto(text), LOGBUFF_LEN)
      ensures logged == old(logged) + |Upto(text)|
      ensures lineFeed == EndsLine(text)
      ensures p == p0 + |Upto(text)| - if lineFeed then 1 else 0
    {
      UptoFacts(text);
      p, lineFeed := PutRun(p0, bufEnd, text, Upto(text));
    }

    lemma ScratchAt(p0: nat, bufEnd: nat, text: string, u: string, k: nat)
      requires p0 <= bufEnd <= scratch.Length && scratch[p0..bufEnd] == text && u <= text && k < |u|
      ensures scratch[p0 + k] == u[k] && u[..k + 1] == u[..k] + [u[k]]
    {
      assert scratch[p0..bufEnd][k] == text[k];
    }

    /** Logs the character at p, which is character k of the line; says whether it is a newline. */
    method PutNext(p: nat, bufEnd: nat, ghost text: string, ghost u: string, ghost before: string, ghost k: nat)
      returns (lineFeed: bool)
      requires Valid() && k <= p < bufEnd <= SCRATCH_LEN && scratch[p - k..bufEnd] == text && u <= text && k < |u|
      requires Contents() == Last(before + u[..k], LOGBUFF_LEN)
      modifies this`logStart, this`logSize, this`loggedChars, this`logged, ring
      ensures Valid() && Contents() == Last(before + u[..k + 1], LOGBUFF_LEN)
      ensures logged == old(logged) + 1 && lineFeed == (u[k] == '\n')
    {
      ScratchAt(p - k, bufEnd, text, u, k);
      PutMore(scratch[p], before, u[..k]);
      lineFeed := scratch[p] == '\n';
    }

    /** The same for a line `u` of which only the end may be a newline. */
    method PutRun(p0: nat, bufEnd: nat, ghost text: string, ghost u: string) returns (p: nat, lineFeed: bool)
      requires Valid() && p0 < bufEnd <= SCRATCH_LEN && scratch[p0..bufEnd] == text && u <= text && u != []
      requires forall i | 0 <= i < |u| - 1 :: u[i] != '\n'
      requires |u| < |text| ==> u[|u| - 1] == '\n'
      modifies this`logStart, this`logSize, this`loggedChars, this`logged, ring
      ensures Valid() && Contents() == Last(old(Contents()) + u, LOGBUFF_LEN)
      ensures logged == old(logged) + |u|
      ensures lineFeed == (u[|u| - 1] == '\n') && p == p0 + |u| - if lineFeed then 1 else 0
    {
      ghost var before := Contents();
      p, lineFeed := p0, false;
      assert before + u[..0] == before;
      while p < bufEnd
        invariant p0 <= p <= p0 + |u| && Valid() && !lineFeed
        invariant p == p0 + |u| ==> p == bufEnd && u[|u| - 1] != '\n'
        invariant Contents() == Last(before + u[..p - p0], LOGBUFF_LEN)
        invariant logged == old(logged) + (p - p0)
      {
        lineFeed := PutNext(p, bufEnd, text, u, before, p - p0);
        if lineFeed { break; }
        p := p + 1;
      }
      assert u[..|u|] == u;
    }

    /** The level test at p: the terminator behind the text keeps it from looking further. */
    method MissesLevel(p: nat, bufEnd: nat, ghost rest: string) returns (missing: bool)
      requires Valid() && p < bufEnd < SCRATCH_LEN && scratch[p..bufEnd] == rest && scratch[bufEnd] == NUL
      ensures missing == !HasLevel(rest)
    {
      assert forall i | 0 <= i < |rest| :: scratch[p + i] == rest[i];
      missing := scratch[p] != '<' || scratch[p + 1] < '0' || scratch[p + 1] > '7' || scratch[p + 2] != '>';
    }

    /** Puts the default level in front of p, over bytes that were logged already. */
    method Tag(p0: nat, bufEnd: nat, ghost rest: string) returns (p: nat)
      requires Valid() && 3 <= p0 < bufEnd < SCRATCH_LEN && scratch[p0..bufEnd] == rest && scratch[bufEnd] == NUL
      modifies scratch
      ensures p == p0 - 3 && scratch[p..bufEnd] == DEFAULT_PREFIX + rest
      ensures scratch[p0..bufEnd] == rest && scratch[bufEnd] == NUL
    {
      p := p0 - 3;
      scratch[p] := '<';
      scratch[p + 1] := '4';
      scratch[p + 2] := '>';
      assert scratch[p0..bufEnd] == rest;
      assert scratch[p..bufEnd] == scratch[p..p0] + scratch[p0..bufEnd];
    }

    /** The level of a line that starts at p0: tested, put in front if it is missing, and remembered. */
    method Level(p0: nat, bufEnd: nat, ghost rest: string) returns (p: nat, ghost text: string)
      requires Valid() && 3 <= p0 < bufEnd < SCRATCH_LEN && scratch[p0..bufEnd] == rest && scratch[bufEnd] == NUL
      modifies this`msgLevel, scratch
      ensures Valid() && msgLevel >= 0 && scratch[p0..bufEnd] == rest && scratch[bufEnd] == NUL
      ensures text == Prefix(old(msgLevel) >= 0, rest) + rest
      ensures p == p0 - |Prefix(old(msgLevel) >= 0, rest)| && scratch[p..bufEnd] == text
    {
      p := p0;
      text := rest;
      assert [] + rest == rest;
      if msgLevel < 0 {
        var missing := MissesLevel(p, bufEnd, rest);
        if missing {
          p := Tag(p, bufEnd, rest);
          text := DEFAULT_PREFIX + rest;
        }
        assert scratch[p + 1] == scratch[p..bufEnd][1] == text[1];
        msgLevel := scratch[p + 1] as int - '0' as int;
      }
    }

    /** One turn of the outer loop: `rest` is what the line still holds; the result is where the turn stopped. */
    method OneLine(p0: nat, bufEnd: nat, ghost rest: string) returns (p: nat)
      requires Valid() && 3 <= p0 < bufEnd < SCRATCH_LEN && scratch[p0..bufEnd] == rest && scratch[bufEnd] == NUL
      modifies this`logStart, this`logSize, this`loggedChars, this`logged, this`msgLevel, ring, scratch
      ensures Valid() && scratch[p0..bufEnd] == rest && scratch[bufEnd] == NUL
      ensures Contents() == Last(old(Contents()) + Head(old(msgLevel) >= 0, rest), LOGBUFF_LEN)
      ensures logged == old(logged) + |Head(old(msgLevel) >= 0, rest)|
      ensures msgLevel >= 0 <==> !EndsLine(rest)
      ensures p == p0 + |Upto(rest)| - if EndsLine(rest) then 1 else 0
    {
      ghost var text;
      p, text := Level(p0, bufEnd, rest);
      HeadIs(old(msgLevel) >= 0, rest);
      var lineFeed;
      p, lineFeed := PutLine(p, bufEnd, text);
      if lineFeed { msgLevel := -1; }
    }

    /** The turn and the step of the outer loop behind it. */
    method Advance(p0: nat, bufEnd: nat, ghost rest: string, ghost before: string, ghost done: string) returns (p: nat)
      requires Valid() && 3 <= p0 < bufEnd < SCRATCH_LEN && scratch[p0..bufEnd] == rest && scratch[bufEnd] == NUL
      requires Contents() == Last(before + done, LOGBUFF_LEN)
      modifies this`logStart, this`logSize, this`loggedChars, this`logged, this`msgLevel, ring, scratch
      ensures Valid() && scratch[bufEnd] == NUL
      ensures Contents() == Last(before + (done + Head(old(msgLevel) >= 0, rest)), LOGBUFF_LEN)
      ensures logged == old(logged) + |Head(old(msgLevel) >= 0, rest)|
      ensures msgLevel >= 0 <==> !EndsLine(rest)
      ensures Remains(p, bufEnd, rest[|Upto(rest)|..])
    {
      p := OneLine(p0, bufEnd, rest);
      p := p + 1;
      LastLast(before + done, Head(old(msgLevel) >= 0, rest), LOGBUFF_LEN);
      Associate(before, done, Head(old(msgLevel) >= 0, rest));
      UptoFacts(rest);
      assert p < bufEnd ==> scratch[p..bufEnd] == scratch[p0..bufEnd][p - p0..];
    }

    /** `rest` is what lies between p and the end of the line; p may be one past it. */
    ghost predicate Remains(p: nat, bufEnd: nat, rest: string)
      reads this, scratch
    {
      && bufEnd < scratch.Length
      && if p < bufEnd then scratch[p..bufEnd] == rest else rest == []
    }

    /** logbuff_printk */
    method Printk(line: string) returns (n: nat)
      requires Valid() && |line| + 4 <= SCRATCH_LEN && NUL !in line
      modifies this`logStart, this`logSize, this`loggedChars, this`logged, this`msgLevel, ring, scratch
      ensures Valid() && View() == Printed(old(View()), line)
      ensures logged == old(logged) + |Annotated(old(msgLevel) >= 0, line)|
      ensures n == |line|
    {
      ghost var before, open := Contents(), msgLevel >= 0;
      CopyLine(line);
      n := |line|;
      var bufEnd := 3 + n;
      var p := 3;
      ghost var rest, done: string := line, [];
      assert before + [] == before && [] + Annotated(open, line) == Annotated(open, line);
      while p < bufEnd
        invariant Valid() && 3 <= p && Remains(p, bufEnd, rest) && scratch[bufEnd] == NUL
        invariant Annotated(open, line) == done + Annotated(msgLevel >= 0, rest)
        invariant OpenAfter(open, line) == OpenAfter(msgLevel >= 0, rest)
        invariant Contents() == Last(before + done, LOGBUFF_LEN)
        invariant logged == old(logged) + |done|
        decreases |rest|
      {
        Turn(msgLevel >= 0, rest, done);
        ghost var head := Head(msgLevel >= 0, rest);
        p := Advance(p, bufEnd, rest, before, done);
        rest, done := rest[|Upto(rest)|..], done + head;
      }
      assert done + [] == done;
    }

    /** Reading a full ring from the next position on. */
    lemma PutFull(before: string, c: char)
      requires Valid() && logSize == LOGBUFF_LEN && |before| == logSize && ring[logStart % LOGBUFF_LEN] == c
      requires forall i | 0 < i < logSize :: ring[(logStart + i) % LOGBUFF_LEN] == before[i]
      ensures forall i | 0 <= i < logSize ::
                ring[((logStart + 1) % WORD + i) % LOGBUFF_LEN] == (before[1..] + [c])[i]
    {
      forall i | 0 <= i < logSize ensures ring[((logStart + 1) % WORD + i) % LOGBUFF_LEN] == (before[1..] + [c])[i] {
        NextStart(logStart, i);
        SlotShift(logStart);
        if i + 1 < logSize { assert (before[1..] + [c])[i] == before[i + 1]; }
      }
    }
  }

  /** What is put in front of a line: the default level if it starts here without one. */
  ghost function Prefix(open: bool, s: string): string {
    if !open && !HasLevel(s) then DEFAULT_PREFIX else []
  }

  /** What one turn of the outer loop logs: the first line, with the default level if it needs one. */
  ghost function Head(open: bool, s: string): string {
    Prefix(open, s) + Upto(s)
  }

  /** The prefix holds no newline, so it only lengthens the first line. */
  lemma HeadIs(open: bool, s: string)
    requires s != []
    ensures Upto(Prefix(open, s) + s) == Head(open, s) && EndsLine(Prefix(open, s) + s) == EndsLine(s)
  {
    if Prefix(open, s) == [] {
      assert [] + s == s && [] + Upto(s) == Upto(s);
    } else {
      UptoTagged(s);
    }
  }

  lemma UptoTagged(s: string)
    requires s != []
    ensures Upto(DEFAULT_PREFIX + s) == DEFAULT_PREFIX + Upto(s) && EndsLine(DEFAULT_PREFIX + s) == EndsLine(s)
  {
    PrefixCons(s);
    PrefixCons(Upto(s));
    UptoStep('>', s);
    UptoStep('4', ['>'] + s);
    UptoStep('<', ['4'] + (['>'] + s));
  }

  lemma PrefixCons(s: string)
    ensures DEFAULT_PREFIX + s == ['<'] + (['4'] + (['>'] + s))
  {
  }

  lemma UptoStep(c: char, s: string)
    requires c != '\n' && s != []
    ensures Upto([c] + s) == [c] + Upto(s) && EndsLine([c] + s) == EndsLine(s)
  {
    assert ([c] + s)[1..] == s;
  }

  lemma Turn(open: bool, rest: string, done: string)
    requires rest != []
    ensures done + Annotated(open, rest) == done + Head(open, rest) + Annotated(!EndsLine(rest), rest[|Upto(rest)|..])
    ensures OpenAfter(open, rest) == OpenAfter(!EndsLine(rest), rest[|Upto(rest)|..])
  {
    AnnotatedLine(open, rest);
    Associate(done, Head(open, rest), Annotated(!EndsLine(rest), rest[|Upto(rest)|..]));
    UptoFacts(rest);
    if |Upto(rest)| == |rest| { assert Upto(rest) == rest; }
  }

  lemma NextStart(start: nat, i: nat)
    requires start < WORD
    ensures ((start + 1) % WORD + i) % LOGBUFF_LEN == (start + (i + 1)) % LOGBUFF_LEN
  {
    if start + 1 == WORD {
      assert start + (i + 1) == i + 262144 * LOGBUFF_LEN;
      AddMultiple(i, 262144);
    }
  }
}
