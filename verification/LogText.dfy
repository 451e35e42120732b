/** What the log buffer is meant to hold: the text of all calls with "<4>" put before every line that
    does not bring its own level, cut to the last LOGBUFF_LEN characters. */
module LogText {
  import opened Bytes

  const LOGBUFF_LEN := 16384

  const DEFAULT_PREFIX := "<4>"

  /** A line that begins "<0>" to "<7>". */
  predicate HasLevel(s: string) { |s| >= 3 && s[0] == '<' && '0' <= s[1] <= '7' && s[2] == '>' }

  /** The text of one call as logged. `open` tells whether a line begun earlier still goes on. */
  function Annotated(open: bool, s: string): string
    decreases |s|
  {
    if s == [] then []
    else (if !open && !HasLevel(s) then DEFAULT_PREFIX else []) + [s[0]] + Annotated(s[0] != '\n', s[1..])
  }

  function OpenAfter(open: bool, s: string): bool { if s == [] then open else s[|s| - 1] != '\n' }

  function Last(s: string, n: nat): string { if |s| <= n then s else s[|s| - n..] }

  // ----- line by line -----

  /** The first line of a text, with its newline if it has one. */
  function Upto(s: string): (u: string)
    ensures u <= s && (s != [] ==> u != [])
  {
    if s == [] then [] else if s[0] == '\n' then ['\n'] else [s[0]] + Upto(s[1..])
  }

  lemma {:induction false} UptoFacts(s: string)
    ensures forall i | 0 <= i < |Upto(s)| - 1 :: s[i] != '\n'
    ensures |Upto(s)| < |s| ==> s[|Upto(s)| - 1] == '\n'
  {
    if s != [] && s[0] != '\n' {
      UptoFacts(s[1..]);
      assert s == [s[0]] + s[1..];
      forall i | 0 <= i < |Upto(s)| - 1 ensures s[i] != '\n' {
        if i > 0 { assert s[i] == s[1..][i - 1]; }
      }
    }
  }

  /** An open line is logged as it is; what follows its newline starts afresh. */
  lemma {:induction false} AnnotatedOpenLine(s: string)
    requires s != []
    ensures Annotated(true, s) == Upto(s) + Annotated(!EndsLine(s), s[|Upto(s)|..])
  {
    UptoFacts(s);
    if s[0] == '\n' {
      assert Upto(s) == [s[0]];
    } else if |s| == 1 {
      assert s[1..] == [] && Upto(s) == [s[0]] + Upto([]) && Upto([]) == [];
    } else {
      AnnotatedOpenLine(s[1..]);
      assert s[1..][|Upto(s[1..])|..] == s[|Upto(s)|..];
      Associate([s[0]], Upto(s[1..]), Annotated(!EndsLine(s[1..]), s[|Upto(s)|..]));
      assert [] + [s[0]] == [s[0]];
    }
  }

  predicate EndsLine(s: string)
    requires s != []
  {
    UptoFacts(s);
    s[|Upto(s)| - 1] == '\n'
  }

  /** One turn of the outer loop of logbuff_printk: a prefix where one is missing, and a line. */
  lemma AnnotatedLine(open: bool, s: string)
    requires s != []
    ensures Annotated(open, s) ==
            (if !open && !HasLevel(s) then DEFAULT_PREFIX else []) + Upto(s) + Annotated(!EndsLine(s), s[|Upto(s)|..])
  {
    var prefix := if !open && !HasLevel(s) then DEFAULT_PREFIX else [];
    AnnotatedOpenLine(s);
    assert Annotated(true, s) == [] + [s[0]] + Annotated(s[0] != '\n', s[1..]);
    assert [] + [s[0]] == [s[0]];
    Associate(prefix, [s[0]], Annotated(s[0] != '\n', s[1..]));
    Associate(prefix, Upto(s), Annotated(!EndsLine(s), s[|Upto(s)|..]));
  }

  // ----- runs -----

  /** Everything a sequence of calls logs. */
  function Stream(open: bool, lines: seq<string>): string
    decreases |lines|
  {
    if lines == [] then [] else Annotated(open, lines[0]) + Stream(OpenAfter(open, lines[0]), lines[1..])
  }

  datatype Log = Log(open: bool, ring: string)

  /** logbuff_printk on the logged text. */
  function Printed(l: Log, line: string): Log {
    Log(OpenAfter(l.open, line), Last(l.ring + Annotated(l.open, line), LOGBUFF_LEN))
  }

  function PrintedAll(l: Log, lines: seq<string>): Log
    decreases |lines|
  {
    if lines == [] then l else PrintedAll(Printed(l, lines[0]), lines[1..])
  }

  lemma LastLast(a: string, b: string, n: nat)
    ensures Last(Last(a, n) + b, n) == Last(a + b, n)
  {
    if |a| > n {
      assert a == a[..|a| - n] + Last(a, n);
      assert a + b == a[..|a| - n] + (Last(a, n) + b);
    }
  }

  /** Over every sequence of calls the ring holds the last LOGBUFF_LEN characters of the annotated text. */
  lemma {:induction false} RingHoldsTail(l: Log, lines: seq<string>)
    requires |l.ring| <= LOGBUFF_LEN
    ensures PrintedAll(l, lines).ring == Last(l.ring + Stream(l.open, lines), LOGBUFF_LEN)
    decreases |lines|
  {
    if lines == [] {
      assert l.ring + [] == l.ring;
    } else {
      var l1 := Printed(l, lines[0]);
      RingHoldsTail(l1, lines[1..]);
      var a, b := Annotated(l.open, lines[0]), Stream(l1.open, lines[1..]);
      LastLast(l.ring + a, b, LOGBUFF_LEN);
      Associate(l.ring, a, b);
    }
  }

  // ----- every line carries a level -----

  predicate LineStart(open: bool, s: string, i: nat)
    requires i < |s|
  {
    if i == 0 then !open else s[i - 1] == '\n'
  }

  /** Every line that begins in the text begins with a level. */
  predicate Tagged(open: bool, s: string) {
    forall i | 0 <= i < |s| && LineStart(open, s, i) :: HasLevel(s[i..])
  }

  lemma TaggedConcat(open: bool, a: string, b: string)
    requires Tagged(open, a) && Tagged(OpenAfter(open, a), b)
    ensures Tagged(open, a + b)
  {
    var s := a + b;
    forall i | 0 <= i < |s| && LineStart(open, s, i) ensures HasLevel(s[i..]) {
      if i < |a| {
        assert LineStart(open, a, i);
        assert a[i..] + b == s[i..];
      } else {
        assert LineStart(OpenAfter(open, a), b, i - |a|);
        assert s[i..] == b[i - |a|..];
      }
    }
  }

  /** A text that begins with a level, where it must, and has no newline inside is tagged. */
  lemma OneLineTagged(open: bool, head: string)
    requires head != [] && (!open ==> HasLevel(head)) && forall j | 0 <= j < |head| - 1 :: head[j] != '\n'
    ensures Tagged(open, head)
  {
    assert head[0..] == head;
  }

  /** A line that goes on, or brings its level, is tagged as it is. */
  lemma PlainTagged(open: bool, s: string)
    requires s != [] && (open || HasLevel(s))
    ensures Tagged(open, Upto(s)) && OpenAfter(open, Upto(s)) == !EndsLine(s)
  {
    UptoFacts(s);
    if !open { LevelInLine(s); }
    var u := Upto(s);
    assert forall j | 0 <= j < |u| - 1 :: u[j] == s[j];
    OneLineTagged(open, u);
  }

  lemma PrefixedTagged(u: string)
    requires u != [] && forall j | 0 <= j < |u| - 1 :: u[j] != '\n'
    ensures Tagged(false, DEFAULT_PREFIX + u) && OpenAfter(false, DEFAULT_PREFIX + u) == (u[|u| - 1] != '\n')
  {
    var head := DEFAULT_PREFIX + u;
    forall j | 0 <= j < |head| - 1 ensures head[j] != '\n' {
      assert head[j] == if j < 3 then DEFAULT_PREFIX[j] else u[j - 3];
    }
    OneLineTagged(false, head);
  }

  lemma LevelInLine(s: string)
    requires HasLevel(s)
    ensures HasLevel(Upto(s))
  {
    UptoFacts(s);
    var u := Upto(s);
    assert s[0] != '\n' && s[1] != '\n';
    assert |u| >= 3;
    assert u[0] == s[0] && u[1] == s[1] && u[2] == s[2];
  }

  lemma HeadTagged(open: bool, s: string, head: string)
    requires s != [] && head == if !open && !HasLevel(s) then DEFAULT_PREFIX + Upto(s) else Upto(s)
    ensures Tagged(open, head) && OpenAfter(open, head) == !EndsLine(s)
  {
    if !open && !HasLevel(s) {
      UptoFacts(s);
      var u := Upto(s);
      assert forall j | 0 <= j < |u| - 1 :: u[j] == s[j];
      PrefixedTagged(u);
    } else {
      PlainTagged(open, s);
    }
  }

  lemma {:induction false} AnnotatedTagged(open: bool, s: string)
    ensures Tagged(open, Annotated(open, s))
    ensures OpenAfter(open, Annotated(open, s)) == OpenAfter(open, s)
    decreases |s|
  {
    if s != [] {
      var rest := s[|Upto(s)|..];
      var head := if !open && !HasLevel(s) then DEFAULT_PREFIX + Upto(s) else Upto(s);
      var tail := Annotated(!EndsLine(s), rest);
      AnnotatedLine(open, s);
      assert [] + Upto(s) == Upto(s);
      HeadTagged(open, s, head);
      AnnotatedTagged(!EndsLine(s), rest);
      TaggedConcat(open, head, tail);
      OpenConcat(open, head, tail);
      OpenSplit(s);
    }
  }

  // ----- and nothing else is added -----

  /** A line that begins at i without a level. */
  predicate Bare(open: bool, s: string, i: nat)
    requires i < |s|
  {
    LineStart(open, s, i) && !HasLevel(s[i..])
  }

  /** The lines without a level that begin before n. */
  function Bares(open: bool, s: string, n: nat): (r: nat)
    requires n <= |s|
    ensures r <= n
  {
    if n == 0 then 0 else Bares(open, s, n - 1) + if Bare(open, s, n - 1) then 1 else 0
  }

  /** Where a character of the text is logged. */
  function Place(open: bool, s: string, i: nat): nat
    requires i < |s|
  {
    i + 3 * Bares(open, s, i + 1)
  }

  /** What is left of the logged text without the prefixes. */
  ghost function Stripped(open: bool, s: string, t: string): (r: string)
    ensures |r| == |s|
  {
    seq(|s|, i requires 0 <= i < |s| => if Place(open, s, i) < |t| then t[Place(open, s, i)] else ' ')
  }

  lemma {:induction false} BaresTail(open: bool, s: string, n: nat)
    requires s != [] && n < |s|
    ensures Bares(open, s, n + 1) == (if Bare(open, s, 0) then 1 else 0) + Bares(s[0] != '\n', s[1..], n)
  {
    if n > 0 {
      BaresTail(open, s, n - 1);
      BareTail(open, s, n);
    }
  }

  /** One character of the text in the logged text, with the prefix before it if its line has no level. */
  ghost predicate Logged(open: bool, s: string, t: string, i: nat)
    requires i < |s|
  {
    var k := Place(open, s, i);
    k < |t| && t[k] == s[i] && (Bare(open, s, i) ==> k >= 3 && t[k - 3..k] == DEFAULT_PREFIX)
  }

  /** The logged text is the text with the default level before each line that has none, and nothing else: it
      is that much longer, and every character of the text stands at its place. */
  lemma {:induction false} AnnotatedInserts(open: bool, s: string)
    ensures |Annotated(open, s)| == |s| + 3 * Bares(open, s, |s|)
    ensures forall i | 0 <= i < |s| :: Logged(open, s, Annotated(open, s), i)
    decreases |s|
  {
    if s != [] {
      var t, u := Annotated(open, s), Annotated(s[0] != '\n', s[1..]);
      var prefix := if Bare(open, s, 0) then DEFAULT_PREFIX else [];
      AnnotatedHead(open, s, prefix);
      AnnotatedInserts(s[0] != '\n', s[1..]);
      BaresTail(open, s, |s| - 1);
      LoggedAll(open, s, prefix, s[0] != '\n', s[1..], u, t);
    }
  }

  lemma AnnotatedHead(open: bool, s: string, prefix: string)
    requires s != [] && prefix == if Bare(open, s, 0) then DEFAULT_PREFIX else []
    ensures Annotated(open, s) == prefix + [s[0]] + Annotated(s[0] != '\n', s[1..])
  {
    assert s[0..] == s;
  }

  lemma LoggedAll(open: bool, s: string, prefix: string, goesOn: bool, rest: string, u: string, t: string)
    requires s != [] && t == prefix + [s[0]] + u && rest == s[1..] && goesOn == (s[0] != '\n')
    requires prefix == if Bare(open, s, 0) then DEFAULT_PREFIX else []
    requires forall i | 0 <= i < |rest| :: Logged(goesOn, rest, u, i)
    ensures forall i | 0 <= i < |s| :: Logged(open, s, t, i)
  {
    forall i | 0 <= i < |s| ensures Logged(open, s, t, i) {
      if i == 0 {
        LoggedFirst(open, s, prefix, u, t);
      } else {
        LoggedTail(open, s, prefix, u, t, i);
      }
    }
  }

  lemma LoggedFirst(open: bool, s: string, prefix: string, u: string, t: string)
    requires s != [] && t == prefix + [s[0]] + u
    requires prefix == if Bare(open, s, 0) then DEFAULT_PREFIX else []
    ensures Logged(open, s, t, 0)
  {
    assert Bares(open, s, 1) == Bares(open, s, 0) + if Bare(open, s, 0) then 1 else 0;
    assert t[..|prefix|] == prefix;
  }

  /** Without the inserted prefixes the logged text is the text again. */
  lemma PrefixesStripped(open: bool, s: string)
    ensures Stripped(open, s, Annotated(open, s)) == s
  {
    AnnotatedInserts(open, s);
    var r := Stripped(open, s, Annotated(open, s));
    forall i | 0 <= i < |s| ensures r[i] == s[i] { assert Logged(open, s, Annotated(open, s), i); }
  }

  lemma LoggedTail(open: bool, s: string, prefix: string, u: string, t: string, i: nat)
    requires 0 < i < |s| && t == prefix + [s[0]] + u
    requires prefix == if Bare(open, s, 0) then DEFAULT_PREFIX else []
    requires Logged(s[0] != '\n', s[1..], u, i - 1)
    ensures Logged(open, s, t, i)
  {
    BaresTail(open, s, i);
    BareTail(open, s, i);
    var d, k := |prefix| + 1, Place(s[0] != '\n', s[1..], i - 1);
    assert Place(open, s, i) == k + d;
    Behind(prefix + [s[0]], u, t, k);
  }

  lemma BareTail(open: bool, s: string, i: nat)
    requires 0 < i < |s|
    ensures Bare(open, s, i) == Bare(s[0] != '\n', s[1..], i - 1)
  {
    assert s[1..][i - 1..] == s[i..];
  }

  lemma Behind(head: string, u: string, t: string, k: nat)
    requires t == head + u && k < |u|
    ensures t[k + |head|] == u[k] && (k >= 3 ==> t[k + |head| - 3..k + |head|] == u[k - 3..k])
  {
  }

  lemma OpenConcat(open: bool, a: string, b: string)
    ensures OpenAfter(open, a + b) == OpenAfter(OpenAfter(open, a), b)
  {
    if b == [] { assert a + b == a; }
  }

  lemma OpenSplit(s: string)
    requires s != []
    ensures forall open: bool :: OpenAfter(open, s) == OpenAfter(!EndsLine(s), s[|Upto(s)|..])
  {
    UptoFacts(s);
    assert |Upto(s)| == |s| ==> Upto(s) == s;
  }

  /** Every line begun by a run of calls is logged with a level, its own or the default. */
  lemma {:induction false} StreamTagged(open: bool, lines: seq<string>)
    ensures Tagged(open, Stream(open, lines))
    decreases |lines|
  {
    if lines != [] {
      AnnotatedTagged(open, lines[0]);
      StreamTagged(OpenAfter(open, lines[0]), lines[1..]);
      TaggedConcat(open, Annotated(open, lines[0]), Stream(OpenAfter(open, lines[0]), lines[1..]));
    }
  }
}
