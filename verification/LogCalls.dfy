/** What counts as a level, and when it makes no difference how a text is divided into calls. */
module LogCalls {
  import opened Bytes
  import opened LogText

  /** The levels are the eight texts "<0>" to "<7>"; a line without one gets "<4>". The ring holds
      16 KiB. */
  lemma LevelsAre(s: string)
    ensures HasLevel(s) <==> |s| >= 3 && s[..3] in {"<0>", "<1>", "<2>", "<3>", "<4>", "<5>", "<6>", "<7>"}
    ensures DEFAULT_PREFIX == "<4>" && LOGBUFF_LEN == 16 * 1024
  {
    if |s| >= 3 { assert s[..3] == [s[0], s[1], s[2]]; }
  }

  /** A line that begins in the first text gets its level only through the second one. */
  ghost predicate Torn(open: bool, a: string, b: string) {
    exists i | 0 <= i < |a| :: LineStart(open, a, i) && !HasLevel(a[i..]) && HasLevel(a[i..] + b)
  }

  lemma TornHead(open: bool, a: string, b: string)
    requires a != ""
    ensures Torn(open, a, b) <==> (!open && !HasLevel(a) && HasLevel(a + b)) || Torn(a[0] != '\n', a[1..], b)
  {
    var t, rest := a[0] != '\n', a[1..];
    assert a[0..] == a;
    forall i | 0 <= i < |rest| ensures LineStart(t, rest, i) == LineStart(open, a, i + 1) && rest[i..] == a[i + 1..] {}
    if Torn(open, a, b) {
      var i :| 0 <= i < |a| && LineStart(open, a, i) && !HasLevel(a[i..]) && HasLevel(a[i..] + b);
      if i > 0 { assert LineStart(t, rest, i - 1) && rest[i - 1..] == a[i..]; }
    }
    if Torn(t, rest, b) {
      var i :| 0 <= i < |rest| && LineStart(t, rest, i) && !HasLevel(rest[i..]) && HasLevel(rest[i..] + b);
      assert LineStart(open, a, i + 1) && a[i + 1..] == rest[i..];
    }
  }

  function Prefix(open: bool, s: string): string { if !open && !HasLevel(s) then DEFAULT_PREFIX else [] }

  lemma AnnotatedStep(open: bool, s: string)
    requires s != ""
    ensures Annotated(open, s) == Prefix(open, s) + ([s[0]] + Annotated(s[0] != '\n', s[1..]))
  {
    Associate(Prefix(open, s), [s[0]], Annotated(s[0] != '\n', s[1..]));
  }

  /** Two calls log what one call with both texts would, exactly if no level is torn apart between them; a torn one
      makes them log more. */
  lemma {:induction false} CallsJoinIff(open: bool, a: string, b: string)
    ensures var both, each := Annotated(open, a + b), Annotated(open, a) + Annotated(OpenAfter(open, a), b);
            (both == each <==> !Torn(open, a, b)) && (Torn(open, a, b) ==> |both| < |each|)
    decreases |a|
  {
    if a == "" {
      assert a + b == b && [] + Annotated(open, b) == Annotated(open, b);
    } else {
      var t, rest := a[0] != '\n', a[1..];
      CallsJoinIff(t, rest, b);
      TornHead(open, a, b);
      assert (a + b)[0] == a[0] && (a + b)[1..] == rest + b;
      assert OpenAfter(open, a) == OpenAfter(t, rest);
      AnnotatedStep(open, a);
      AnnotatedStep(open, a + b);
      JoinStep(Prefix(open, a), Prefix(open, a + b), [a[0]], Annotated(t, rest + b), Annotated(t, rest),
               Annotated(OpenAfter(t, rest), b), Torn(t, rest, b));
    }
  }

  lemma JoinStep(p: string, q: string, c: string, both: string, x: string, y: string, torn: bool)
    requires q == p || (q == [] && |p| > 0)
    requires (both == x + y <==> !torn) && (torn ==> |both| < |x + y|)
    ensures var l, r := q + (c + both), (p + (c + x)) + y;
            (l == r <==> q == p && !torn) && (q != p || torn ==> |l| < |r|)
  {
    assert (p + (c + x)) + y == p + (c + (x + y));
  }

  /** No level is torn apart along a list of calls. */
  ghost predicate Whole(open: bool, lines: seq<string>)
    decreases |lines|
  {
    lines == [] || (!Torn(open, lines[0], Flatten(lines[1..])) && Whole(OpenAfter(open, lines[0]), lines[1..]))
  }

  /** Over any sequence of calls that tears no level apart, the stream is that of one call with the whole text. */
  lemma {:induction false} StreamIsText(open: bool, lines: seq<string>)
    requires Whole(open, lines)
    ensures Stream(open, lines) == Annotated(open, Flatten(lines))
    decreases |lines|
  {
    if lines != [] {
      StreamIsText(OpenAfter(open, lines[0]), lines[1..]);
      CallsJoinIff(open, lines[0], Flatten(lines[1..]));
    }
  }
}
