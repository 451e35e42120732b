/** On contiguous banks the planner succeeds exactly for unions of whole sectors, and then selects
    exactly their sectors. */
module FlashExact {
  import opened Bytes
  import opened Options
  import opened FlashPlan

  // ----- contiguous banks -----

  /** The base of the first known bank from i on. */
  function NextBase(banks: seq<Bank>, i: nat): Option<nat>
    requires i <= |banks|
    decreases |banks| - i
  {
    if i == |banks| then None
    else if banks[i].known && banks[i].start != [] then Some(banks[i].start[0])
    else NextBase(banks, i + 1)
  }

  /** Known banks follow each other without a gap, in ascending order. */
  predicate Contiguous(banks: seq<Bank>, i: nat)
    requires i <= |banks| && KnownOk(banks)
    decreases |banks| - i
  {
    i == |banks| ||
    (Contiguous(banks, i + 1) &&
     (banks[i].known ==>
       assert BankOk(banks[i]);
       NextBase(banks, i + 1).Some? ==> NextBase(banks, i + 1).value == BankEnd(banks[i]) + 1))
  }

  predicate Holds(b: Bank, a: nat) { b.known && BankOk(b) && b.start[0] <= a <= BankEnd(b) }

  predicate HasStart(b: Bank, a: nat) { b.known && a in b.start }

  predicate HasEnd(b: Bank, a: nat) { b.known && exists s | 0 <= s < |b.start| :: SectorEnd(b, s) == a }

  predicate InFlash(banks: seq<Bank>, i: nat, a: nat) { exists j | i <= j < |banks| :: Holds(banks[j], a) }

  predicate IsStart(banks: seq<Bank>, i: nat, a: nat) { exists j | i <= j < |banks| :: HasStart(banks[j], a) }

  predicate IsEnd(banks: seq<Bank>, i: nat, a: nat) { exists j | i <= j < |banks| :: HasEnd(banks[j], a) }

  /** The range is exactly the sectors of the bank that lie inside the interval. */
  predicate RangeExact(b: Bank, r: Range, first: nat, last: nat) {
    if b.known then forall s | 0 <= s < |b.start| :: In(r, s) <==> first <= b.start[s] && SectorEnd(b, s) <= last
    else r == NONE
  }

  predicate Exact(banks: seq<Bank>, i: nat, rs: seq<Range>, first: nat, last: nat)
    requires i <= |banks|
  {
    |rs| == |banks| - i && forall k | 0 <= k < |rs| :: RangeExact(banks[i + k], rs[k], first, last)
  }

  predicate AllAbove(banks: seq<Bank>, i: nat, a: int) {
    forall j | i <= j < |banks| && banks[j].known && BankOk(banks[j]) :: a < banks[j].start[0]
  }

  /** Known banks from i on all lie at or above the first of them. */
  lemma {:induction false} BasesAscend(banks: seq<Bank>, i: nat)
    requires i <= |banks| && KnownOk(banks) && Contiguous(banks, i)
    ensures NextBase(banks, i).Some? ==> AllAbove(banks, i, NextBase(banks, i).value - 1)
    ensures NextBase(banks, i).None? ==> forall j | i <= j < |banks| :: !banks[j].known
    decreases |banks| - i
  {
    if i < |banks| {
      BasesAscend(banks, i + 1);
      if banks[i].known {
        assert BankOk(banks[i]);
        SectorBounds(banks[i], 0);
      }
    }
  }

  lemma BehindBank(banks: seq<Bank>, i: nat)
    requires i < |banks| && KnownOk(banks) && Contiguous(banks, i) && banks[i].known
    ensures AllAbove(banks, i + 1, BankEnd(banks[i]))
  {
    BasesAscend(banks, i + 1);
  }

  // ----- boundary cases of the plan -----

  /** The plan that selects nothing. */
  predicate Empty(rs: seq<Range>) { forall k | 0 <= k < |rs| :: rs[k] == NONE }

  lemma ConsEmpty(rs: seq<Range>)
    requires Empty(rs)
    ensures Empty([NONE] + rs)
  {
  }

  lemma {:induction false} PlanDone(banks: seq<Bank>, i: nat, first: nat, last: nat)
    requires i <= |banks| && KnownOk(banks)
    requires first > last || forall j | i <= j < |banks| :: !banks[j].known
    ensures var r := Plan(banks, i, first, last); r.Some? && |r.value| == |banks| - i && Empty(r.value)
    decreases |banks| - i
  {
    if i < |banks| {
      PlanDone(banks, i + 1, first, last);
      ConsEmpty(Plan(banks, i + 1, first, last).value);
    }
  }

  lemma NotTaken(b: Bank, first: nat, last: nat)
    requires BankOk(b) && (first < b.start[0] || first !in b.start)
    ensures !Judge(b, first, last).Take?
  {
    StartsAtFacts(b, first, |b.start|);
    forall s | 0 <= s < |b.start| ensures b.start[0] <= b.start[s] { SectorBounds(b, s); }
  }

  lemma {:induction false} PlanBelow(banks: seq<Bank>, i: nat, first: nat, last: nat)
    requires i <= |banks| && KnownOk(banks) && AllAbove(banks, i, first)
    ensures var r := Plan(banks, i, first, last); r.Some? ==> Empty(r.value)
    decreases |banks| - i
  {
    if i < |banks| {
      if banks[i].known {
        assert BankOk(banks[i]);
        NotTaken(banks[i], first, last);
      }
      PlanBelow(banks, i + 1, first, last);
      var r := Plan(banks, i + 1, first, last);
      if r.Some? { ConsEmpty(r.value); }
    }
  }

  lemma EmptySelectsNone(rs: seq<Range>)
    requires Empty(rs)
    ensures !SelectsSome(rs)
  {
  }

  /** Nothing above `a` starts or ends at or below it. */
  lemma AboveFacts(banks: seq<Bank>, i: nat, a: nat)
    requires i <= |banks| && KnownOk(banks) && AllAbove(banks, i, a)
    ensures !IsStart(banks, i, a) && !IsEnd(banks, i, a) && !InFlash(banks, i, a)
  {
    forall j | i <= j < |banks| && banks[j].known
      ensures !HasStart(banks[j], a) && !HasEnd(banks[j], a) && !Holds(banks[j], a)
    {
      var b := banks[j];
      assert BankOk(b);
      forall s | 0 <= s < |b.start| ensures b.start[s] > a && SectorEnd(b, s) > a { SectorBounds(b, s); }
    }
  }

  lemma HeadTail(banks: seq<Bank>, i: nat, a: nat)
    requires i < |banks|
    ensures IsStart(banks, i, a) <==> HasStart(banks[i], a) || IsStart(banks, i + 1, a)
    ensures IsEnd(banks, i, a) <==> HasEnd(banks[i], a) || IsEnd(banks, i + 1, a)
    ensures InFlash(banks, i, a) <==> Holds(banks[i], a) || InFlash(banks, i + 1, a)
  {
  }

  lemma HasEndIff(b: Bank, last: nat)
    requires b.known && b.start != []
    ensures HasEnd(b, last) <==> EndsAt(b, last, |b.start|) >= 0
  {
    EndsAtFacts(b, last, |b.start|);
  }

  lemma HasStartIff(b: Bank, first: nat)
    requires b.known
    ensures HasStart(b, first) <==> StartsAt(b, first, |b.start|) >= 0
  {
    StartsAtFacts(b, first, |b.start|);
  }

  /** Addresses outside a bank are none of its sector starts and ends. */
  lemma OutsideBank(b: Bank, a: nat)
    requires BankOk(b) && (a < b.start[0] || a > BankEnd(b))
    ensures !HasStart(b, a) && !HasEnd(b, a) && !Holds(b, a)
  {
    forall s | 0 <= s < |b.start|
      ensures b.start[0] <= b.start[s] <= BankEnd(b) && b.start[0] <= SectorEnd(b, s) <= BankEnd(b)
    { SectorBounds(b, s); }
  }

  /** What one bank contributes, by what begins and ends in it: a request that begins at one of its sectors is taken
      if it ends at one or runs on behind the bank; one that begins inside it otherwise, or only ends at one of its
      sectors, is an error; any other passes by. */
  lemma JudgeIff(b: Bank, first: nat, last: nat)
    requires BankOk(b) && b.known && first <= last
    ensures var v, end := Judge(b, first, last), b.start[0] + b.size - 1;
            && (v.Take? <==> HasStart(b, first) && (HasEnd(b, last) || last > end))
            && (v.Fail? <==> if HasStart(b, first) then !HasEnd(b, last) && last <= end
                             else b.start[0] <= first < end || HasEnd(b, last))
  {
    HasStartIff(b, first);
    HasEndIff(b, last);
    SectorBounds(b, 0);
    if HasStart(b, first) && HasEnd(b, last) { EndTaken(b, first, last); }
    if HasStart(b, first) && !HasEnd(b, last) && last > BankEnd(b) { OverIsTaken(b, first, last); }
  }

  // ----- the theorem, one bank at a time -----

  /** What is claimed of the plan r for banks i and up. */
  predicate Claim(banks: seq<Bank>, i: nat, r: Option<seq<Range>>, first: nat, last: nat)
    requires i <= |banks|
  {
    && (r.Some? && SelectsSome(r.value) ==>
        IsStart(banks, i, first) && IsEnd(banks, i, last) && Exact(banks, i, r.value, first, last))
    && (IsStart(banks, i, first) && IsEnd(banks, i, last) ==> r.Some? && SelectsSome(r.value))
    && (IsStart(banks, i, first) && r.Some? ==> IsEnd(banks, i, last))
  }

  lemma ConsSelects(r: Range, rs: seq<Range>)
    ensures SelectsSome([r] + rs) <==> r.lo >= 0 || SelectsSome(rs)
  {
    var all := [r] + rs;
    assert all[0] == r && forall k | 0 <= k < |rs| :: all[k + 1] == rs[k];
    if SelectsSome(rs) {
      var k :| 0 <= k < |rs| && rs[k].lo >= 0;
      assert all[k + 1].lo >= 0;
    }
    if SelectsSome(all) && r.lo < 0 {
      var k :| 0 <= k < |all| && all[k].lo >= 0;
      assert rs[k - 1] == all[k];
    }
  }

  lemma ConsExact(banks: seq<Bank>, i: nat, r: Range, rs: seq<Range>, first: nat, last: nat)
    requires i < |banks| && RangeExact(banks[i], r, first, last) && Exact(banks, i + 1, rs, first, last)
    ensures Exact(banks, i, [r] + rs, first, last)
  {
    var all := [r] + rs;
    forall k | 0 <= k < |all| ensures RangeExact(banks[i + k], all[k], first, last) {
      if k > 0 { assert all[k] == rs[k - 1] && banks[i + k] == banks[i + 1 + (k - 1)]; }
    }
  }

  /** A bank that takes no part: the claim carries over from the banks behind it. */
  lemma SkipClaim(banks: seq<Bank>, i: nat, r: Option<seq<Range>>, first: nat, last: nat)
    requires i < |banks| && RangeExact(banks[i], NONE, first, last)
    requires !HasStart(banks[i], first) && !HasEnd(banks[i], last)
    requires Claim(banks, i + 1, r, first, last)
    ensures Claim(banks, i, Cons(NONE, r), first, last)
  {
    HeadTail(banks, i, first);
    HeadTail(banks, i, last);
    if r.Some? {
      ConsSelects(NONE, r.value);
      if SelectsSome(r.value) { ConsExact(banks, i, NONE, r.value, first, last); }
    }
  }

  /** When no sector starts at `first`, it is enough that nothing is selected. */
  lemma NoStartClaim(banks: seq<Bank>, i: nat, r: Option<seq<Range>>, first: nat, last: nat)
    requires i <= |banks| && !IsStart(banks, i, first) && (r.Some? ==> Empty(r.value))
    ensures Claim(banks, i, r, first, last)
  {
    if r.Some? { EmptySelectsNone(r.value); }
  }

  /** The request begins behind bank i. */
  lemma BeyondBank(banks: seq<Bank>, i: nat, first: nat, last: nat)
    requires i < |banks| && KnownOk(banks) && banks[i].known && BankEnd(banks[i]) < first <= last
    ensures Judge(banks[i], first, last) == Skip && RangeExact(banks[i], NONE, first, last)
    ensures !HasStart(banks[i], first) && !HasEnd(banks[i], last) && !Holds(banks[i], last)
  {
    var b := banks[i];
    OutsideBank(b, first);
    OutsideBank(b, last);
    HasStartIff(b, first);
    HasEndIff(b, last);
    forall s | 0 <= s < |b.start| ensures b.start[s] < first { SectorBounds(b, s); }
  }

  /** The request begins in front of bank i, or inside it off a sector start: nothing is selected. */
  lemma OffStart(banks: seq<Bank>, i: nat, first: nat, last: nat)
    requires i < |banks| && KnownOk(banks) && Contiguous(banks, i) && banks[i].known && first <= last
    requires first <= BankEnd(banks[i]) && !HasStart(banks[i], first)
    ensures Claim(banks, i, Plan(banks, i, first, last), first, last)
  {
    var b := banks[i];
    BehindBank(banks, i);
    assert AllAbove(banks, i + 1, first);
    AboveFacts(banks, i + 1, first);
    HeadTail(banks, i, first);
    NotTaken(b, first, last);
    PlanBelow(banks, i + 1, first, last);
    var rest := Plan(banks, i + 1, first, last);
    if rest.Some? { ConsEmpty(rest.value); }
    NoStartClaim(banks, i, Plan(banks, i, first, last), first, last);
  }

  /** The request ends inside bank i, in which it begins on a sector start. */
  lemma EndsHere(banks: seq<Bank>, i: nat, first: nat, last: nat)
    requires i < |banks| && KnownOk(banks) && Contiguous(banks, i) && banks[i].known
    requires HasStart(banks[i], first) && first <= last <= BankEnd(banks[i])
    ensures Claim(banks, i, Plan(banks, i, first, last), first, last)
  {
    var b := banks[i];
    BehindBank(banks, i);
    assert AllAbove(banks, i + 1, last);
    AboveFacts(banks, i + 1, last);
    HeadTail(banks, i, first);
    HeadTail(banks, i, last);
    if HasEnd(b, last) {
      LastTaken(banks, i, first, last);
    } else {
      HasStartIff(b, first);
      HasEndIff(b, last);
    }
  }

  lemma LastTaken(banks: seq<Bank>, i: nat, first: nat, last: nat)
    requires i < |banks| && KnownOk(banks) && Contiguous(banks, i) && banks[i].known
    requires first <= last <= BankEnd(banks[i])
    requires HasStart(banks[i], first) && HasEnd(banks[i], last) && AllAbove(banks, i + 1, last)
    ensures var r := Plan(banks, i, first, last);
            r.Some? && SelectsSome(r.value) && Exact(banks, i, r.value, first, last)
  {
    var b := banks[i];
    EndTaken(b, first, last);
    var v := Judge(b, first, last);
    TakeEnds(b, first, last);
    TakeFacts(b, first, last);
    RestDone(banks, i, last);
    var rest := Plan(banks, i + 1, v.next, last).value;
    ExactAbove(banks, i + 1, rest, first, last);
    ConsExact(banks, i, v.range, rest, first, last);
    ConsSelects(v.range, rest);
  }

  /** A bank in which the request begins and behind which it goes on is taken to its end. */
  lemma RunsOver(b: Bank, first: nat, last: nat)
    requires BankOk(b) && b.known && HasStart(b, first) && first <= BankEnd(b) < last
    ensures Judge(b, first, last).Take? && Judge(b, first, last).next == (BankEnd(b) + 1) % WORD
    ensures Judge(b, first, last).range.lo >= 0 && RangeExact(b, Judge(b, first, last).range, first, last)
  {
    OverIsTaken(b, first, last);
    TakeEnds(b, first, last);
    TakeFacts(b, first, last);
    SectorBounds(b, Judge(b, first, last).range.hi);
  }

  lemma OverIsTaken(b: Bank, first: nat, last: nat)
    requires BankOk(b) && b.known && HasStart(b, first) && BankEnd(b) < last
    ensures Judge(b, first, last).Take?
  {
    HasStartIff(b, first);
    OutsideBank(b, last);
    HasEndIff(b, last);
    StartsAtFacts(b, first, |b.start|);
  }

  lemma EndTaken(b: Bank, first: nat, last: nat)
    requires BankOk(b) && b.known && HasStart(b, first) && HasEnd(b, last) && first <= last
    ensures Judge(b, first, last).Take? && 0 <= Judge(b, first, last).range.hi < |b.start|
    ensures Judge(b, first, last).next == (last + 1) % WORD
  {
    StartsAtFacts(b, first, |b.start|);
    EndsAtFacts(b, last, |b.start|);
    HasEndIff(b, last);
    var lo, hi := StartsAt(b, first, |b.start|), EndsAt(b, last, |b.start|);
    if hi < lo { SectorOrder(b, hi, lo); }
    TakeEnds(b, first, last);
  }

  /** Behind the last planned sector nothing more is selected, also when the address wrapped to zero. */
  lemma RestDone(banks: seq<Bank>, i: nat, last: nat)
    requires i < |banks| && KnownOk(banks) && Contiguous(banks, i) && banks[i].known && last <= BankEnd(banks[i])
    ensures var r := Plan(banks, i + 1, (last + 1) % WORD, last);
            r.Some? && |r.value| == |banks| - i - 1 && Empty(r.value)
  {
    SectorBounds(banks[i], 0);
    if last + 1 == WORD {
      BasesAscend(banks, i + 1);
      if NextBase(banks, i + 1).Some? { NextBaseSmall(banks, i + 1); }
    }
    PlanDone(banks, i + 1, (last + 1) % WORD, last);
  }

  lemma {:induction false} NextBaseSmall(banks: seq<Bank>, i: nat)
    requires i <= |banks| && KnownOk(banks) && NextBase(banks, i).Some?
    ensures NextBase(banks, i).value < WORD
    decreases |banks| - i
  {
    if banks[i].known && banks[i].start != [] {
      assert BankOk(banks[i]);
      SectorBounds(banks[i], 0);
    } else {
      NextBaseSmall(banks, i + 1);
    }
  }

  /** An empty plan is exact for banks that lie wholly above the interval. */
  lemma ExactAbove(banks: seq<Bank>, i: nat, rs: seq<Range>, first: nat, last: nat)
    requires i <= |banks| && KnownOk(banks) && AllAbove(banks, i, last) && |rs| == |banks| - i && Empty(rs)
    ensures Exact(banks, i, rs, first, last)
  {
    forall k | 0 <= k < |rs| ensures RangeExact(banks[i + k], rs[k], first, last) {
      var b := banks[i + k];
      if b.known {
        assert BankOk(b);
        forall s | 0 <= s < |b.start| ensures SectorEnd(b, s) > last { SectorBounds(b, s); }
      }
    }
  }

  /** The request goes on behind bank i, in which it begins on a sector start. */
  lemma GoesOn(banks: seq<Bank>, i: nat, first: nat, last: nat)
    requires i < |banks| && KnownOk(banks) && Contiguous(banks, i) && banks[i].known
    requires HasStart(banks[i], first) && first <= BankEnd(banks[i]) < last && last < WORD
    requires InFlash(banks, i + 1, last)
    requires Claim(banks, i + 1, Plan(banks, i + 1, BankEnd(banks[i]) + 1, last), BankEnd(banks[i]) + 1, last)
    ensures Claim(banks, i, Plan(banks, i, first, last), first, last)
  {
    var rest := Plan(banks, i + 1, BankEnd(banks[i]) + 1, last);
    var r := PlanTakes(banks, i, first, last, rest);
    GoesOnBehind(banks, i, r, rest, first, last);
  }

  lemma GoesOnBehind(banks: seq<Bank>, i: nat, r: Range, rest: Option<seq<Range>>, first: nat, last: nat)
    requires i < |banks| && KnownOk(banks) && Contiguous(banks, i) && banks[i].known
    requires HasStart(banks[i], first) && first <= BankEnd(banks[i]) < last && InFlash(banks, i + 1, last)
    requires r.lo >= 0 && RangeExact(banks[i], r, first, last)
    requires Claim(banks, i + 1, rest, BankEnd(banks[i]) + 1, last)
    ensures Claim(banks, i, Cons(r, rest), first, last)
  {
    OutsideBank(banks[i], last);
    StartOfNext(banks, i, last);
    BehindBank(banks, i);
    TakeClaim(banks, i, r, rest, first, BankEnd(banks[i]) + 1, last);
  }

  /** The planner takes such a bank to its end. */
  lemma PlanTakes(banks: seq<Bank>, i: nat, first: nat, last: nat, rest: Option<seq<Range>>) returns (r: Range)
    requires i < |banks| && KnownOk(banks) && banks[i].known && BankOk(banks[i])
    requires HasStart(banks[i], first) && first <= BankEnd(banks[i]) < last && last < WORD
    requires rest == Plan(banks, i + 1, BankEnd(banks[i]) + 1, last)
    ensures Plan(banks, i, first, last) == Cons(r, rest)
    ensures r.lo >= 0 && RangeExact(banks[i], r, first, last)
  {
    r := TakenToItsEnd(banks[i], first, last);
    PlanStep(banks, i, first, last, Take(r, BankEnd(banks[i]) + 1));
  }

  lemma TakenToItsEnd(b: Bank, first: nat, last: nat) returns (r: Range)
    requires BankOk(b) && b.known && HasStart(b, first) && first <= BankEnd(b) < last && last < WORD
    ensures Judge(b, first, last) == Take(r, BankEnd(b) + 1) && r.lo >= 0 && RangeExact(b, r, first, last)
  {
    RunsOver(b, first, last);
    assert (BankEnd(b) + 1) % WORD == BankEnd(b) + 1;
    r := Judge(b, first, last).range;
  }

  lemma PlanStep(banks: seq<Bank>, i: nat, first: nat, last: nat, v: Verdict)
    requires i < |banks| && KnownOk(banks) && banks[i].known && BankOk(banks[i])
    requires first <= last && v.Take? && v == Judge(banks[i], first, last)
    ensures Plan(banks, i, first, last) == Cons(v.range, Plan(banks, i + 1, v.next, last))
  {
  }

  /** A range taken in front of banks for which the claim holds from where the scan goes on. */
  lemma TakeClaim(banks: seq<Bank>, i: nat, r: Range, rest: Option<seq<Range>>, first: nat, next: nat, last: nat)
    requires i < |banks| && KnownOk(banks) && first <= next && AllAbove(banks, i + 1, next - 1)
    requires HasStart(banks[i], first) && !HasEnd(banks[i], last) && r.lo >= 0 && RangeExact(banks[i], r, first, last)
    requires IsStart(banks, i + 1, next) && Claim(banks, i + 1, rest, next, last)
    ensures Claim(banks, i, Cons(r, rest), first, last)
  {
    HeadTail(banks, i, first);
    HeadTail(banks, i, last);
    if rest.Some? {
      RestExact(banks, i + 1, rest.value, first, next, last);
      ConsExact(banks, i, r, rest.value, first, last);
      ConsSelects(r, rest.value);
    }
  }

  lemma StartOfNext(banks: seq<Bank>, i: nat, last: nat)
    requires i < |banks| && KnownOk(banks) && Contiguous(banks, i) && banks[i].known && InFlash(banks, i + 1, last)
    ensures IsStart(banks, i + 1, BankEnd(banks[i]) + 1)
  {
    var j :| i + 1 <= j < |banks| && Holds(banks[j], last);
    BasesAscend(banks, i + 1);
    BaseIsStart(banks, i + 1);
  }

  lemma {:induction false} BaseIsStart(banks: seq<Bank>, i: nat)
    requires i <= |banks| && NextBase(banks, i).Some?
    ensures IsStart(banks, i, NextBase(banks, i).value)
    decreases |banks| - i
  {
    if banks[i].known && banks[i].start != [] {
      assert HasStart(banks[i], banks[i].start[0]);
    } else {
      BaseIsStart(banks, i + 1);
    }
  }

  /** For banks above the point where the scan goes on, inside from there and inside the request are the same. */
  lemma RestExact(banks: seq<Bank>, i: nat, rs: seq<Range>, first: nat, next: nat, last: nat)
    requires i <= |banks| && KnownOk(banks) && first <= next
    requires AllAbove(banks, i, next - 1) && Exact(banks, i, rs, next, last)
    ensures Exact(banks, i, rs, first, last)
  {
    forall k | 0 <= k < |rs| ensures RangeExact(banks[i + k], rs[k], first, last) {
      var b := banks[i + k];
      if b.known {
        assert BankOk(b);
        forall s | 0 <= s < |b.start| ensures next <= b.start[s] { SectorBounds(b, s); }
      }
    }
  }

  /** For contiguous banks and an end that lies in flash, planning selects something and succeeds if and only if
      the interval begins at a sector start and ends at a sector end; it then selects exactly the sectors inside. */
  lemma {:induction false} PlanExact(banks: seq<Bank>, i: nat, first: nat, last: nat)
    requires i <= |banks| && KnownOk(banks) && Contiguous(banks, i) && InFlash(banks, i, last) && first <= last
    ensures Claim(banks, i, Plan(banks, i, first, last), first, last)
    decreases |banks| - i
  {
    HeadTail(banks, i, last);
    var b := banks[i];
    if !b.known {
      PlanExact(banks, i + 1, first, last);
      SkipClaim(banks, i, Plan(banks, i + 1, first, last), first, last);
    } else {
      assert BankOk(b);
      SectorBounds(b, 0);
      if BankEnd(b) < first {
        BeyondBank(banks, i, first, last);
        PlanExact(banks, i + 1, first, last);
        SkipClaim(banks, i, Plan(banks, i + 1, first, last), first, last);
      } else if !HasStart(b, first) {
        OffStart(banks, i, first, last);
      } else if last <= BankEnd(b) {
        EndsHere(banks, i, first, last);
      } else {
        PlanExact(banks, i + 1, BankEnd(b) + 1, last);
        InFlashSmall(banks, i + 1, last);
        GoesOn(banks, i, first, last);
      }
    }
  }

  lemma InFlashSmall(banks: seq<Bank>, i: nat, a: nat)
    requires InFlash(banks, i, a)
    ensures a < WORD
  {
    var j :| i <= j < |banks| && Holds(banks[j], a);
    SectorBounds(banks[j], 0);
  }

  // ----- tiling -----

  lemma {:induction false} ContiguousTail(banks: seq<Bank>, i: nat, j: nat)
    requires i <= j <= |banks| && KnownOk(banks) && Contiguous(banks, i)
    ensures Contiguous(banks, j)
    decreases j - i
  {
    if i < j { ContiguousTail(banks, i + 1, j); }
  }

  /** Of two sectors of contiguous banks, the one that starts lower ends before the other starts. */
  lemma SectorsApart(banks: seq<Bank>, i: nat, s: nat, j: nat, t: nat)
    requires KnownOk(banks) && Contiguous(banks, 0) && i < |banks| && j < |banks| && banks[i].known && banks[j].known
    requires s < |banks[i].start| && t < |banks[j].start| && banks[i].start[s] < banks[j].start[t]
    ensures SectorEnd(banks[i], s) < banks[j].start[t]
  {
    var a, b := banks[i], banks[j];
    assert BankOk(a) && BankOk(b);
    SectorBounds(a, s);
    SectorBounds(b, t);
    if i == j {
      SectorOrder(a, s, t);
    } else if i < j {
      ContiguousTail(banks, 0, i);
      BehindBank(banks, i);
    } else {
      ContiguousTail(banks, 0, j);
      BehindBank(banks, j);
    }
  }

  /** When the interval begins at a sector start and ends at a sector end, every sector that meets it lies
      inside. */
  lemma SectorsTile(banks: seq<Bank>, first: nat, last: nat, i: nat, s: nat)
    requires KnownOk(banks) && Contiguous(banks, 0) && IsStart(banks, 0, first) && IsEnd(banks, 0, last)
    requires i < |banks| && banks[i].known && s < |banks[i].start|
    requires banks[i].start[s] <= last && first <= SectorEnd(banks[i], s)
    ensures first <= banks[i].start[s] && SectorEnd(banks[i], s) <= last
  {
    var j :| 0 <= j < |banks| && HasStart(banks[j], first);
    var t :| 0 <= t < |banks[j].start| && banks[j].start[t] == first;
    if banks[i].start[s] < first { SectorsApart(banks, i, s, j, t); }
    var k :| 0 <= k < |banks| && HasEnd(banks[k], last);
    var u :| 0 <= u < |banks[k].start| && SectorEnd(banks[k], u) == last;
    assert BankOk(banks[k]) && BankOk(banks[i]);
    SectorBounds(banks[k], u);
    SectorBounds(banks[i], s);
    if banks[i].start[s] < banks[k].start[u] {
      SectorsApart(banks, i, s, k, u);
    } else if banks[k].start[u] < banks[i].start[s] {
      SectorsApart(banks, k, u, i, s);
    } else {
      SameSector(banks, i, s, k, u);
    }
  }

  lemma SameSector(banks: seq<Bank>, i: nat, s: nat, j: nat, t: nat)
    requires KnownOk(banks) && Contiguous(banks, 0) && i < |banks| && j < |banks| && banks[i].known && banks[j].known
    requires s < |banks[i].start| && t < |banks[j].start| && banks[i].start[s] == banks[j].start[t]
    ensures i == j && s == t
  {
    assert BankOk(banks[i]) && BankOk(banks[j]);
    SectorBounds(banks[i], s);
    SectorBounds(banks[j], t);
    if i < j {
      ContiguousTail(banks, 0, i);
      BehindBank(banks, i);
    } else if j < i {
      ContiguousTail(banks, 0, j);
      BehindBank(banks, j);
    }
  }

  /** An address of a bank lies in one of its sectors. */
  lemma {:induction false} HeldBySector(b: Bank, a: nat, n: nat)
    requires BankOk(b) && b.start[0] <= a <= BankEnd(b) && 0 < n <= |b.start|
    requires n < |b.start| ==> a < b.start[n]
    ensures exists t | 0 <= t < n :: b.start[t] <= a <= SectorEnd(b, t)
  {
    SectorBounds(b, n - 1);
    if a < b.start[n - 1] { HeldBySector(b, a, n - 1); }
  }

  /** Contiguous banks leave no gap between the first base and an end in flash. */
  lemma {:induction false} NoGap(banks: seq<Bank>, i: nat, a: nat, last: nat)
    requires i <= |banks| && KnownOk(banks) && Contiguous(banks, i) && InFlash(banks, i, last)
    requires NextBase(banks, i).Some? && NextBase(banks, i).value <= a <= last
    ensures InFlash(banks, i, a)
    decreases |banks| - i
  {
    HeadTail(banks, i, last);
    var b := banks[i];
    if b.known && a <= BankEnd(b) {
      assert BankOk(b) && Holds(b, a);
    } else {
      if b.known {
        assert BankOk(b);
        BasesAscend(banks, i + 1);
      }
      NoGap(banks, i + 1, a, last);
    }
  }

  /** Every address of an interval that begins at a sector start and ends at a sector end lies in flash. */
  lemma IntervalInFlash(banks: seq<Bank>, first: nat, last: nat, a: nat)
    requires KnownOk(banks) && Contiguous(banks, 0) && IsStart(banks, 0, first) && IsEnd(banks, 0, last)
    requires first <= a <= last
    ensures InFlash(banks, 0, a)
  {
    var j :| 0 <= j < |banks| && HasStart(banks[j], first);
    var t :| 0 <= t < |banks[j].start| && banks[j].start[t] == first;
    assert BankOk(banks[j]);
    SectorBounds(banks[j], t);
    var k :| 0 <= k < |banks| && HasEnd(banks[k], last);
    var u :| 0 <= u < |banks[k].start| && SectorEnd(banks[k], u) == last;
    assert BankOk(banks[k]);
    SectorBounds(banks[k], u);
    assert Holds(banks[k], last);
    BasesAscend(banks, 0);
    NoGap(banks, 0, a, last);
  }

  /** The sectors inside such an interval tile it: each of its addresses lies in one of them, and in no other
      sector of a known bank. */
  lemma EachAddressOnce(banks: seq<Bank>, first: nat, last: nat, a: nat) returns (i: nat, s: nat)
    requires KnownOk(banks) && Contiguous(banks, 0) && IsStart(banks, 0, first) && IsEnd(banks, 0, last)
    requires first <= a <= last
    ensures i < |banks| && banks[i].known && s < |banks[i].start|
    ensures first <= banks[i].start[s] <= a <= SectorEnd(banks[i], s) <= last
    ensures forall j, t | 0 <= j < |banks| && banks[j].known && 0 <= t < |banks[j].start| ::
              banks[j].start[t] <= a <= SectorEnd(banks[j], t) ==> j == i && t == s
  {
    IntervalInFlash(banks, first, last, a);
    i :| 0 <= i < |banks| && Holds(banks[i], a);
    HeldBySector(banks[i], a, |banks[i].start|);
    s :| 0 <= s < |banks[i].start| && banks[i].start[s] <= a <= SectorEnd(banks[i], s);
    SectorsTile(banks, first, last, i, s);
    forall j, t | 0 <= j < |banks| && banks[j].known && 0 <= t < |banks[j].start|
      ensures banks[j].start[t] <= a <= SectorEnd(banks[j], t) ==> j == i && t == s
    {
      if banks[j].start[t] <= a <= SectorEnd(banks[j], t) { OneHolds(banks, i, s, j, t, a); }
    }
  }

  lemma OneHolds(banks: seq<Bank>, i: nat, s: nat, j: nat, t: nat, a: nat)
    requires KnownOk(banks) && Contiguous(banks, 0) && i < |banks| && j < |banks| && banks[i].known && banks[j].known
    requires s < |banks[i].start| && banks[i].start[s] <= a <= SectorEnd(banks[i], s)
    requires t < |banks[j].start| && banks[j].start[t] <= a <= SectorEnd(banks[j], t)
    ensures i == j && s == t
  {
    if banks[i].start[s] == banks[j].start[t] {
      SameSector(banks, i, s, j, t);
    } else if banks[i].start[s] < banks[j].start[t] {
      SectorsApart(banks, i, s, j, t);
    } else {
      SectorsApart(banks, j, t, i, s);
    }
  }

  // ----- start +length -----

  /** The end of a listed sector, in 32 bits, also of a bank that is not known. */
  function ListedEnd(b: Bank, s: nat): nat
    requires s < |b.start|
  {
    if s == |b.start| - 1 then BankEnd(b) else (b.start[s + 1] as int - 1) % WORD
  }

  lemma ListedEndKnown(b: Bank, s: nat)
    requires BankOk(b) && s < |b.start|
    ensures ListedEnd(b, s) == SectorEnd(b, s)
  {
    SectorBounds(b, s);
    if s + 1 < |b.start| { SectorBounds(b, s + 1); }
  }

  /** A listed sector holds an address. */
  predicate Lists(b: Bank, s: nat, a: nat)
    requires s < |b.start|
  {
    b.start[s] <= a <= ListedEnd(b, s)
  }

  /** Among the listed sectors that hold an address, there is none of a bank that is not known. */
  predicate ListedKnown(banks: seq<Bank>, a: nat) {
    forall j, t | 0 <= j < |banks| && 0 <= t < |banks[j].start| :: Lists(banks[j], t, a) ==> banks[j].known
  }

  /** The end of the first listed sector that holds an address. */
  function RoundUp(banks: seq<Bank>, i: nat, a: nat): Option<nat>
    requires i <= |banks|
    decreases |banks| - i
  {
    if i == |banks| then None
    else
      match RoundIn(banks[i], a, 0)
      case Some(e) => Some(e)
      case None => RoundUp(banks, i + 1, a)
  }

  function RoundIn(b: Bank, a: nat, s: nat): Option<nat>
    requires s <= |b.start|
    decreases |b.start| - s
  {
    if s == |b.start| then None
    else if Lists(b, s, a) then Some(ListedEnd(b, s))
    else RoundIn(b, a, s + 1)
  }

  lemma {:induction false} RoundInFacts(b: Bank, a: nat, s: nat)
    requires s <= |b.start|
    ensures var r := RoundIn(b, a, s);
            if r.Some? then exists t | s <= t < |b.start| :: Lists(b, t, a) && ListedEnd(b, t) == r.value
            else forall t | s <= t < |b.start| :: !Lists(b, t, a)
    decreases |b.start| - s
  {
    if s < |b.start| && !Lists(b, s, a) { RoundInFacts(b, a, s + 1); }
  }

  /** Rounding goes up to the end of a sector that holds the address, and fails only when no sector does. */
  lemma {:induction false} RoundUpFacts(banks: seq<Bank>, i: nat, a: nat)
    requires i <= |banks|
    ensures var r := RoundUp(banks, i, a);
            if r.Some? then exists j, t | i <= j < |banks| && 0 <= t < |banks[j].start| ::
                              Lists(banks[j], t, a) && ListedEnd(banks[j], t) == r.value
            else forall j, t | i <= j < |banks| && 0 <= t < |banks[j].start| :: !Lists(banks[j], t, a)
    decreases |banks| - i
  {
    if i < |banks| {
      RoundInFacts(banks[i], a, 0);
      RoundUpFacts(banks, i + 1, a);
    }
  }

  /** The sector of a known bank that an address is rounded to the end of. */
  lemma RoundedTo(banks: seq<Bank>, a: nat) returns (j: nat, t: nat)
    requires KnownOk(banks) && ListedKnown(banks, a) && RoundUp(banks, 0, a).Some?
    ensures j < |banks| && banks[j].known && BankOk(banks[j]) && t < |banks[j].start|
    ensures banks[j].start[t] <= a <= SectorEnd(banks[j], t) == RoundUp(banks, 0, a).value
  {
    RoundUpFacts(banks, 0, a);
    var e := RoundUp(banks, 0, a).value;
    j, t :| 0 <= j < |banks| && 0 <= t < |banks[j].start| && Lists(banks[j], t, a) && ListedEnd(banks[j], t) == e;
    ListedEndKnown(banks[j], t);
  }

  /** The sectors inside first..RoundUp(a) are those that meet first..a: rounding adds no sector of its own. */
  lemma RoundingAddsNothing(banks: seq<Bank>, first: nat, a: nat, i: nat, s: nat)
    requires KnownOk(banks) && Contiguous(banks, 0) && ListedKnown(banks, a)
    requires RoundUp(banks, 0, a).Some? && IsStart(banks, 0, first) && first <= a
    requires i < |banks| && banks[i].known && s < |banks[i].start|
    ensures first <= banks[i].start[s] && SectorEnd(banks[i], s) <= RoundUp(banks, 0, a).value
            <==> banks[i].start[s] <= a && first <= SectorEnd(banks[i], s)
  {
    var e := RoundUp(banks, 0, a).value;
    var j, t := RoundedTo(banks, a);
    assert HasEnd(banks[j], e);
    assert BankOk(banks[i]);
    SectorBounds(banks[i], s);
    SectorBounds(banks[j], t);
    if banks[i].start[s] <= a && first <= SectorEnd(banks[i], s) {
      SectorsTile(banks, first, e, i, s);
    }
    if SectorEnd(banks[i], s) <= e && a < banks[i].start[s] {
      SectorsApart(banks, j, t, i, s);
    }
  }
}
