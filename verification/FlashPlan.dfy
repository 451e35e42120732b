/** From an address interval to per-bank sector ranges: what flash_fill_sect_ranges plans, and that it stays
    inside the interval. */
module FlashPlan {
  import opened Bytes
  import opened Options

  /** One flash_info entry: `known` is flash_id != FLASH_UNKNOWN, `start` the sector start addresses. */
  datatype Bank = Bank(known: bool, start: seq<nat>, size: nat)

  /** Sectors lo..hi of a bank; -1 for none. */
  datatype Range = Range(lo: int, hi: int)

  const NONE := Range(-1, -1)

  function BankEnd(b: Bank): nat
    requires b.start != []
  {
    (b.start[0] + b.size - 1) % WORD
  }

  function SectorEnd(b: Bank, s: nat): int
    requires s < |b.start|
  {
    if s == |b.start| - 1 then BankEnd(b) else b.start[s + 1] as int - 1
  }

  /** A detected bank: sectors in ascending order, none of them empty, no address wrap inside. */
  predicate BankOk(b: Bank) {
    && b.start != []
    && (forall i, j | 0 <= i < j < |b.start| :: b.start[i] < b.start[j])
    && b.start[|b.start| - 1] < b.start[0] + b.size <= WORD
  }

  // ----- one bank -----

  /** The sector that starts at `first`, or -1; the last such one, as the scan leaves it. */
  function StartsAt(b: Bank, first: nat, n: nat): int
    requires n <= |b.start|
  {
    if n == 0 then -1 else if b.start[n - 1] == first then n - 1 else StartsAt(b, first, n - 1)
  }

  function EndsAt(b: Bank, last: nat, n: nat): int
    requires n <= |b.start|
  {
    if n == 0 then -1 else if SectorEnd(b, n - 1) == last then n - 1 else EndsAt(b, last, n - 1)
  }

  /** What one bank contributes: nothing, a range and the address to go on from, or an error. */
  datatype Verdict = Skip | Take(range: Range, next: nat) | Fail

  function Judge(b: Bank, first: nat, last: nat): Verdict
    requires b.start != []
  {
    var lo, hi, top := StartsAt(b, first, |b.start|), EndsAt(b, last, |b.start|), |b.start| - 1;
    if lo >= 0 then
      if hi < 0 && last <= BankEnd(b) then Fail
      else
        var hi' := if hi < 0 then top else hi;
        EndsAtFacts(b, last, |b.start|);
        if hi' < lo then Fail
        else Take(Range(lo, hi'), if hi' == top then (BankEnd(b) + 1) % WORD else b.start[hi' + 1])
    else if b.start[0] <= first < BankEnd(b) then Fail
    else if hi >= 0 then Fail
    else Skip
  }

  lemma {:induction false} EndsAtFacts(b: Bank, last: nat, n: nat)
    requires n <= |b.start|
    ensures var r := EndsAt(b, last, n);
            && -1 <= r < n && (r >= 0 ==> SectorEnd(b, r) == last)
            && (r < 0 ==> forall s | 0 <= s < n :: SectorEnd(b, s) != last)
  {
    if n > 0 && SectorEnd(b, n - 1) != last { EndsAtFacts(b, last, n - 1); }
  }

  lemma {:induction false} StartsAtFacts(b: Bank, first: nat, n: nat)
    requires n <= |b.start|
    ensures var r := StartsAt(b, first, n);
            && -1 <= r < n && (r >= 0 ==> b.start[r] == first)
            && (r < 0 ==> forall s | 0 <= s < n :: b.start[s] != first)
  {
    if n > 0 && b.start[n - 1] != first { StartsAtFacts(b, first, n - 1); }
  }

  // ----- all banks -----

  /** The ranges of banks i and up, or None for an error. */
  function Plan(banks: seq<Bank>, i: nat, first: nat, last: nat): Option<seq<Range>>
    requires i <= |banks| && KnownOk(banks)
    decreases |banks| - i
  {
    if i == |banks| then Some([])
    else if first > last || !banks[i].known then Cons(NONE, Plan(banks, i + 1, first, last))
    else
      assert BankOk(banks[i]);
      match Judge(banks[i], first, last)
      case Fail => None
      case Skip => Cons(NONE, Plan(banks, i + 1, first, last))
      case Take(range, next) => Cons(range, Plan(banks, i + 1, next, last))
  }

  function Cons(r: Range, rest: Option<seq<Range>>): Option<seq<Range>> {
    match rest
    case None => None
    case Some(rs) => Some([r] + rs)
  }

  predicate KnownOk(banks: seq<Bank>) { forall k | 0 <= k < |banks| :: banks[k].known ==> BankOk(banks[k]) }

  /** Sector s is in the planned range of its bank. */
  predicate In(r: Range, s: int) { 0 <= r.lo <= s <= r.hi }

  predicate SelectsSome(rs: seq<Range>) { exists k | 0 <= k < |rs| :: rs[k].lo >= 0 }

  // ----- geometry of one bank -----

  lemma SectorBounds(b: Bank, s: nat)
    requires BankOk(b) && s < |b.start|
    ensures b.start[0] <= b.start[s] <= SectorEnd(b, s) <= BankEnd(b) == b.start[0] + b.size - 1
    ensures s + 1 < |b.start| ==> SectorEnd(b, s) + 1 == b.start[s + 1]
  {
    assert s > 0 ==> b.start[0] < b.start[s];
    assert s + 1 < |b.start| ==> b.start[s] < b.start[s + 1] && b.start[s + 1] <= b.start[|b.start| - 1];
  }

  /** Later sectors lie higher. */
  lemma SectorOrder(b: Bank, s: nat, t: nat)
    requires BankOk(b) && s < t < |b.start|
    ensures SectorEnd(b, s) < b.start[t]
  {
    SectorBounds(b, s);
    assert s + 1 < t ==> b.start[s + 1] < b.start[t];
  }

  lemma TakeEnds(b: Bank, first: nat, last: nat)
    requires BankOk(b) && first <= last && Judge(b, first, last).Take?
    ensures var v := Judge(b, first, last);
            && 0 <= v.range.lo <= v.range.hi < |b.start| && b.start[v.range.lo] == first
            && SectorEnd(b, v.range.hi) <= last && v.next == (SectorEnd(b, v.range.hi) + 1) % WORD
            && (SectorEnd(b, v.range.hi) == last || (v.range.hi == |b.start| - 1 && BankEnd(b) < last))
  {
    var v := Judge(b, first, last);
    StartsAtFacts(b, first, |b.start|);
    EndsAtFacts(b, last, |b.start|);
    var hi := v.range.hi;
    SectorBounds(b, hi);
    if hi + 1 < |b.start| { SectorBounds(b, hi + 1); }
  }

  lemma InsideIff(b: Bank, lo: nat, hi: nat, first: nat, last: nat, s: nat)
    requires BankOk(b) && lo <= hi < |b.start| && s < |b.start|
    requires b.start[lo] == first && SectorEnd(b, hi) <= last
    requires SectorEnd(b, hi) == last || hi == |b.start| - 1
    ensures lo <= s <= hi <==> first <= b.start[s] && SectorEnd(b, s) <= last
  {
    SectorBounds(b, s);
    SectorBounds(b, hi);
    if s < lo { assert b.start[s] < b.start[lo]; }
    if lo < s { assert b.start[lo] < b.start[s]; }
    if s < hi {
      SectorOrder(b, s, hi);
    } else if hi < s {
      SectorOrder(b, hi, s);
    }
  }

  /** A bank's taken range is exactly the sectors that lie inside the interval; the scan goes on behind them. */
  lemma TakeFacts(b: Bank, first: nat, last: nat)
    requires BankOk(b) && first <= last && Judge(b, first, last).Take?
    ensures var v := Judge(b, first, last);
            forall s | 0 <= s < |b.start| :: In(v.range, s) <==> first <= b.start[s] && SectorEnd(b, s) <= last
  {
    var v := Judge(b, first, last);
    TakeEnds(b, first, last);
    forall s | 0 <= s < |b.start| ensures In(v.range, s) <==> first <= b.start[s] && SectorEnd(b, s) <= last {
      InsideIff(b, v.range.lo, v.range.hi, first, last, s);
    }
  }

  // ----- safety -----

  /** A bank at the top of the address space makes the scan go on from address zero: no bank behind it may
      begin there. */
  predicate NoWrap(banks: seq<Bank>) {
    forall i, j | 0 <= i < j < |banks| ::
      && banks[i].known && banks[j].known && BankOk(banks[i]) && BankOk(banks[j])
      && banks[i].start[0] + banks[i].size == WORD
      ==> banks[j].start[0] != 0
  }

  /** Where the scan may stand at bank i: not before the request, or at zero after a wrap with no bank there. */
  predicate Standing(banks: seq<Bank>, i: nat, first: nat, at: nat) {
    || first <= at
    || (at == 0 && forall j | i <= j < |banks| :: banks[j].known && BankOk(banks[j]) ==> banks[j].start[0] != 0)
  }

  /** Every sector of the range lies inside the interval. */
  ghost predicate RangeInside(b: Bank, r: Range, first: nat, last: nat) {
    forall s | 0 <= s && In(r, s) :: b.known && s < |b.start| && first <= b.start[s] && SectorEnd(b, s) <= last
  }

  ghost predicate Inside(banks: seq<Bank>, i: nat, rs: seq<Range>, first: nat, last: nat)
    requires i <= |banks|
  {
    |rs| == |banks| - i && forall k | 0 <= k < |rs| :: RangeInside(banks[i + k], rs[k], first, last)
  }

  lemma ConsInside(banks: seq<Bank>, i: nat, r: Range, rs: seq<Range>, first: nat, last: nat)
    requires i < |banks| && RangeInside(banks[i], r, first, last) && Inside(banks, i + 1, rs, first, last)
    ensures Inside(banks, i, [r] + rs, first, last)
  {
    var all := [r] + rs;
    forall k | 0 <= k < |all| ensures RangeInside(banks[i + k], all[k], first, last) {
      if k > 0 { assert all[k] == rs[k - 1] && banks[i + k] == banks[i + 1 + (k - 1)]; }
    }
  }

  lemma TakeStands(banks: seq<Bank>, i: nat, first: nat, at: nat, last: nat)
    requires i < |banks| && KnownOk(banks) && NoWrap(banks) && Standing(banks, i, first, at) && at <= last
    requires banks[i].known && BankOk(banks[i]) && Judge(banks[i], at, last).Take?
    ensures RangeInside(banks[i], Judge(banks[i], at, last).range, first, last)
    ensures Standing(banks, i + 1, first, Judge(banks[i], at, last).next)
  {
    var b := banks[i];
    var v := Judge(b, at, last);
    TakeEnds(b, at, last);
    SectorBounds(b, v.range.lo);
    assert first <= at;
    TakenInside(b, first, at, last);
    NextStands(banks, i, first, at, v.range.lo, v.range.hi);
  }

  lemma TakenInside(b: Bank, first: nat, at: nat, last: nat)
    requires b.known && BankOk(b) && first <= at <= last && Judge(b, at, last).Take?
    ensures RangeInside(b, Judge(b, at, last).range, first, last)
  {
    TakeEnds(b, at, last);
    TakeFacts(b, at, last);
  }

  /** Behind a taken range the scan stands higher, or at zero when the range ended at the top. */
  lemma NextStands(banks: seq<Bank>, i: nat, first: nat, at: nat, lo: nat, hi: nat)
    requires i < |banks| && NoWrap(banks) && banks[i].known && BankOk(banks[i])
    requires lo <= hi < |banks[i].start| && first <= at == banks[i].start[lo]
    ensures Standing(banks, i + 1, first, (SectorEnd(banks[i], hi) + 1) % WORD)
  {
    var b := banks[i];
    SectorBounds(b, lo);
    SectorBounds(b, hi);
    if lo < hi { SectorOrder(b, lo, hi); }
    if SectorEnd(b, hi) + 1 < WORD {
      assert (SectorEnd(b, hi) + 1) % WORD == SectorEnd(b, hi) + 1;
    }
  }

  /** Safety: whatever the planner selects lies wholly inside the requested interval. */
  lemma {:induction false} PlanStaysInside(banks: seq<Bank>, i: nat, first: nat, at: nat, last: nat)
    requires i <= |banks| && KnownOk(banks) && NoWrap(banks) && Standing(banks, i, first, at)
    ensures var r := Plan(banks, i, at, last); r.Some? ==> Inside(banks, i, r.value, first, last)
    decreases |banks| - i
  {
    if i < |banks| {
      var b := banks[i];
      if at > last || !b.known || Judge(b, at, last).Skip? {
        PlanStaysInside(banks, i + 1, first, at, last);
        var r := Plan(banks, i + 1, at, last);
        if r.Some? { ConsInside(banks, i, NONE, r.value, first, last); }
      } else if Judge(b, at, last).Take? {
        var v := Judge(b, at, last);
        TakeStands(banks, i, first, at, last);
        PlanStaysInside(banks, i + 1, first, v.next, last);
        var r := Plan(banks, i + 1, v.next, last);
        if r.Some? { ConsInside(banks, i, v.range, r.value, first, last); }
      }
    }
  }

  /** A bank entered at its base and requested to its end or beyond is taken whole. */
  lemma TakesAll(b: Bank, last: nat)
    requires BankOk(b) && BankEnd(b) <= last
    ensures Judge(b, b.start[0], last) == Take(Range(0, |b.start| - 1), (BankEnd(b) + 1) % WORD)
  {
    var top := |b.start| - 1;
    StartsAtFacts(b, b.start[0], |b.start|);
    EndsAtFacts(b, last, |b.start|);
    SectorBounds(b, top);
    forall s | 0 <= s < top ensures SectorEnd(b, s) < BankEnd(b) { SectorOrder(b, s, top); }
    assert SectorEnd(b, top) == BankEnd(b);
  }
}
