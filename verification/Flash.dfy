/** The `protect` command on address intervals: the nested scans that fill the sector ranges, the
    protect bits they switch, and the rounding of "start +length". */
module Flash {
  import opened Bytes
  import opened Options
  import opened FlashPlan
  import opened FlashExact

  /** The sector scan of one bank: the sectors that start at `first` and end at `last`. */
  method ScanBank(b: Bank, first: nat, last: nat) returns (lo: int, hi: int)
    requires BankOk(b) && first <= last
    ensures lo == StartsAt(b, first, |b.start|) && hi == EndsAt(b, last, |b.start|)
  {
    lo, hi := -1, -1;
    var sect := 0;
    while sect < |b.start|
      invariant sect <= |b.start| && lo == StartsAt(b, first, sect) && hi == EndsAt(b, last, sect)
    {
      var end := if sect == |b.start| - 1 then BankEnd(b) else b.start[sect + 1] as int - 1;
      SectorBounds(b, sect);
      if !(first > end) && !(last < b.start[sect]) {
        if first == b.start[sect] { lo := sect; }
        if last == end { hi := sect; }
      }
      sect := sect + 1;
    }
  }

  /** What one bank contributes, as the body of the bank loop decides it. */
  method JudgeBank(b: Bank, first: nat, last: nat) returns (v: Verdict)
    requires BankOk(b) && first <= last
    ensures v == Judge(b, first, last)
  {
    var bEnd, sEnd := BankEnd(b), |b.start| - 1;
    var lo, hi := ScanBank(b, first, last);
    StartsAtFacts(b, first, |b.start|);
    EndsAtFacts(b, last, |b.start|);
    if lo >= 0 {
      if hi < 0 {
        if last > bEnd {
          hi := sEnd;
        } else {
          return Fail;
        }
      }
      if hi < lo { return Fail; }
      v := Take(Range(lo, hi), if hi == sEnd then (bEnd + 1) % WORD else b.start[hi + 1]);
    } else if first >= b.start[0] && first < bEnd {
      v := Fail;
    } else if hi >= 0 {
      v := Fail;
    } else {
      v := Skip;
    }
  }

  ghost function Behind(rs: seq<Range>, rest: Option<seq<Range>>): Option<seq<Range>> {
    match rest
    case None => None
    case Some(more) => Some(rs + more)
  }

  lemma BehindCons(rs: seq<Range>, r: Range, rest: Option<seq<Range>>)
    ensures Behind(rs, Cons(r, rest)) == Behind(rs + [r], rest)
  {
    if rest.Some? { assert rs + ([r] + rest.value) == rs + [r] + rest.value; }
  }

  /** The number of sectors in ranges, none of which runs backwards. */
  function Count(rs: seq<Range>): int {
    if rs == [] then 0 else SectorsIn(rs[0]) + Count(rs[1..])
  }

  function SectorsIn(r: Range): int { if r.lo < 0 then 0 else r.hi - r.lo + 1 }

  predicate Forwards(rs: seq<Range>) { forall k | 0 <= k < |rs| :: rs[k].lo >= 0 ==> rs[k].lo <= rs[k].hi }

  lemma {:induction false} CountAppend(rs: seq<Range>, r: Range)
    ensures Count(rs + [r]) == Count(rs) + SectorsIn(r)
  {
    if rs == [] {
      assert rs + [r] == [r] && [r][1..] == [];
    } else {
      assert (rs + [r])[1..] == rs[1..] + [r];
      CountAppend(rs[1..], r);
    }
  }

  /** The count is zero exactly if nothing is selected. */
  lemma {:induction false} CountSelects(rs: seq<Range>)
    requires Forwards(rs)
    ensures Count(rs) >= 0 && (Count(rs) > 0 <==> SelectsSome(rs))
  {
    if rs != [] {
      CountSelects(rs[1..]);
      ConsSelects(rs[0], rs[1..]);
      assert [rs[0]] + rs[1..] == rs;
    }
  }

  /** Sector s of bank i is planned. */
  predicate Chosen(banks: seq<Bank>, first: nat, last: nat, i: nat, s: int)
    requires KnownOk(banks)
  {
    var r := Plan(banks, 0, first, last);
    r.Some? && i < |r.value| && In(r.value[i], s)
  }

  /** Planning succeeds and selects something. */
  predicate Planned(banks: seq<Bank>, first: nat, last: nat)
    requires KnownOk(banks)
  {
    Plan(banks, 0, first, last).Some? && SelectsSome(Plan(banks, 0, first, last).value)
  }

  predicate Within(b: Bank, s: nat, first: nat, last: nat)
    requires s < |b.start|
  {
    first <= b.start[s] && SectorEnd(b, s) <= last
  }

  /** On contiguous banks, with the end in flash: success for unions of whole sectors only, and exactly their
      sectors. */
  lemma ChosenExactly(banks: seq<Bank>, first: nat, last: nat)
    requires KnownOk(banks) && Contiguous(banks, 0) && InFlash(banks, 0, last) && first <= last
    ensures Planned(banks, first, last) <==> IsStart(banks, 0, first) && IsEnd(banks, 0, last)
    ensures Planned(banks, first, last) ==>
      forall i, s | 0 <= i < |banks| && banks[i].known && 0 <= s < |banks[i].start| ::
        Chosen(banks, first, last, i, s) <==> Within(banks[i], s, first, last)
  {
    PlanExact(banks, 0, first, last);
    if Planned(banks, first, last) {
      var rs := Plan(banks, 0, first, last).value;
      forall i, s | 0 <= i < |banks| && banks[i].known && 0 <= s < |banks[i].start|
        ensures Chosen(banks, first, last, i, s) <==> Within(banks[i], s, first, last)
      {
        assert RangeExact(banks[0 + i], rs[i], first, last);
      }
    }
  }

  /** Whatever is chosen, on any banks without the wrap, lies inside the request. */
  lemma ChosenInside(banks: seq<Bank>, first: nat, last: nat, i: nat, s: nat)
    requires KnownOk(banks) && NoWrap(banks) && i < |banks| && Chosen(banks, first, last, i, s)
    ensures banks[i].known && s < |banks[i].start| && Within(banks[i], s, first, last)
  {
    PlanStaysInside(banks, 0, first, first, last);
    assert RangeInside(banks[0 + i], Plan(banks, 0, first, last).value[i], first, last);
  }

  class FlashBanks {
    const banks: seq<Bank>
    const protect: array2<bool>      // protect[i, s]: sector s of bank i

    ghost predicate Valid() {
      && KnownOk(banks) && protect.Length0 == |banks|
      && forall i | 0 <= i < |banks| :: |banks[i].start| <= protect.Length1
    }

    /** Banks as detected, with every sector unprotected. */
    constructor (banks: seq<Bank>, sectors: nat)
      requires KnownOk(banks) && forall i | 0 <= i < |banks| :: |banks[i].start| <= sectors
      ensures Valid() && this.banks == banks && fresh(protect) && protect.Length1 == sectors
      ensures forall i, s | 0 <= i < |banks| && 0 <= s < sectors :: !protect[i, s]
    {
      this.banks := banks;
      protect := new bool[|banks|, sectors]((i, j) => false);
    }

    /** flash_fill_sect_ranges: one range per bank, and the number of sectors planned. */
    method FillSectRanges(first: nat, last: nat) returns (ok: bool, ranges: seq<Range>, count: int)
      requires Valid()
      ensures ok == Plan(banks, 0, first, last).Some?
      ensures ok ==> ranges == Plan(banks, 0, first, last).value && Forwards(ranges) && count == Count(ranges)
    {
      var at: nat := first;
      var bank := 0;
      count := 0;
      ranges := [];
      ghost var goal := Plan(banks, 0, first, last);
      assert goal.Some? ==> [] + goal.value == goal.value;
      while bank < |banks|
        invariant bank <= |banks| && |ranges| == bank
        invariant goal == Behind(ranges, Plan(banks, bank, at, last))
        invariant Forwards(ranges) && count == Count(ranges)
      {
        var v := Skip;
        if at <= last && banks[bank].known {
          assert BankOk(banks[bank]);
          v := JudgeBank(banks[bank], at, last);
        }
        match v {
          case Fail => return false, ranges, count;
          case Skip =>
            BehindCons(ranges, NONE, Plan(banks, bank + 1, at, last));
            CountAppend(ranges, NONE);
            ranges := ranges + [NONE];
          case Take(r, next) =>
            TakeEnds(banks[bank], at, last);
            BehindCons(ranges, r, Plan(banks, bank + 1, next, last));
            CountAppend(ranges, r);
            ranges := ranges + [r];
            at := next;
            count := count + (r.hi - r.lo + 1);
        }
        bank := bank + 1;
      }
      assert ranges + [] == ranges;
      ok := true;
    }

    /** The protect loop: switches the sectors of the planned ranges in known banks, and no others. */
    method Switch(p: bool, ranges: seq<Range>)
      requires Valid() && |ranges| == |banks|
      requires forall i | 0 <= i < |banks| :: ranges[i].lo >= 0 ==> ranges[i].hi < |banks[i].start|
      modifies protect
      ensures forall i, s | 0 <= i < |banks| && 0 <= s < protect.Length1 ::
                protect[i, s] == if banks[i].known && In(ranges[i], s) then p else old(protect[i, s])
    {
      var bank := 0;
      while bank < |banks|
        invariant bank <= |banks|
        invariant forall i, s | 0 <= i < |banks| && 0 <= s < protect.Length1 ::
          protect[i, s] == if i < bank && banks[i].known && In(ranges[i], s) then p else old(protect[i, s])
      {
        if banks[bank].known && ranges[bank].lo >= 0 && ranges[bank].lo <= ranges[bank].hi {
          var s := ranges[bank].lo;
          while s <= ranges[bank].hi
            invariant ranges[bank].lo <= s <= ranges[bank].hi + 1
            invariant forall i, t | 0 <= i < |banks| && 0 <= t < protect.Length1 ::
              protect[i, t] == if (i < bank && banks[i].known && In(ranges[i], t))
                                  || (i == bank && ranges[bank].lo <= t < s)
                               then p else old(protect[i, t])
          {
            protect[bank, s] := p;
            s := s + 1;
          }
        }
        bank := bank + 1;
      }
    }

    /** flash_sect_protect: on a plan that selects something, its sectors are switched and no others. */
    method FlashSectProtect(p: bool, first: nat, last: nat) returns (ok: bool)
      requires Valid()
      modifies protect
      ensures ok == Planned(banks, first, last)
      ensures forall i, s | 0 <= i < |banks| && 0 <= s < protect.Length1 ::
                protect[i, s] == if ok && banks[i].known && Chosen(banks, first, last, i, s)
                                 then p else old(protect[i, s])
    {
      var planned, ranges, count := FillSectRanges(first, last);
      if !planned { return false; }
      CountSelects(ranges);
      if count == 0 { return false; }
      RangesInBank(banks, 0, first, last);
      Switch(p, ranges);
      return true;
    }

    /** The interval forms of `protect`: on contiguous banks, with the end of the interval in flash, success means
        that the interval is a union of whole sectors; then exactly the sectors inside are switched, else none. */
    method Protect(p: bool, first: nat, last: nat) returns (ok: bool)
      requires Valid() && Contiguous(banks, 0) && InFlash(banks, 0, last) && first <= last
      modifies protect
      ensures ok <==> IsStart(banks, 0, first) && IsEnd(banks, 0, last)
      ensures forall i, s | 0 <= i < |banks| && banks[i].known && 0 <= s < |banks[i].start| ::
                protect[i, s] == if ok && Within(banks[i], s, first, last) then p else old(protect[i, s])
    {
      ChosenExactly(banks, first, last);
      ok := FlashSectProtect(p, first, last);
    }

    /** addr_spec for "start +length": the end of the sector that holds the last address asked for. */
    method RoundedEnd(first: nat, length: nat) returns (last: Option<nat>)
      ensures last == RoundUp(banks, 0, (first + length - 1) % WORD)
    {
      var a := (first + length - 1) % WORD;
      var bank := 0;
      while bank < |banks|
        invariant bank <= |banks| && RoundUp(banks, 0, a) == RoundUp(banks, bank, a)
      {
        var b := banks[bank];
        var i := 0;
        while i < |b.start|
          invariant i <= |b.start| && RoundIn(b, a, 0) == RoundIn(b, a, i)
        {
          var end := if i == |b.start| - 1 then BankEnd(b) else (b.start[i + 1] as int - 1) % WORD;
          if a <= end && a >= b.start[i] { return Some(end); }
          i := i + 1;
        }
        bank := bank + 1;
      }
      return None;
    }

    /** `protect on start +length`: rounds the end up to its sector and switches what is planned from there. On
        contiguous banks, when only known banks list the last address, it switches exactly the sectors that meet
        the addresses asked for, if and only if these begin at a sector start and end in flash. */
    method ProtectLength(p: bool, first: nat, length: nat) returns (ok: bool)
      requires Valid()
      modifies protect
      ensures ok == LengthPlanned(banks, first, (first + length - 1) % WORD)
      ensures forall i, s | 0 <= i < |banks| && 0 <= s < protect.Length1 ::
                protect[i, s] == if ok && banks[i].known
                                    && Chosen(banks, first, RoundUp(banks, 0, (first + length - 1) % WORD).value, i, s)
                                 then p else old(protect[i, s])
      ensures LengthExact(banks, first, length) ==>
        && (ok <==> IsStart(banks, 0, first) && InFlash(banks, 0, first + length - 1)
                    && RoundUp(banks, 0, first + length - 1) != Some(first))
        && forall i, s | 0 <= i < |banks| && banks[i].known && 0 <= s < |banks[i].start| ::
             protect[i, s] == if ok && Meets(banks[i], s, first, first + length - 1) then p else old(protect[i, s])
    {
      var last := RoundedEnd(first, length);
      if LengthExact(banks, first, length) { ChosenMeet(banks, first, first + length - 1); }
      if last.None? { return false; }
      if first >= last.value { return false; }
      ok := FlashSectProtect(p, first, last.value);
    }
  }

  /** "start +length" selects something, its end being a. */
  predicate LengthPlanned(banks: seq<Bank>, first: nat, a: nat)
    requires KnownOk(banks)
  {
    var end := RoundUp(banks, 0, a);
    end.Some? && first < end.value && Planned(banks, first, end.value)
  }

  /** When "start +length" selects exactly what it asks for. */
  predicate LengthExact(banks: seq<Bank>, first: nat, length: nat)
    requires KnownOk(banks)
  {
    && Contiguous(banks, 0) && 0 < length && first + length <= WORD
    && ListedKnown(banks, first + length - 1)
  }

  /** Sector s has an address in first..a. */
  predicate Meets(b: Bank, s: nat, first: nat, a: nat)
    requires s < |b.start|
  {
    b.start[s] <= a && first <= SectorEnd(b, s)
  }

  lemma ChosenMeet(banks: seq<Bank>, first: nat, a: nat)
    requires KnownOk(banks) && Contiguous(banks, 0) && ListedKnown(banks, a) && first <= a
    ensures RoundUp(banks, 0, a).Some? <==> InFlash(banks, 0, a)
    ensures LengthPlanned(banks, first, a) <==>
              IsStart(banks, 0, first) && InFlash(banks, 0, a) && RoundUp(banks, 0, a) != Some(first)
    ensures LengthPlanned(banks, first, a) ==>
              forall i, s | 0 <= i < |banks| && banks[i].known && 0 <= s < |banks[i].start| ::
                Chosen(banks, first, RoundUp(banks, 0, a).value, i, s) <==> Meets(banks[i], s, first, a)
  {
    RoundUpInFlash(banks, a);
    var r := RoundUp(banks, 0, a);
    if r.Some? {
      ChosenExactly(banks, first, r.value);
      if LengthPlanned(banks, first, a) { WithinMeets(banks, first, a); }
    }
  }

  /** Rounding the end up adds no sector that does not meet the addresses asked for. */
  lemma WithinMeets(banks: seq<Bank>, first: nat, a: nat)
    requires KnownOk(banks) && Contiguous(banks, 0) && ListedKnown(banks, a)
    requires RoundUp(banks, 0, a).Some? && IsStart(banks, 0, first) && first <= a
    ensures forall i, s | 0 <= i < |banks| && banks[i].known && 0 <= s < |banks[i].start| ::
              Within(banks[i], s, first, RoundUp(banks, 0, a).value) <==> Meets(banks[i], s, first, a)
  {
    forall i, s | 0 <= i < |banks| && banks[i].known && 0 <= s < |banks[i].start|
      ensures Within(banks[i], s, first, RoundUp(banks, 0, a).value) <==> Meets(banks[i], s, first, a)
    { RoundingAddsNothing(banks, first, a, i, s); }
  }

  /** An address rounds up if and only if it lies in flash, and then to a sector end in flash. */
  lemma RoundUpInFlash(banks: seq<Bank>, a: nat)
    requires KnownOk(banks) && ListedKnown(banks, a)
    ensures RoundUp(banks, 0, a).Some? <==> InFlash(banks, 0, a)
    ensures var r := RoundUp(banks, 0, a);
            r.Some? ==> a <= r.value && IsEnd(banks, 0, r.value) && InFlash(banks, 0, r.value)
  {
    RoundUpFacts(banks, 0, a);
    if InFlash(banks, 0, a) {
      var j, t := HeldIsListed(banks, a);
    }
    if RoundUp(banks, 0, a).Some? {
      var j, t := RoundedTo(banks, a);
      SectorBounds(banks[j], t);
      assert Holds(banks[j], a) && Holds(banks[j], RoundUp(banks, 0, a).value);
      assert HasEnd(banks[j], RoundUp(banks, 0, a).value);
    }
  }

  lemma HeldIsListed(banks: seq<Bank>, a: nat) returns (j: nat, t: nat)
    requires KnownOk(banks) && InFlash(banks, 0, a)
    ensures j < |banks| && t < |banks[j].start| && Lists(banks[j], t, a)
  {
    j :| 0 <= j < |banks| && Holds(banks[j], a);
    HeldBySector(banks[j], a, |banks[j].start|);
    t :| 0 <= t < |banks[j].start| && banks[j].start[t] <= a <= SectorEnd(banks[j], t);
    ListedEndKnown(banks[j], t);
  }

  /** The ranges of banks i and up name sectors that are there. */
  ghost predicate RangesFit(banks: seq<Bank>, i: nat, rs: seq<Range>)
    requires i + |rs| <= |banks|
  {
    forall k | 0 <= k < |rs| :: rs[k].lo >= 0 ==> rs[k].hi < |banks[i + k].start|
  }

  lemma {:induction false} RangesInBank(banks: seq<Bank>, i: nat, first: nat, last: nat)
    requires i <= |banks| && KnownOk(banks)
    ensures var r := Plan(banks, i, first, last);
            r.Some? ==> |r.value| == |banks| - i && RangesFit(banks, i, r.value)
    decreases |banks| - i
  {
    if i < |banks| {
      var b := banks[i];
      if first > last || !b.known {
        RangesInBank(banks, i + 1, first, last);
        ShiftBank(banks, i, NONE, Plan(banks, i + 1, first, last));
      } else {
        assert BankOk(b);
        var v := Judge(b, first, last);
        if v.Skip? {
          RangesInBank(banks, i + 1, first, last);
          ShiftBank(banks, i, NONE, Plan(banks, i + 1, first, last));
        } else if v.Take? {
          TakeEnds(b, first, last);
          RangesInBank(banks, i + 1, v.next, last);
          ShiftBank(banks, i, v.range, Plan(banks, i + 1, v.next, last));
        }
      }
    }
  }

  lemma ShiftBank(banks: seq<Bank>, i: nat, r: Range, rest: Option<seq<Range>>)
    requires i < |banks| && (r.lo >= 0 ==> r.hi < |banks[i].start|)
    requires rest.Some? ==> |rest.value| == |banks| - i - 1 && RangesFit(banks, i + 1, rest.value)
    ensures var all := Cons(r, rest);
            all.Some? ==> |all.value| == |banks| - i && RangesFit(banks, i, all.value)
  {
    if rest.Some? {
      var all := Cons(r, rest).value;
      forall k | 0 <= k < |all| ensures all[k].lo >= 0 ==> all[k].hi < |banks[i + k].start| {
        if k > 0 { assert all[k] == rest.value[k - 1] && banks[i + k] == banks[i + 1 + (k - 1)]; }
      }
    }
  }
}
