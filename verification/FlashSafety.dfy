/** Exactly which banks keep planning inside the request. */
module FlashSafety {
  import opened Bytes
  import opened Options
  import opened FlashPlan

  const TOP := WORD - 1

  /** Known banks share no address. */
  predicate Disjoint(banks: seq<Bank>) {
    forall i, j | 0 <= i < j < |banks| && banks[i].known && banks[j].known && BankOk(banks[i]) && BankOk(banks[j]) ::
      Apart(banks[i], banks[j])
  }

  predicate Apart(a: Bank, b: Bank)
    requires BankOk(a) && BankOk(b)
  {
    a.start[0] + a.size <= b.start[0] || b.start[0] + b.size <= a.start[0]
  }

  /** Whatever is asked for, what is planned lies inside. */
  ghost predicate Safe(banks: seq<Bank>)
    requires KnownOk(banks)
  {
    forall first, last | 0 <= first < WORD && 0 <= last < WORD ::
      var r := Plan(banks, 0, first, last); r.Some? ==> Inside(banks, 0, r.value, first, last)
  }

  // ----- banks that planning passes by -----

  /** A bank that holds neither the address the scan stands at nor the top is passed by. */
  lemma PassesBy(b: Bank, at: nat)
    requires BankOk(b) && b.start[0] + b.size < WORD && (at < b.start[0] || at >= b.start[0] + b.size)
    ensures Judge(b, at, TOP) == Skip
  {
    StartsAtFacts(b, at, |b.start|);
    EndsAtFacts(b, TOP, |b.start|);
    forall s | 0 <= s < |b.start|
      ensures b.start[0] <= b.start[s] < b.start[0] + b.size && SectorEnd(b, s) < TOP
    { SectorBounds(b, s); }
  }

  ghost function Nones(n: nat): (r: seq<Range>)
    ensures |r| == n && forall k | 0 <= k < n :: r[k] == NONE
  {
    seq(n, _ => NONE)
  }

  ghost predicate Passed(b: Bank, at: nat) {
    b.known ==> BankOk(b) && Judge(b, at, TOP) == Skip
  }

  lemma {:induction false} SkipTo(banks: seq<Bank>, k: nat, j: nat, at: nat)
    requires k <= j <= |banks| && KnownOk(banks) && at <= TOP && Plan(banks, j, at, TOP).Some?
    requires forall m | k <= m < j :: Passed(banks[m], at)
    ensures Plan(banks, k, at, TOP) == Some(Nones(j - k) + Plan(banks, j, at, TOP).value)
    decreases j - k
  {
    var rest := Plan(banks, j, at, TOP).value;
    if k == j {
      assert Nones(0) + rest == rest;
    } else {
      SkipTo(banks, k + 1, j, at);
      assert Passed(banks[k], at);
      assert [NONE] + (Nones(j - k - 1) + rest) == Nones(j - k) + rest;
    }
  }

  // ----- from a bank at the bottom on -----

  /** The scan stands at the start of a bank or outside it. */
  predicate Outside(b: Bank, at: nat)
    requires BankOk(b)
  {
    at <= b.start[0] || at >= b.start[0] + b.size
  }

  predicate Clear(banks: seq<Bank>, k: nat, at: nat) {
    forall m | k <= m < |banks| && banks[m].known && BankOk(banks[m]) ::
      Outside(banks[m], at) && banks[m].start[0] + banks[m].size < WORD
  }

  lemma NextClear(banks: seq<Bank>, k: nat, at: nat)
    requires k < |banks| && KnownOk(banks) && Disjoint(banks) && banks[k].known && Clear(banks, k, at)
    ensures Clear(banks, k + 1, banks[k].start[0] + banks[k].size)
  {
    forall m | k + 1 <= m < |banks| && banks[m].known && BankOk(banks[m])
      ensures Outside(banks[m], banks[k].start[0] + banks[k].size)
    {
      assert Apart(banks[k], banks[m]);
    }
  }

  /** Planning up to the top never fails from such a place. */
  lemma {:induction false} PlanGoesOn(banks: seq<Bank>, k: nat, at: nat)
    requires k <= |banks| && KnownOk(banks) && Disjoint(banks) && Clear(banks, k, at) && at <= TOP
    ensures Plan(banks, k, at, TOP).Some?
    decreases |banks| - k
  {
    if k < |banks| {
      var b := banks[k];
      if b.known && at == b.start[0] {
        TakesAll(b, TOP);
        SectorBounds(b, 0);
        NextClear(banks, k, at);
        PlanGoesOn(banks, k + 1, b.start[0] + b.size);
      } else {
        if b.known { PassesBy(b, at); }
        PlanGoesOn(banks, k + 1, at);
      }
    }
  }

  /** A bank entered at its base on the way to the top is taken whole. */
  lemma TakesWhole(banks: seq<Bank>, k: nat)
    requires k < |banks| && KnownOk(banks) && banks[k].known
    requires Plan(banks, k + 1, (banks[k].start[0] + banks[k].size) % WORD, TOP).Some?
    ensures Plan(banks, k, banks[k].start[0], TOP)
         == Some([Range(0, |banks[k].start| - 1)]
                 + Plan(banks, k + 1, (banks[k].start[0] + banks[k].size) % WORD, TOP).value)
  {
    TakesAll(banks[k], TOP);
    SectorBounds(banks[k], 0);
  }

  // ----- the request that leaves its interval -----

  /** Asked for a bank i that ends at the top, planning takes the whole of a bank j at address zero behind it. */
  lemma WrapsAround(banks: seq<Bank>, i: nat, j: nat)
    requires KnownOk(banks) && Disjoint(banks) && i < j < |banks| && banks[i].known && banks[j].known
    requires banks[i].start[0] + banks[i].size == WORD && banks[j].start[0] == 0
    ensures var r := Plan(banks, 0, banks[i].start[0], TOP);
            r.Some? && |r.value| > j && r.value[j] == Range(0, |banks[j].start| - 1)
    ensures banks[i].start[0] > 0
  {
    var f := banks[i].start[0];
    assert Apart(banks[i], banks[j]);
    BottomTaken(banks, i, j);
    var low := Plan(banks, j, 0, TOP).value;
    BetweenPassed(banks, i, j);
    SkipTo(banks, i + 1, j, 0);
    TakesWhole(banks, i);
    BeforePassed(banks, i);
    SkipTo(banks, 0, i, f);
    var all := Nones(i) + ([Range(0, |banks[i].start| - 1)] + (Nones(j - (i + 1)) + low));
    assert all[j] == low[0];
  }

  lemma BottomTaken(banks: seq<Bank>, i: nat, j: nat)
    requires KnownOk(banks) && Disjoint(banks) && i < j < |banks| && banks[i].known && banks[j].known
    requires banks[i].start[0] + banks[i].size == WORD && banks[j].start[0] == 0
    ensures var r := Plan(banks, j, 0, TOP);
            r.Some? && r.value != [] && r.value[0] == Range(0, |banks[j].start| - 1)
  {
    assert Apart(banks[i], banks[j]);
    forall m | j + 1 <= m < |banks| && banks[m].known && BankOk(banks[m])
      ensures Outside(banks[m], banks[j].size) && banks[m].start[0] + banks[m].size < WORD
    {
      assert Apart(banks[i], banks[m]) && Apart(banks[j], banks[m]);
    }
    PlanGoesOn(banks, j + 1, banks[j].size);
    TakesWhole(banks, j);
  }

  lemma BetweenPassed(banks: seq<Bank>, i: nat, j: nat)
    requires KnownOk(banks) && Disjoint(banks) && i < j < |banks| && banks[i].known && banks[j].known
    requires banks[i].start[0] + banks[i].size == WORD && banks[j].start[0] == 0
    ensures forall m | i + 1 <= m < j :: Passed(banks[m], 0)
  {
    forall m | i + 1 <= m < j ensures Passed(banks[m], 0) {
      if banks[m].known {
        assert Apart(banks[i], banks[m]) && Apart(banks[m], banks[j]);
        PassesBy(banks[m], 0);
      }
    }
  }

  lemma BeforePassed(banks: seq<Bank>, i: nat)
    requires KnownOk(banks) && Disjoint(banks) && i < |banks| && banks[i].known
    requires banks[i].start[0] + banks[i].size == WORD
    ensures forall m | 0 <= m < i :: Passed(banks[m], banks[i].start[0])
  {
    forall m | 0 <= m < i ensures Passed(banks[m], banks[i].start[0]) {
      if banks[m].known {
        assert Apart(banks[m], banks[i]);
        PassesBy(banks[m], banks[i].start[0]);
      }
    }
  }

  /** Planning stays inside every request if and only if no bank at address zero is listed behind one that ends
      at the top of the address space. */
  lemma SafeIff(banks: seq<Bank>)
    requires KnownOk(banks) && Disjoint(banks)
    ensures Safe(banks) <==> NoWrap(banks)
  {
    if NoWrap(banks) {
      forall first, last | 0 <= first < WORD && 0 <= last < WORD
        ensures var r := Plan(banks, 0, first, last); r.Some? ==> Inside(banks, 0, r.value, first, last)
      {
        PlanStaysInside(banks, 0, first, first, last);
      }
    } else {
      var i, j :| 0 <= i < j < |banks| && banks[i].known && banks[j].known && BankOk(banks[i]) && BankOk(banks[j])
               && banks[i].start[0] + banks[i].size == WORD && banks[j].start[0] == 0;
      WrapsAround(banks, i, j);
      var r := Plan(banks, 0, banks[i].start[0], TOP).value;
      assert In(r[j], 0);
      assert !RangeInside(banks[0 + j], r[j], banks[i].start[0], TOP);
    }
  }
}
