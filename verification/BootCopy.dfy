/** Moving an image to its load address: in pieces between watchdog resets, with a memmove that may itself
    work in pieces.  All of these are copies by units, lowest unit first. */
module BootCopy {
  import opened Bytes

  const CHUNKSZ := 0x1_0000
  const LONG := 4

  // ----- specification -----

  /** What a correct memmove leaves: the bytes of the source as they were before the call. */
  function Moved(m: seq<byte>, to: nat, from: nat, len: nat): (r: seq<byte>)
    requires to + len <= |m| && from + len <= |m|
    ensures |r| == |m|
    ensures forall x | 0 <= x < |m| :: r[x] == if to <= x < to + len then m[from + (x - to)] else m[x]
  {
    seq(|m|, x requires 0 <= x < |m| => if to <= x < to + len then m[from + (x - to)] else m[x])
  }

  function Total(units: seq<nat>): nat
  {
    if units == [] then 0 else units[0] + Total(units[1..])
  }

  /** A copy that finishes each unit before it reads the next one. */
  function ByUnits(m: seq<byte>, to: nat, from: nat, units: seq<nat>): (r: seq<byte>)
    requires to + Total(units) <= |m| && from + Total(units) <= |m|
    ensures |r| == |m|
    decreases |units|
  {
    if units == [] then m
    else ByUnits(Moved(m, to, from, units[0]), to + units[0], from + units[0], units[1..])
  }

  /** The pieces of the watchdog loop. */
  function Chunks(len: nat): (r: seq<nat>)
    ensures Total(r) == len && forall u | u in r :: u > 0
    ensures len > 0 ==> r != [] && r[0] == if len > CHUNKSZ then CHUNKSZ else len
  {
    if len == 0 then [] else
      var t := if len > CHUNKSZ then CHUNKSZ else len;
      assert ([t] + Chunks(len - t))[1..] == Chunks(len - t);
      [t] + Chunks(len - t)
  }

  /** The pieces of the generic memmove: long words, then the rest byte by byte. */
  function Longs(len: nat): (r: seq<nat>)
    ensures Total(r) == len && forall u | u in r :: u > 0
    ensures len > 0 ==> r != [] && r[0] == if len >= LONG then LONG else 1
  {
    if len == 0 then [] else
      var t := if len >= LONG then LONG else 1;
      assert ([t] + Longs(len - t))[1..] == Longs(len - t);
      [t] + Longs(len - t)
  }

  // ----- when a copy by units is a memmove -----

  /** Ranges for which no unit can overwrite what a later one reads. */
  predicate Harmless(to: nat, from: nat, units: seq<nat>)
  {
    to <= from || to >= from + Total(units) || |units| == 1
  }

  ghost predicate MovesRight(size: nat, to: nat, from: nat, units: seq<nat>)
    requires to + Total(units) <= size && from + Total(units) <= size
  {
    forall m: seq<byte> | |m| == size :: ByUnits(m, to, from, units) == Moved(m, to, from, Total(units))
  }

  /** Two neighbouring moves are one, if the first one spares the source of the second. */
  lemma MovedTwice(m: seq<byte>, to: nat, from: nat, t: nat, n: nat)
    requires to + t + n <= |m| && from + t + n <= |m|
    requires to <= from || to >= from + t + n
    ensures Moved(Moved(m, to, from, t), to + t, from + t, n) == Moved(m, to, from, t + n)
  {
  }

  lemma {:induction false} HarmlessMoves(m: seq<byte>, to: nat, from: nat, units: seq<nat>)
    requires to + Total(units) <= |m| && from + Total(units) <= |m|
    requires to <= from || to >= from + Total(units)
    ensures ByUnits(m, to, from, units) == Moved(m, to, from, Total(units))
    decreases |units|
  {
    if units != [] {
      var t := units[0];
      var m1 := Moved(m, to, from, t);
      HarmlessMoves(m1, to + t, from + t, units[1..]);
      MovedTwice(m, to, from, t, Total(units[1..]));
    }
  }

  /** Units never change what lies below the target, so a source byte there arrives as it was. */
  lemma {:induction false} BelowTarget(m: seq<byte>, to: nat, from: nat, units: seq<nat>, j: nat)
    requires to + Total(units) <= |m| && from + Total(units) <= |m|
    requires j < Total(units) && from + j < to
    ensures ByUnits(m, to, from, units)[to + j] == m[from + j]
    decreases |units|
  {
    var t := units[0];
    var m1 := Moved(m, to, from, t);
    if j < t {
      KeepsBelow(m1, to + t, from + t, units[1..], to + j);
    } else {
      BelowTarget(m1, to + t, from + t, units[1..], j - t);
    }
  }

  lemma {:induction false} KeepsBelow(m: seq<byte>, to: nat, from: nat, units: seq<nat>, x: nat)
    requires to + Total(units) <= |m| && from + Total(units) <= |m| && x < to
    ensures ByUnits(m, to, from, units)[x] == m[x]
    decreases |units|
  {
    if units != [] {
      KeepsBelow(Moved(m, to, from, units[0]), to + units[0], from + units[0], units[1..], x);
    }
  }

  lemma MovedAt(m: seq<byte>, to: nat, from: nat, len: nat, y: nat)
    requires to + len <= |m| && from + len <= |m| && from <= y < from + len
    ensures Moved(m, to, from, len)[y + to - from] == m[y]
  {
  }

  /** A source byte that the first unit overwrites arrives as what it was overwritten with. */
  lemma LateRead(m: seq<byte>, to: nat, from: nat, units: seq<nat>, y: nat)
    requires to + Total(units) <= |m| && from + Total(units) <= |m| && from < to && units != []
    requires to <= y < to + units[0] && from + units[0] <= y < from + Total(units)
    ensures ByUnits(m, to, from, units)[y + to - from] == m[y - (to - from)]
  {
    var t := units[0];
    var m1 := Moved(m, to, from, t);
    var j := y - (from + t);
    BelowTarget(m1, to + t, from + t, units[1..], j);
    assert (to + t) + j == y + to - from && (from + t) + j == y;
  }

  /** A memory on which the first unit destroys a byte that a later one should have moved. */
  lemma Destroys(size: nat, to: nat, from: nat, units: seq<nat>) returns (m: seq<byte>)
    requires to + Total(units) <= size && from + Total(units) <= size
    requires from < to < from + Total(units) && units != [] && 0 < units[0] < Total(units)
    ensures |m| == size && ByUnits(m, to, from, units) != Moved(m, to, from, Total(units))
  {
    var y := if to > from + units[0] then to else from + units[0];
    m := seq(size, i => if i == y then 1 else 0);
    LateRead(m, to, from, units, y);
    MovedAt(m, to, from, Total(units), y);
  }

  /** A copy by units moves every memory content correctly exactly if the ranges are harmless for it. */
  lemma MovesRightIff(size: nat, to: nat, from: nat, units: seq<nat>)
    requires to + Total(units) <= size && from + Total(units) <= size
    requires units != [] && forall u | u in units :: u > 0
    ensures MovesRight(size, to, from, units) <==> Harmless(to, from, units)
  {
    if to <= from || to >= from + Total(units) {
      forall m: seq<byte> | |m| == size
        ensures ByUnits(m, to, from, units) == Moved(m, to, from, Total(units))
      {
        HarmlessMoves(m, to, from, units);
      }
    } else if |units| == 1 {
      assert units[1..] == [] && Total(units) == units[0];
      assert forall m: seq<byte> | |m| == size :: ByUnits(m, to, from, units) == Moved(m, to, from, units[0]);
    } else {
      assert units[0] in units && units[1] in units && units[1..][0] == units[1];
      assert Total(units[1..]) == units[1] + Total(units[1..][1..]);
      var m := Destroys(size, to, from, units);
    }
  }

  // ----- the three copies of the boot path -----

  /** With a correct memmove, the watchdog loop is one memmove exactly if the target does not lie inside the
      source or one chunk is enough. */
  lemma WatchdogCopyIff(size: nat, to: nat, from: nat, len: nat)
    requires 0 < len && to + len <= size && from + len <= size
    ensures MovesRight(size, to, from, Chunks(len)) <==> to <= from || to >= from + len || len <= CHUNKSZ
  {
    MovesRightIff(size, to, from, Chunks(len));
    if len <= CHUNKSZ {
      assert Chunks(len) == [len] + Chunks(0);
    }
  }

  /** The generic memmove keeps its promise for overlapping areas exactly if the target does not lie inside
      the source or the length is one long word. */
  lemma GenericMemmoveIff(size: nat, to: nat, from: nat, len: nat)
    requires 0 < len && to + len <= size && from + len <= size
    ensures MovesRight(size, to, from, Longs(len)) <==> to <= from || to >= from + len || len == LONG
  {
    MovesRightIff(size, to, from, Longs(len));
    if len == LONG {
      assert Longs(len) == [LONG] + Longs(0);
    }
  }

  lemma {:induction false} ByUnitsAppend(m: seq<byte>, to: nat, from: nat, a: seq<nat>, b: seq<nat>)
    requires to + Total(a) + Total(b) <= |m| && from + Total(a) + Total(b) <= |m|
    ensures Total(a + b) == Total(a) + Total(b)
    ensures ByUnits(m, to, from, a + b) == ByUnits(ByUnits(m, to, from, a), to + Total(a), from + Total(a), b)
    decreases |a|
  {
    if a == [] {
      assert a + b == b;
    } else {
      assert (a + b)[1..] == a[1..] + b;
      ByUnitsAppend(Moved(m, to, from, a[0]), to + a[0], from + a[0], a[1..], b);
    }
  }

  /** The watchdog loop over the generic memmove. */
  ghost function ChunkedGeneric(m: seq<byte>, to: nat, from: nat, len: nat): (r: seq<byte>)
    requires to + len <= |m| && from + len <= |m|
    ensures |r| == |m|
    decreases len
  {
    if len == 0 then m else
      var t := if len > CHUNKSZ then CHUNKSZ else len;
      ChunkedGeneric(ByUnits(m, to, from, Longs(t)), to + t, from + t, len - t)
  }

  lemma LongsStep(n: nat)
    requires n >= LONG
    ensures Longs(n) == [LONG] + Longs(n - LONG)
  {
  }

  /** A copy of w long words and k octets more. */
  lemma {:induction false} LongsSplit(w: nat, k: nat)
    ensures Splits(LONG * w, k)
    decreases w
  {
    if w == 0 {
      NoLongs(k);
    } else {
      LongsSplit(w - 1, k);
      LongInFront(LONG * (w - 1), k);
      assert LONG * (w - 1) + LONG == LONG * w;
    }
  }

  predicate Splits(n: nat, k: nat) { Longs(n + k) == Longs(n) + Longs(k) }

  lemma NoLongs(k: nat)
    ensures Splits(0, k)
  {
    assert Longs(0) == [];
  }

  lemma LongInFront(n: nat, k: nat)
    requires Splits(n, k)
    ensures Splits(n + LONG, k)
  {
    LongsStep(n + LONG);
    LongsStep(n + LONG + k);
    Associate([LONG], Longs(n), Longs(k));
  }

  /** With the generic memmove the watchdog loop makes no difference, whatever the ranges. */
  lemma {:induction false} WatchdogIsNeutral(m: seq<byte>, to: nat, from: nat, len: nat)
    requires to + len <= |m| && from + len <= |m|
    ensures ChunkedGeneric(m, to, from, len) == ByUnits(m, to, from, Longs(len))
    decreases len
  {
    if len > CHUNKSZ {
      LongsSplit(CHUNKSZ / LONG, len - CHUNKSZ);
      ByUnitsAppend(m, to, from, Longs(CHUNKSZ), Longs(len - CHUNKSZ));
      WatchdogIsNeutral(ByUnits(m, to, from, Longs(CHUNKSZ)), to + CHUNKSZ, from + CHUNKSZ, len - CHUNKSZ);
    } else if len > 0 {
      assert ChunkedGeneric(ByUnits(m, to, from, Longs(len)), to + len, from + len, 0)
          == ByUnits(m, to, from, Longs(len));
    }
  }
}
