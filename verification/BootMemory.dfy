/** The copy loops of the boot path, on memory. */
module BootMemory {
  import opened Bytes
  import opened BootCopy

  /** One long word: four bytes are read before any is written. */
  method CopyLong(mem: array<byte>, to: nat, from: nat)
    requires to + LONG <= mem.Length && from + LONG <= mem.Length
    modifies mem
    ensures mem[..] == Moved(old(mem[..]), to, from, LONG)
  {
    var b0, b1, b2, b3 := mem[from], mem[from + 1], mem[from + 2], mem[from + 3];
    mem[to], mem[to + 1], mem[to + 2], mem[to + 3] := b0, b1, b2, b3;
  }

  method CopyByte(mem: array<byte>, to: nat, from: nat)
    requires to < mem.Length && from < mem.Length
    modifies mem
    ensures mem[..] == Moved(old(mem[..]), to, from, 1)
  {
    mem[to] := mem[from];
  }

  /** The memmove of the generic string library: always upwards, by long words. */
  method GenericMemmove(mem: array<byte>, to: nat, from: nat, count: nat)
    requires to + count <= mem.Length && from + count <= mem.Length
    modifies mem
    ensures mem[..] == ByUnits(old(mem[..]), to, from, Longs(count))
  {
    ghost var whole := ByUnits(mem[..], to, from, Longs(count));
    var t, f, n := to, from, count;
    while n >= LONG
      invariant 0 <= n <= count && t + n == to + count && f + n == from + count
      invariant ByUnits(mem[..], t, f, Longs(n)) == whole
    {
      FirstLong(mem[..], t, f, n);
      CopyLong(mem, t, f);
      t, f, n := t + LONG, f + LONG, n - LONG;
    }
    MoveTail(mem, t, f, n);
  }

  /** The bytes after the last long word. */
  method MoveTail(mem: array<byte>, to: nat, from: nat, last: nat)
    requires last < LONG && to + last <= mem.Length && from + last <= mem.Length
    modifies mem
    ensures mem[..] == ByUnits(old(mem[..]), to, from, Longs(last))
  {
    ghost var whole := ByUnits(mem[..], to, from, Longs(last));
    var t, f, n := to, from, last;
    while n > 0
      invariant 0 <= n <= last && t + n == to + last && f + n == from + last
      invariant ByUnits(mem[..], t, f, Longs(n)) == whole
    {
      FirstLong(mem[..], t, f, n);
      CopyByte(mem, t, f);
      t, f, n := t + 1, f + 1, n - 1;
    }
  }

  lemma FirstLong(m: seq<byte>, to: nat, from: nat, n: nat)
    requires n > 0 && to + n <= |m| && from + n <= |m|
    ensures var t := if n >= LONG then LONG else 1;
            ByUnits(m, to, from, Longs(n)) == ByUnits(Moved(m, to, from, t), to + t, from + t, Longs(n - t))
  {
    var t := if n >= LONG then LONG else 1;
    assert Longs(n) == [t] + Longs(n - t);
    assert Longs(n)[1..] == Longs(n - t);
  }

  /** A memmove that keeps its promise: downwards where the target lies above the source. */
  method ExactMemmove(mem: array<byte>, to: nat, from: nat, count: nat)
    requires to + count <= mem.Length && from + count <= mem.Length
    modifies mem
    ensures mem[..] == Moved(old(mem[..]), to, from, count)
  {
    if to <= from {
      var k := 0;
      while k < count
        invariant 0 <= k <= count
        invariant mem[..] == Moved(old(mem[..]), to, from, k)
      {
        mem[to + k] := mem[from + k];
        k := k + 1;
      }
    } else {
      var k := count;
      while k > 0
        invariant 0 <= k <= count
        invariant mem[..] == Moved(old(mem[..]), to + k, from + k, count - k)
      {
        k := k - 1;
        mem[to + k] := mem[from + k];
      }
    }
  }

  /** The watchdog loop over a correct memmove: one memmove, unless a long image moves up over itself. */
  method LoadImage(mem: array<byte>, to: nat, from: nat, len: nat)
    requires to + len <= mem.Length && from + len <= mem.Length
    modifies mem
    ensures mem[..] == ByUnits(old(mem[..]), to, from, Chunks(len))
    ensures to <= from || to >= from + len || len <= CHUNKSZ ==> mem[..] == Moved(old(mem[..]), to, from, len)
  {
    ghost var before, whole := mem[..], ByUnits(mem[..], to, from, Chunks(len));
    var l, t, f := len, to, from;
    while l > 0
      invariant t + l == to + len && f + l == from + len && 0 <= l <= len
      invariant ByUnits(mem[..], t, f, Chunks(l)) == whole
    {
      var tail := if l > CHUNKSZ then CHUNKSZ else l;
      assert Chunks(l)[1..] == Chunks(l - tail);
      ExactMemmove(mem, t, f, tail);
      t, f, l := t + tail, f + tail, l - tail;
    }
    if len > 0 { LoadImageMoves(before, to, from, len); }
  }

  lemma LoadImageMoves(m: seq<byte>, to: nat, from: nat, len: nat)
    requires len > 0 && to + len <= |m| && from + len <= |m|
    ensures to <= from || to >= from + len || len <= CHUNKSZ ==>
              ByUnits(m, to, from, Chunks(len)) == Moved(m, to, from, len)
  {
    WatchdogCopyIff(|m|, to, from, len);
  }

  /** The watchdog loop over the generic memmove: the same bytes as one call of it. */
  method LoadImageGeneric(mem: array<byte>, to: nat, from: nat, len: nat)
    requires to + len <= mem.Length && from + len <= mem.Length
    modifies mem
    ensures mem[..] == ByUnits(old(mem[..]), to, from, Longs(len))
  {
    ghost var before := mem[..];
    var l, t, f := len, to, from;
    while l > 0
      invariant t + l == to + len && f + l == from + len && 0 <= l <= len
      invariant ChunkedGeneric(mem[..], t, f, l) == ChunkedGeneric(before, to, from, len)
    {
      var tail := if l > CHUNKSZ then CHUNKSZ else l;
      GenericMemmove(mem, t, f, tail);
      t, f, l := t + tail, f + tail, l - tail;
    }
    WatchdogIsNeutral(before, to, from, len);
  }
}
