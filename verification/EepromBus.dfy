/** The EEPROM on its bus: transactions that may fail, and the loops of eeprom_write and eeprom_read. */
module EepromBus {
  import opened Bytes
  import opened Options
  import opened EepromFlat
  import opened PageArithmetic

  /** What a write transaction leaves after n bytes. */
  ghost function Stored(c: Config, m: seq<byte>, chip: nat, word: nat, data: seq<byte>, n: nat): (r: seq<byte>)
    requires c.Ok() && |m| == 256 * c.Block() && chip < 256 && n <= |data|
    ensures |r| == |m|
  {
    if n == 0 then m
    else Stored(c, m, chip, word, data, n - 1)[c.Cell(chip, Wrapped(word, n - 1, c.page)) := data[n - 1]]
  }

  /** A transaction inside a page replaces one slice of the memory. */
  lemma {:induction false} StoredSlice(c: Config, m: seq<byte>, offset: nat, data: seq<byte>, n: nat)
    requires c.Ok() && |m| == 256 * c.Block() && n <= |data|
    requires offset % c.page + n <= c.page
    ensures var r := Stored(c, m, c.Chip(offset), offset, data, n); var f := c.Flat(offset);
            forall x | 0 <= x < |m| :: r[x] == if f <= x < f + n then data[x - f] else m[x]
  {
    if n > 0 {
      StoredSlice(c, m, offset, data, n - 1);
      SamePage(c, offset, n - 1);
      assert Stored(c, m, c.Chip(offset), offset, data, n)
          == Stored(c, m, c.Chip(offset), offset, data, n - 1)[c.Flat(offset) + (n - 1) := data[n - 1]];
    }
  }

  lemma StoredOverwrites(c: Config, m: seq<byte>, offset: nat, data: seq<byte>, n: nat, failed: bool)
    requires c.Ok() && |m| == 256 * c.Block() && n <= |data| && (failed || n == |data|)
    requires |data| > 0 && offset % c.page + |data| <= c.page
    ensures Overwritten(m, Stored(c, m, c.Chip(offset), offset, data, n), c.Flat(offset), data, failed)
  {
    StoredSlice(c, m, offset, data, n);
    SamePage(c, offset, |data| - 1);
  }

  class Eeprom {
    const c: Config
    const mem: array<byte>
    /** Which transaction fails, and after how many bytes. */
    const faults: nat -> Option<nat>
    var steps: nat

    ghost predicate Valid()
    {
      c.Ok() && mem.Length == 256 * c.Block()
    }

    /** A device with some contents. */
    constructor (c: Config, faults: nat -> Option<nat>)
      requires c.Ok()
      ensures Valid() && this.c == c && this.faults == faults && steps == 0 && fresh(mem)
    {
      this.c := c;
      this.faults := faults;
      mem := new byte[256 * c.Block()];
      steps := 0;
    }

    /** No transaction failed from one step to another. */
    ghost predicate Quiet(from: nat, to: nat)
    {
      forall s | from <= s < to :: faults(s).None?
    }

    lemma QuietStep(from: nat, to: nat)
      requires from <= to
      ensures Quiet(from, to + 1) <==> Quiet(from, to) && faults(to).None?
    {
    }

    method I2cWrite(chip: nat, word: nat, data: seq<byte>) returns (failed: bool)
      requires Valid() && chip < 256
      modifies this`steps, mem
      ensures steps == old(steps) + 1 && failed == faults(old(steps)).Some?
      ensures mem[..] == Stored(c, old(mem[..]), chip, word, data,
                                if failed then Min(faults(old(steps)).value, |data|) else |data|)
    {
      failed := faults(steps).Some?;
      var n := if failed then Min(faults(steps).value, |data|) else |data|;
      steps := steps + 1;
      var i := 0;
      while i < n
        invariant i <= n && steps == old(steps) + 1
        invariant mem[..] == Stored(c, old(mem[..]), chip, word, data, i)
      {
        mem[c.Cell(chip, Wrapped(word, i, c.page))] := data[i];
        i := i + 1;
      }
    }

    method I2cRead(chip: nat, word: nat, buffer: array<byte>, at: nat, len: nat) returns (failed: bool)
      requires Valid() && chip < 256 && at + len <= buffer.Length && buffer != mem
      modifies this`steps, buffer
      ensures steps == old(steps) + 1 && failed == faults(old(steps)).Some?
      ensures forall x | 0 <= x < buffer.Length && !(at <= x < at + len) :: buffer[x] == old(buffer[x])
      ensures !failed ==> forall x | at <= x < at + len :: buffer[x] == mem[c.Cell(chip, word + (x - at))]
    {
      failed := faults(steps).Some?;
      var n := if failed then Min(faults(steps).value, len) else len;
      steps := steps + 1;
      var i := 0;
      while i < n
        invariant i <= n && steps == old(steps) + 1
        invariant forall x | 0 <= x < buffer.Length && !(at <= x < at + i) :: buffer[x] == old(buffer[x])
        invariant forall x | at <= x < at + i :: buffer[x] == mem[c.Cell(chip, word + (x - at))]
      {
        buffer[at + i] := mem[c.Cell(chip, word + i)];
        i := i + 1;
      }
    }

    /** One turn of the write loop: the chunk lands on consecutive cells from f on. */
    method WriteChunk(offset: nat, end: nat, buffer: seq<byte>, at: nat, ghost f: nat)
      returns (len: nat, failed: bool)
      requires Valid() && offset < end && at + (end - offset) <= |buffer| && f == c.Flat(offset)
      modifies this`steps, mem
      ensures 0 < len <= end - offset && offset % c.page + len <= c.page && len <= c.rxtx
      ensures steps == old(steps) + 1 && failed == faults(old(steps)).Some?
      ensures Overwritten(old(mem[..]), mem[..], f, buffer[at..at + len], failed)
    {
      len := WriteLength(offset, end);
      failed := I2cWrite(c.Chip(offset), offset, buffer[at..at + len]);
      StoredOverwrites(c, old(mem[..]), offset, buffer[at..at + len],
                       if failed then Min(faults(old(steps)).value, len) else len, failed);
    }

    /** How much of the rest one transaction takes: never past the page. */
    method WriteLength(offset: nat, end: nat) returns (len: nat)
      requires Valid() && offset < end
      ensures 0 < len <= end - offset && offset % c.page + len <= c.page && len <= c.rxtx
      ensures len == end - offset || offset % c.page + len == c.page || len == c.rxtx
    {
      Pages(c, offset);
      len := end - offset;
      var maxlen := c.page - (offset % 256) % c.page;
      if maxlen > c.rxtx { maxlen := c.rxtx; }
      if len > maxlen { len := maxlen; }
    }

    /** eeprom_write: nothing outside the range changes, whatever fails; without a failure the new bytes are laid
        over the cells of the range, which then holds them if its offsets share no cell. 1 is returned exactly if
        a transaction failed. A range that wraps the 32-bit address is not written, and 0 is returned. */
    method EepromWrite(offset: nat, buffer: seq<byte>) returns (rc: nat)
      requires Valid() && offset < WORD && |buffer| < WORD
      modifies this`steps, mem
      ensures steps >= old(steps) && rc == if Quiet(old(steps), steps) then 0 else 1
      ensures offset + |buffer| >= WORD ==> rc == 0 && mem[..] == old(mem[..])
      ensures offset + |buffer| < WORD ==> Wrote(mem[..], old(mem[..]), Cells(c, offset, |buffer|), buffer, rc)
    {
      var end := End(offset, |buffer|);
      ghost var cells := Cells(c, offset, |buffer|);
      Started(mem[..], cells, buffer);
      rc := WriteLoop(offset, end, buffer, cells, mem[..]);
      if end == offset + |buffer| { Written(mem[..], old(mem[..]), cells, buffer, rc); }
    }

    /** The write loop, on the cells of the whole range; none of its turns if the end wrapped. */
    method WriteLoop(offset: nat, end: nat, buffer: seq<byte>, ghost cells: seq<nat>, ghost was: seq<byte>)
      returns (rc: nat)
      requires Valid() && (end == offset + |buffer| || end < offset) && Ranged(c, cells, offset)
      requires Progress(mem[..], was, cells, buffer, 0, 0)
      modifies this`steps, mem
      ensures steps >= old(steps) && rc == if Quiet(old(steps), steps) then 0 else 1
      ensures end < offset ==> rc == 0
      ensures Progress(mem[..], was, cells, buffer, if end < offset then 0 else |buffer|, rc)
    {
      rc := 0;
      var o := offset;
      while o < end
        invariant offset <= o && (o <= end || o == offset)
        invariant steps >= old(steps)
        invariant rc == if Quiet(old(steps), steps) then 0 else 1
        invariant o == offset ==> steps == old(steps)
        invariant Progress(mem[..], was, cells, buffer, o - offset, rc)
      {
        QuietStep(old(steps), steps);
        var len;
        len, rc := WriteStep(o, end, buffer, offset, cells, was, rc);
        o := o + len;
      }
    }

    /** One turn of the write loop, seen on the cells of the whole range. */
    method WriteStep(o: nat, end: nat, buffer: seq<byte>, offset: nat, ghost cells: seq<nat>,
                     ghost was: seq<byte>, rc0: nat) returns (len: nat, rc: nat)
      requires Valid() && offset <= o < end == offset + |buffer| && Ranged(c, cells, offset)
      requires Progress(mem[..], was, cells, buffer, o - offset, rc0)
      modifies this`steps, mem
      ensures 0 < len <= end - o && steps == old(steps) + 1
      ensures rc == if faults(old(steps)).Some? then 1 else rc0
      ensures Progress(mem[..], was, cells, buffer, o + len - offset, rc)
    {
      ghost var before, k := mem[..], o - offset;
      assert CellAt(c, cells, offset, k);
      var failed;
      len, failed := WriteChunk(o, end, buffer, o - offset, cells[k]);
      rc := if failed then 1 else rc0;
      PageRun(c, cells, offset, k, len);
      ChunkProgress(cells, k, len, before, mem[..], was, buffer, rc0, rc, failed);
    }

    /** One turn of the read loop. */
    method ReadChunk(offset: nat, end: nat, buffer: array<byte>, at: nat, ghost lo: nat, ghost cnt: nat)
      returns (len: nat, failed: bool)
      requires Valid() && offset < end && at + (end - offset) <= buffer.Length && buffer != mem
      requires offset == lo + at && end == lo + cnt
      modifies this`steps, buffer
      ensures 0 < len <= end - offset && len <= c.rxtx && offset % 256 + len <= 256
      ensures len == end - offset || offset % 256 + len == 256 || len == c.rxtx
      ensures steps == old(steps) + 1 && failed == faults(old(steps)).Some?
      ensures forall x | 0 <= x < buffer.Length && !(at <= x < at + len) :: buffer[x] == old(buffer[x])
      ensures !failed ==> Shown(mem[..], Cells(c, lo, cnt), buffer[..], at, at + len)
    {
      len := end - offset;
      var maxlen := 0x100 - offset % 256;
      if maxlen > c.rxtx { maxlen := c.rxtx; }
      if len > maxlen { len := maxlen; }
      failed := I2cRead(c.Chip(offset), offset, buffer, at, len);
      if !failed {
        forall i | at <= i < at + len ensures buffer[i] == mem[c.At(lo, i)] {
          SameBlockRead(c, offset, i - at);
        }
      }
    }

    /** eeprom_read: returns the flat view, and 1 exactly if a transaction failed; the memory stays as it was. */
    method EepromRead(offset: nat, buffer: array<byte>, cnt: nat) returns (rc: nat)
      requires Valid() && offset < WORD && cnt < WORD && cnt <= buffer.Length && buffer != mem
      modifies this`steps, buffer
      ensures steps >= old(steps) && rc == if Quiet(old(steps), steps) then 0 else 1
      ensures forall x | cnt <= x < buffer.Length :: buffer[x] == old(buffer[x])
      ensures offset + cnt >= WORD ==> rc == 0 && buffer[..] == old(buffer[..])
      ensures offset + cnt < WORD && rc == 0 ==> buffer[..cnt] == View(mem[..], Cells(c, offset, cnt))
    {
      rc := 0;
      var end := End(offset, cnt);
      var o := offset;
      ghost var cells := Cells(c, offset, cnt);
      while o < end
        invariant offset <= o && (o <= end || o == offset)
        invariant steps >= old(steps)
        invariant rc == if Quiet(old(steps), steps) then 0 else 1
        invariant o == offset ==> steps == old(steps)
        invariant forall x | o - offset <= x < buffer.Length :: buffer[x] == old(buffer[x])
        invariant rc == 0 ==> Shown(mem[..], cells, buffer[..], 0, o - offset)
      {
        ghost var before, k := buffer[..], o - offset;
        var len, failed := ReadChunk(o, end, buffer, o - offset, offset, cnt);
        if failed { rc := 1; }
        assert buffer[..][..k] == before[..k];
        o := o + len;
      }
    }
  }

  /** `eeprom write` and then `eeprom read` of the same range: when no transaction fails, the bytes come back, on
      every range whose offsets share no cell and so on every range clear of the device address. */
  method WriteThenRead(e: Eeprom, offset: nat, data: seq<byte>) returns (rc: nat, buffer: array<byte>)
    requires e.Valid() && offset < WORD && |data| < WORD
    modifies e`steps, e.mem
    ensures e.Valid() && fresh(buffer) && buffer.Length == |data|
    ensures rc == 0 <==> e.Quiet(old(e.steps), e.steps)
    ensures rc == 0 && offset + |data| < WORD && Distinct(Cells(e.c, offset, |data|)) ==> buffer[..] == data
    ensures rc == 0 && offset + |data| < WORD && e.c.AllReachable(offset, offset + |data|) ==> buffer[..] == data
  {
    buffer := new byte[|data|];
    rc := e.EepromWrite(offset, data);
    ghost var between := e.steps;
    var rc2 := e.EepromRead(offset, buffer, |data|);
    assert e.Quiet(old(e.steps), e.steps) <==> e.Quiet(old(e.steps), between) && e.Quiet(between, e.steps);
    if rc2 != 0 { rc := rc2; }
    if e.c.AllReachable(offset, offset + |data|) { ReachableDistinct(e.c, offset, |data|); }
    assert buffer[..|data|] == buffer[..];
  }

  /** Where the loops stop: 32-bit addition. */
  function End(offset: nat, cnt: nat): (r: nat)
    requires offset < WORD && cnt < WORD
    ensures r == offset + cnt || (offset + cnt >= WORD && r < offset)
    ensures offset + cnt < WORD ==> r == offset + cnt
  {
    (offset + cnt) % WORD
  }

  /** After the first n bytes: other cells are as they were, and cells not shared hold what Kept says. */
  ghost predicate Progress(m: seq<byte>, was: seq<byte>, cells: seq<nat>, buffer: seq<byte>, n: nat, rc: nat)
  {
    && |m| == |was| && Fits(cells, m) && |buffer| == |cells| && n <= |cells|
    && (forall x | 0 <= x < |was| && x !in cells[..n] :: m[x] == was[x])
    && (Distinct(cells) ==> Kept(m, was, cells, buffer, n, rc))
    && (rc == 0 ==> m == Laid(was, cells, buffer, n))
  }

  lemma Started(m: seq<byte>, cells: seq<nat>, buffer: seq<byte>)
    requires Fits(cells, m) && |buffer| == |cells|
    ensures Progress(m, m, cells, buffer, 0, 0)
  {
  }

  /** The memory after a whole range: nothing else changed; without a failure the buffer was laid over the cells,
      and cells not shared hold it; after a failure such cells hold their new or their old bytes. */
  ghost predicate Wrote(m: seq<byte>, was: seq<byte>, cells: seq<nat>, buffer: seq<byte>, rc: nat)
  {
    && |m| == |was| && Fits(cells, m) && |buffer| == |cells|
    && (forall x | 0 <= x < |was| && x !in cells :: m[x] == was[x])
    && (rc == 0 ==> m == Laid(was, cells, buffer, |cells|))
    && (rc == 0 && Distinct(cells) ==> View(m, cells) == buffer)
    && (Distinct(cells) ==> Kept(m, was, cells, buffer, |cells|, rc))
  }

  lemma Written(m: seq<byte>, was: seq<byte>, cells: seq<nat>, buffer: seq<byte>, rc: nat)
    requires Progress(m, was, cells, buffer, |cells|, rc)
    ensures Wrote(m, was, cells, buffer, rc)
  {
    assert cells[..|cells|] == cells;
  }

  /** The buffer shows the cells from one index to another. */
  ghost predicate Shown(m: seq<byte>, cells: seq<nat>, buffer: seq<byte>, from: nat, to: nat)
    requires Fits(cells, m)
  {
    to <= |cells| && to <= |buffer| && forall i | from <= i < to :: buffer[i] == m[cells[i]]
  }

  /** The first n cells hold the new bytes, or after a failure the old ones. */
  ghost predicate Kept(m: seq<byte>, was: seq<byte>, cells: seq<nat>, buffer: seq<byte>, n: nat, rc: nat)
    requires |m| == |was| && Fits(cells, m) && |buffer| == |cells|
  {
    n <= |cells| && forall i | 0 <= i < n :: m[cells[i]] == buffer[i] || (rc == 1 && m[cells[i]] == was[cells[i]])
  }

  /** One slice of the memory changed: to the data, or after a failure to the data or not at all. */
  ghost predicate Overwritten(before: seq<byte>, after: seq<byte>, f: nat, data: seq<byte>, failed: bool)
  {
    && |before| == |after| && f + |data| <= |after|
    && (forall x | 0 <= x < |after| && !(f <= x < f + |data|) :: after[x] == before[x])
    && (forall x | f <= x < f + |data| :: after[x] == data[x - f] || (failed && after[x] == before[x]))
  }

  lemma ChunkProgress(cells: seq<nat>, k: nat, len: nat, before: seq<byte>, after: seq<byte>,
                      was: seq<byte>, buffer: seq<byte>, rc0: nat, rc: nat, failed: bool)
    requires Run(cells, k, len) && Progress(before, was, cells, buffer, k, rc0)
    requires rc == if failed then 1 else rc0
    requires Overwritten(before, after, cells[k], buffer[k..k + len], failed)
    ensures Progress(after, was, cells, buffer, k + len, rc)
  {
    ChunkTouches(cells, k, len, before, after, was);
    if Distinct(cells) { ChunkKeeps(cells, k, len, before, after, was, buffer, rc0, rc, failed); }
    if rc == 0 { ChunkLaid(cells, k, len, before, after, was, buffer); }
  }

  lemma ChunkLaid(cells: seq<nat>, k: nat, len: nat, before: seq<byte>, after: seq<byte>, was: seq<byte>,
                  buffer: seq<byte>)
    requires Run(cells, k, len) && |before| == |was| && Fits(cells, was) && |buffer| == |cells|
    requires before == Laid(was, cells, buffer, k)
    requires Overwritten(before, after, cells[k], buffer[k..k + len], false)
    ensures after == Laid(was, cells, buffer, k + len)
  {
    LaidOverwrites(was, cells, buffer, k, len);
    OverwrittenAlike(before, after, Laid(was, cells, buffer, k + len), cells[k], buffer[k..k + len]);
  }

  /** A run of cells takes a slice of the buffer. */
  lemma {:induction false} LaidOverwrites(m: seq<byte>, cells: seq<nat>, buffer: seq<byte>, k: nat, len: nat)
    requires Fits(cells, m) && |buffer| == |cells| && Run(cells, k, len)
    ensures Overwritten(Laid(m, cells, buffer, k), Laid(m, cells, buffer, k + len), cells[k], buffer[k..k + len], false)
    decreases len
  {
    if len == 0 {
      NothingYet(Laid(m, cells, buffer, k), cells[k], buffer[k..k]);
    } else {
      LaidOverwrites(m, cells, buffer, k, len - 1);
      var before, after := Laid(m, cells, buffer, k), Laid(m, cells, buffer, k + len - 1);
      assert cells[k + len - 1] == cells[k] + (len - 1) < |after|;
      OneMore(before, after, cells[k], buffer, k, len);
    }
  }

  lemma NothingYet(m: seq<byte>, f: nat, data: seq<byte>)
    requires f <= |m| && data == []
    ensures Overwritten(m, m, f, data, false)
  {
  }

  lemma OneMore(before: seq<byte>, after: seq<byte>, f: nat, buffer: seq<byte>, k: nat, len: nat)
    requires 0 < len && k + len <= |buffer| && f + len <= |after|
    requires Overwritten(before, after, f, buffer[k..k + len - 1], false)
    ensures Overwritten(before, after[f + len - 1 := buffer[k + len - 1]], f, buffer[k..k + len], false)
  {
    ButLast(buffer, k, k + len);
    OneMoreOctet(before, after, f, buffer[k..k + len]);
  }

  lemma ButLast(s: seq<byte>, i: nat, j: nat)
    requires i < j <= |s|
    ensures s[i..j][..j - i - 1] == s[i..j - 1] && s[i..j][j - i - 1] == s[j - 1]
  {
  }

  lemma OneMoreOctet(before: seq<byte>, after: seq<byte>, f: nat, data: seq<byte>)
    requires data != [] && f + |data| <= |after|
    requires Overwritten(before, after, f, data[..|data| - 1], false)
    ensures Overwritten(before, after[f + |data| - 1 := data[|data| - 1]], f, data, false)
  {
  }

  lemma OverwrittenAlike(before: seq<byte>, a: seq<byte>, b: seq<byte>, f: nat, data: seq<byte>)
    requires Overwritten(before, a, f, data, false) && Overwritten(before, b, f, data, false)
    ensures a == b
  {
  }

  /** What a chunk does to the memory: only the run of its cells changes. */
  lemma ChunkTouches(cells: seq<nat>, k: nat, len: nat, before: seq<byte>, after: seq<byte>, was: seq<byte>)
    requires Run(cells, k, len) && |before| == |after| == |was|
    requires forall x | 0 <= x < |was| && x !in cells[..k] :: before[x] == was[x]
    requires forall x | 0 <= x < |was| && !(cells[k] <= x < cells[k] + len) :: after[x] == before[x]
    ensures forall x | 0 <= x < |was| && x !in cells[..k + len] :: after[x] == was[x]
  {
    forall x | 0 <= x < |was| && x !in cells[..k + len] ensures after[x] == was[x] {
      assert cells[..k] <= cells[..k + len];
      if cells[k] <= x < cells[k] + len {
        InRun(cells, k, len, x);
        assert false;
      }
    }
  }

  lemma InRun(cells: seq<nat>, k: nat, len: nat, x: nat)
    requires Run(cells, k, len) && cells[k] <= x < cells[k] + len
    ensures k <= k + (x - cells[k]) < k + len && cells[k + (x - cells[k])] == x
    ensures x in cells[..k + len]
  {
    assert cells[..k + len][k + (x - cells[k])] == x;
  }

  /** A chunk over cells not met before leaves the earlier bytes of the range alone. */
  lemma ChunkKeeps(cells: seq<nat>, k: nat, len: nat, before: seq<byte>, after: seq<byte>,
                   was: seq<byte>, buffer: seq<byte>, rc0: nat, rc: nat, failed: bool)
    requires Run(cells, k, len) && |before| == |after| == |was| && Fits(cells, was) && |buffer| == |cells|
    requires Distinct(cells) && rc == if failed then 1 else rc0
    requires Kept(before, was, cells, buffer, k, rc0)
    requires forall x | 0 <= x < |was| && x !in cells[..k] :: before[x] == was[x]
    requires Overwritten(before, after, cells[k], buffer[k..k + len], failed)
    ensures Kept(after, was, cells, buffer, k + len, rc)
  {
    forall i | 0 <= i < k + len
      ensures after[cells[i]] == buffer[i] || (rc == 1 && after[cells[i]] == was[cells[i]])
    {
      if i < k {
        EarlierApart(cells, k, len, i);
      } else {
        assert cells[i] !in cells[..k];
      }
    }
  }

  lemma EarlierApart(cells: seq<nat>, k: nat, len: nat, i: nat)
    requires Run(cells, k, len) && Distinct(cells) && i < k
    ensures !(cells[k] <= cells[i] < cells[k] + len)
  {
    if cells[k] <= cells[i] < cells[k] + len {
      InRun(cells, k, len, cells[i]);
      assert false;
    }
  }
}
