/** Paged EEPROM access over I2C: the device wraps its write counter inside a page and is selected by
    chip address bits taken from the offset; the chunking of eeprom_write and eeprom_read makes it a
    flat array. */
module EepromFlat {
  import opened Bytes
  import opened PageArithmetic

  // ----- chip addresses -----

  /** Bitwise or. */
  function Or(a: nat, b: nat): nat
    decreases a + b
  {
    if a == 0 && b == 0 then 0 else 2 * Or(a / 2, b / 2) + (if a % 2 == 1 || b % 2 == 1 then 1 else 0)
  }

  /** No bit in common. */
  predicate DisjointBits(a: nat, b: nat)
    decreases a + b
  {
    (a == 0 && b == 0) || (!(a % 2 == 1 && b % 2 == 1) && DisjointBits(a / 2, b / 2))
  }

  lemma {:induction false} OrIsSum(a: nat, b: nat)
    requires DisjointBits(a, b)
    ensures Or(a, b) == a + b
    decreases a + b
  {
    if a != 0 || b != 0 { OrIsSum(a / 2, b / 2); }
  }

  lemma {:induction false} OrBelow(a: nat, b: nat, limit: nat)
    requires a < limit && b < limit && PowerOfTwo(limit)
    ensures Or(a, b) < limit
    decreases limit
  {
    if limit == 1 {
      assert Or(0, 0) == 0;
    } else if a != 0 || b != 0 {
      OrBelow(a / 2, b / 2, limit / 2);
    }
  }

  /** Bit k of a number. */
  predicate BitAt(n: nat, k: nat)
    decreases k
  {
    if k == 0 then n % 2 == 1 else BitAt(n / 2, k - 1)
  }

  lemma {:induction false} NoBits(k: nat)
    ensures !BitAt(0, k)
  {
    if k > 0 { NoBits(k - 1); }
  }

  lemma {:induction false} OrBit(a: nat, b: nat, k: nat)
    ensures BitAt(Or(a, b), k) <==> BitAt(a, k) || BitAt(b, k)
    decreases k
  {
    if a == 0 && b == 0 {
      NoBits(k);
    } else {
      var r := Or(a, b);
      assert r / 2 == Or(a / 2, b / 2) && (r % 2 == 1 <==> a % 2 == 1 || b % 2 == 1);
      if k > 0 { OrBit(a / 2, b / 2, k - 1); }
    }
  }

  predicate PowerOfTwo(n: nat) { n == 1 || (n > 0 && n % 2 == 0 && PowerOfTwo(n / 2)) }

  // ----- geometry -----

  /** CFG_I2C_EEPROM_ADDR_LEN, the write page, the transfer limit and the device address. */
  datatype Config = Config(addrLen: nat, page: nat, rxtx: nat, devAddr: byte) {
    predicate Ok() {
      && (addrLen == 1 || addrLen == 2)
      && page in {1, 2, 4, 8, 16, 32, 64, 128, 256}    // 1 << CFG_EEPROM_PAGE_WRITE_BITS
      && rxtx > 0
    }

    /** What one chip address selects: the bytes that the address octets can tell apart. */
    function Block(): nat { if addrLen == 1 then 0x100 else 0x1_0000 }

    /** addr[0]: the block number as an octet, with the device address inserted. */
    function Chip(offset: nat): (r: nat)
      requires Ok()
      ensures r < 256
    {
      PowerOfTwo256();
      OrBelow((offset / Block()) % 256, devAddr, 256);
      Or((offset / Block()) % 256, devAddr)
    }

    /** The memory cell that a chip and a word address denote. */
    function Cell(chip: nat, word: nat): (r: nat)
      requires Ok()
      ensures chip < 256 ==> r < 256 * Block()
    {
      chip * Block() + word % Block()
    }

    /** The cell of an offset in the flat view. */
    function Flat(offset: nat): (r: nat)
      requires Ok()
      ensures r < 256 * Block()
    {
      Cell(Chip(offset), offset)
    }

    /** The i-th cell of the range at an offset. */
    function At(offset: nat, i: nat): (r: nat)
      requires Ok()
      ensures r < 256 * Block()
    {
      Flat(offset + i)
    }

    /** Offsets whose block number fits its octet and keeps clear of the device address bits. */
    predicate Reachable(offset: nat)
      requires Ok()
    {
      offset / Block() < 256 && DisjointBits(offset / Block(), devAddr)
    }

    predicate AllReachable(lo: nat, hi: nat)
      requires Ok()
    {
      forall o | lo <= o < hi :: Reachable(o)
    }
  }

  /** The chip address has the bits of the device address and those of the offset above its address octets. */
  lemma ChipBits(c: Config, offset: nat, k: nat)
    requires c.Ok()
    ensures c.Chip(offset) < 256
    ensures BitAt(c.Chip(offset), k) <==>
            BitAt(c.devAddr, k) || BitAt(if c.addrLen == 1 then offset / 256 % 256 else offset / 65536 % 256, k)
  {
    OrBit((offset / c.Block()) % 256, c.devAddr, k);
  }

  /** On reachable offsets the flat view is a plain shift of the memory. */
  lemma FlatIs(c: Config, offset: nat)
    requires c.Ok() && c.Reachable(offset)
    ensures c.Flat(offset) == offset + c.devAddr * c.Block() < 256 * c.Block()
  {
    var q := offset / c.Block();
    OrIsSum(q, c.devAddr);
    PowerOfTwo256();
    OrBelow(q, c.devAddr, 256);
    assert q % 256 == q;
    FlatSum(offset, c.devAddr, c.Block());
  }

  lemma FlatSum(offset: nat, d: nat, b: nat)
    requires b == 0x100 || b == 0x1_0000
    requires offset / b + d < 256
    ensures (offset / b + d) * b + offset % b == offset + d * b < 256 * b
  {
  }

  lemma PowerOfTwo256()
    ensures PowerOfTwo(256)
  {
    assert PowerOfTwo(1) && PowerOfTwo(2) && PowerOfTwo(4) && PowerOfTwo(8) && PowerOfTwo(16)
        && PowerOfTwo(32) && PowerOfTwo(64) && PowerOfTwo(128);
  }

  // ----- pages and blocks -----

  /** Pages subdivide blocks: the offset in a page does not depend on how far the address was reduced. */
  lemma Pages(c: Config, x: nat)
    requires c.Ok()
    ensures (x % c.Block()) % c.page == x % c.page == (x % 256) % c.page
    ensures x % c.Block() - x % c.page + c.page <= c.Block()
    ensures x % 256 - x % c.page + c.page <= 256
  {
    var k := PagesInBlock(c.page);
    SubMod(x, k, c.page);
    SubMod(x, k * 256, c.page);
  }

  lemma PagesInBlock(page: nat) returns (k: nat)
    requires page in {1, 2, 4, 8, 16, 32, 64, 128, 256}
    ensures k > 0 && k * page == 0x100 && (k * 256) * page == 0x1_0000
  {
    k := 256 / page;
  }

  /** A chunk that ends inside the page of its first byte lands on consecutive cells, those of the flat view. */
  lemma SamePage(c: Config, offset: nat, k: nat)
    requires c.Ok() && offset % c.page + k < c.page
    ensures c.Cell(c.Chip(offset), Wrapped(offset, k, c.page)) == c.Flat(offset + k) == c.Flat(offset) + k
  {
    NotWrapped(offset, k, c.page);
    Pages(c, offset);
    SameBlock(offset, k, c.Block());
  }

  lemma SameBlock(x: nat, k: nat, b: nat)
    requires b == 0x100 || b == 0x1_0000
    requires x % b + k < b
    ensures (x + k) / b == x / b && (x + k) % b == x % b + k
  {
  }

  /** A read that ends inside 256 bytes stays in the block of its first byte. */
  lemma SameBlockRead(c: Config, offset: nat, k: nat)
    requires c.Ok() && offset % 256 + k < 256
    ensures c.Cell(c.Chip(offset), offset + k) == c.Flat(offset + k)
  {
    Pages(c.(page := 256), offset);
    SameBlock(offset, k, c.Block());
  }

  // ----- the flat view -----

  /** The cells of a range of offsets, in order. */
  ghost function Cells(c: Config, lo: nat, n: nat): (r: seq<nat>)
    requires c.Ok()
    ensures |r| == n && forall i | 0 <= i < n :: r[i] == c.At(lo, i)
    ensures forall i | 0 <= i < n :: r[i] < 256 * c.Block()
  {
    seq(n, i requires 0 <= i < n => c.At(lo, i))
  }

  /** No two offsets share a cell. */
  ghost predicate Distinct(cells: seq<nat>)
  {
    forall i, j | 0 <= i < j < |cells| :: cells[i] != cells[j]
  }

  ghost predicate Fits(cells: seq<nat>, m: seq<byte>)
  {
    forall i | 0 <= i < |cells| :: cells[i] < |m|
  }

  /** The memory as the offsets show it. */
  ghost function View(m: seq<byte>, cells: seq<nat>): (r: seq<byte>)
    requires Fits(cells, m)
    ensures |r| == |cells| && forall i | 0 <= i < |r| :: r[i] == m[cells[i]]
  {
    seq(|cells|, i requires 0 <= i < |cells| => m[cells[i]])
  }

  /** Offsets whose block numbers keep clear of the device address share no cell. */
  lemma ReachableDistinct(c: Config, lo: nat, n: nat)
    requires c.Ok() && c.AllReachable(lo, lo + n)
    ensures Distinct(Cells(c, lo, n))
  {
    forall i, j | 0 <= i < j < n ensures c.At(lo, i) != c.At(lo, j) {
      assert c.Reachable(lo + i) && c.Reachable(lo + j);
      FlatIs(c, lo + i);
      FlatIs(c, lo + j);
    }
  }

  /** Memory with the first n data octets laid over cells, one behind the other. */
  ghost function Laid(m: seq<byte>, cells: seq<nat>, data: seq<byte>, n: nat): (r: seq<byte>)
    requires Fits(cells, m) && |data| == |cells| && n <= |cells|
    ensures |r| == |m|
  {
    if n == 0 then m else Laid(m, cells, data, n - 1)[cells[n - 1] := data[n - 1]]
  }

  lemma {:induction false} LaidDistinct(m: seq<byte>, cells: seq<nat>, data: seq<byte>, n: nat)
    requires Fits(cells, m) && |data| == |cells| && n <= |cells| && Distinct(cells)
    ensures forall i | 0 <= i < n :: Laid(m, cells, data, n)[cells[i]] == data[i]
  {
    if n > 0 { LaidDistinct(m, cells, data, n - 1); }
  }

  /** A range of offsets shows whatever is written to it exactly if no two of them share a cell. */
  lemma ReadsBackIff(c: Config, m: seq<byte>, lo: nat, n: nat)
    requires c.Ok() && |m| == 256 * c.Block()
    ensures var cells := Cells(c, lo, n);
            Distinct(cells) <==> forall data: seq<byte> | |data| == n :: View(Laid(m, cells, data, n), cells) == data
  {
    var cells := Cells(c, lo, n);
    if Distinct(cells) {
      forall data: seq<byte> | |data| == n ensures View(Laid(m, cells, data, n), cells) == data {
        LaidDistinct(m, cells, data, n);
      }
    } else {
      var i, j :| 0 <= i < j < n && cells[i] == cells[j];
      var data := Unlike(n, i);
      SharedCell(Laid(m, cells, data, n), cells, data, i, j);
    }
  }

  /** Data with one octet that no other one equals. */
  ghost function Unlike(n: nat, i: nat): (r: seq<byte>)
    ensures |r| == n && forall k | 0 <= k < n :: r[k] == if k == i then 1 else 0
  {
    seq(n, k => if k == i then 1 else 0)
  }

  lemma SharedCell(m: seq<byte>, cells: seq<nat>, data: seq<byte>, i: nat, j: nat)
    requires Fits(cells, m) && i < j < |cells| == |data| && cells[i] == cells[j] && data[i] != data[j]
    ensures View(m, cells) != data
  {
    assert View(m, cells)[i] == View(m, cells)[j];
  }

  /** A chunk that ends inside the page of its first byte is a run of consecutive cells. */
  lemma PageRun(c: Config, cells: seq<nat>, lo: nat, k: nat, len: nat)
    requires c.Ok() && Ranged(c, cells, lo)
    requires k < |cells| && k + len <= |cells| && (lo + k) % c.page + len <= c.page
    ensures Run(cells, k, len)
  {
    assert CellAt(c, cells, lo, k);
    forall i | k <= i < k + len ensures cells[i] == cells[k] + (i - k) {
      assert CellAt(c, cells, lo, i);
      SamePage(c, lo + k, i - k);
    }
  }

  ghost predicate CellAt(c: Config, cells: seq<nat>, lo: nat, k: nat)
    requires c.Ok()
  {
    k < |cells| && cells[k] == c.At(lo, k)
  }

  /** The cells are those of a range of offsets. */
  ghost predicate Ranged(c: Config, cells: seq<nat>, lo: nat)
    requires c.Ok()
  {
    forall k | 0 <= k < |cells| :: CellAt(c, cells, lo, k)
  }

  ghost predicate Run(cells: seq<nat>, k: nat, len: nat)
  {
    k < |cells| && k + len <= |cells| && forall i | k <= i < k + len :: cells[i] == cells[k] + (i - k)
  }
}
