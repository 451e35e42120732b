/** The places chosen for a Linux kernel are the highest ones that satisfy the rules, and where each is. */
module BootPlaces {
  import opened Bytes
  import opened BootLayout

  /** r is the highest multiple of unit that leaves n octets below top. */
  ghost predicate Highest(r: nat, unit: nat, n: nat, top: nat)
    requires unit > 0
  {
    r % unit == 0 && r + n <= top && forall x: nat | x % unit == 0 && x + n <= top :: x <= r
  }

  lemma DownHighest(top: nat, n: nat)
    requires n <= top
    ensures Highest(Down(top - n), 16, n, top)
  {
    forall x: nat | x % 16 == 0 && x + n <= top ensures x <= Down(top - n) { Sixteens(x, Down(top - n)); }
  }

  lemma Sixteens(x: nat, r: nat)
    requires x % 16 == 0 && r % 16 == 0 && x < r + 16
    ensures x <= r
  {
  }

  lemma PageHighest(top: nat, n: nat)
    requires n <= top
    ensures Highest(PageDown(top - n), 4096, n, top)
  {
    forall x: nat | x % 4096 == 0 && x + n <= top ensures x <= PageDown(top - n) { Pages(x, PageDown(top - n)); }
  }

  lemma Pages(x: nat, r: nat)
    requires x % 4096 == 0 && r % 4096 == 0 && x < r + 4096
    ensures x <= r
  {
  }

  /** The command line goes as high as 16-octet steps allow below the boot map and 2048 octets under the stack; the
      board information as high as they allow below the command line. */
  lemma LowHighest(stack: nat, l: Limits, high: nat, len: nat)
    requires Roomy(stack, l) && high < WORD && len < WORD
    ensures var p, top := Placed(stack, l, high, len), if stack - 2048 < l.mapSize then stack - 2048 else l.mapSize;
            && Highest(p.limit, 16, 0, top) && Highest(p.cmdline, 16, l.argSize, p.limit)
            && Highest(p.board, 16, l.boardSize, p.cmdline)
  {
    LowParts(stack, l, high, len);
    var p := Placed(stack, l, high, len);
    var top := if stack - 2048 < l.mapSize then stack - 2048 else l.mapSize;
    assert p.limit == Down(top);
    DownHighest(top, 0);
    DownHighest(p.limit, l.argSize);
    DownHighest(p.cmdline, l.boardSize);
  }

  /** The top of the place under the stack: 16-octet aligned below it, and not above initrd_high. */
  function HighTop(stack: nat, high: nat): nat
    requires stack >= 2048
  {
    Min((stack - 2048) / 16 * 16, high)
  }

  /** A ramdisk that fits goes to the highest page under the stack and initrd_high if that is not below the kernel's
      limit, and else to the highest page below the board information; initrd_high zero always means the latter. */
  lemma RamdiskHighest(stack: nat, l: Limits, high: nat, len: nat, page: nat)
    requires Roomy(stack, l) && high < WORD && len < WORD
    ensures var p := Placed(stack, l, high, len);
            && (high != 0 && Highest(page, 4096, len, HighTop(stack, high)) && page >= p.limit ==> p.initrd == page)
            && (Highest(page, 4096, len, p.board)
                && (high == 0 || (len <= HighTop(stack, high) && PageDown(HighTop(stack, high) - len) < p.limit))
                ==> p.initrd == page)
  {
    LowParts(stack, l, high, len);
    var p := Placed(stack, l, high, len);
    assert Down(stack - 2048) == (stack - 2048) / 16 * 16;
    if Highest(page, 4096, len, HighTop(stack, high)) { SamePage(page, HighTop(stack, high), len); }
    if Highest(page, 4096, len, p.board) { SamePage(page, p.board, len); }
  }

  lemma SamePage(page: nat, top: nat, n: nat)
    requires Highest(page, 4096, n, top)
    ensures n <= top && page == PageDown(top - n)
  {
    PageHighest(top, n);
    assert PageDown(top - n) % 4096 == 0;
  }
}
