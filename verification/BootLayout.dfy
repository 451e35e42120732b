/** Placing the command line, the board information and the ramdisk for a Linux kernel, in 32-bit
    arithmetic, below the stack of the boot loader. */
module BootLayout {
  import opened Bytes
  const MARGIN := 2048
  const PAGE := 4096

  /** CFG_BOOTMAPSZ, CFG_BARGSIZE and sizeof(bd_t). */
  datatype Limits = Limits(mapSize: nat, argSize: nat, boardSize: nat)

  datatype Placement = Placement(limit: nat, cmdline: nat, board: nat, initrd: nat)

  /** 32-bit subtraction. */
  function Minus(a: nat, b: nat): (r: nat)
    requires a < WORD && b < WORD
    ensures r < WORD && r == (a - b) % WORD
  {
    if a >= b then a - b else a - b + WORD
  }

  /** Clearing the low four bits of an address. */
  function Down(a: nat): (r: nat)
    ensures r <= a < r + 16 && r % 16 == 0
  {
    a - a % 16
  }

  /** The start of the page of an address. */
  function PageDown(a: nat): (r: nat)
    ensures r <= a < r + PAGE && r % PAGE == 0
  {
    a - a % PAGE
  }

  /** The highest place under the stack for a ramdisk of some length. */
  function HighPlace(stack: nat, high: nat, len: nat): (r: nat)
    requires stack < WORD && high < WORD && len < WORD
    ensures r % PAGE == 0
  {
    PageDown(Minus(Min(Down(Minus(stack, MARGIN)), high), len))
  }

  /** The placement, step by step as the boot command updates its variables. */
  method Place(stack: nat, l: Limits, high: nat, len: nat) returns (p: Placement)
    requires stack < WORD && l.mapSize < WORD && l.argSize < WORD && l.boardSize < WORD && high < WORD && len < WORD
    ensures p == Placed(stack, l, high, len)
    ensures forall args: nat | args < l.argSize && Roomy(stack, l) && stack + MARGIN <= WORD ::
              Sound(p, stack, l, args, len) <==> Fits(stack, l, high, len)
  {
    var sp := Minus(stack, MARGIN);
    if sp > l.mapSize { sp := l.mapSize; }
    sp := Down(sp);
    var cmdline := Down(Minus(sp, l.argSize));
    var board := Down(Minus(cmdline, l.boardSize));
    var initrd := Minus(board, len);
    initrd := PageDown(initrd);
    if high != 0 {
      var nsp := Minus(stack, MARGIN);
      nsp := Down(nsp);
      if nsp > high { nsp := high; }
      nsp := Minus(nsp, len);
      nsp := PageDown(nsp);
      if nsp >= sp { initrd := nsp; }
    }
    p := Placement(sp, cmdline, board, initrd);
    PlacedSound(stack, l, high, len);
  }

  lemma PlacedSound(stack: nat, l: Limits, high: nat, len: nat)
    requires stack < WORD && l.mapSize < WORD && l.argSize < WORD && l.boardSize < WORD && high < WORD && len < WORD
    ensures forall args: nat | args < l.argSize && Roomy(stack, l) && stack + MARGIN <= WORD ::
              Sound(Placed(stack, l, high, len), stack, l, args, len) <==> Fits(stack, l, high, len)
  {
    forall args: nat | args < l.argSize && Roomy(stack, l) && stack + MARGIN <= WORD
      ensures Sound(Placed(stack, l, high, len), stack, l, args, len) <==> Fits(stack, l, high, len)
    { SoundIff(stack, l, high, args, len); }
  }

  function Limit(stack: nat, l: Limits): (r: nat)
    requires stack < WORD && l.mapSize < WORD
    ensures r < WORD
  {
    Down(Min(Minus(stack, MARGIN), l.mapSize))
  }

  function Placed(stack: nat, l: Limits, high: nat, len: nat): Placement
    requires stack < WORD && l.mapSize < WORD && l.argSize < WORD && l.boardSize < WORD && high < WORD && len < WORD
  {
    var limit := Limit(stack, l);
    var cmdline := Down(Minus(limit, l.argSize));
    var board := Down(Minus(cmdline, l.boardSize));
    Placement(limit, cmdline, board,
              if GoesHigh(stack, l, high, len) then HighPlace(stack, high, len) else PageDown(Minus(board, len)))
  }

  /** The guard of the branch that prefers the place under the stack. */
  predicate GoesHigh(stack: nat, l: Limits, high: nat, len: nat)
    requires stack < WORD && l.mapSize < WORD && high < WORD && len < WORD
  {
    high != 0 && HighPlace(stack, high, len) >= Limit(stack, l)
  }

  /** The memory below the stack holds the command line and the board information. */
  predicate Roomy(stack: nat, l: Limits)
  {
    && MARGIN <= stack < WORD && l.mapSize < WORD && l.argSize < WORD && l.boardSize < WORD
    && l.argSize <= Limit(stack, l)
    && l.boardSize <= Down(Limit(stack, l) - l.argSize)
  }

  /** The subtraction of the length in the branch taken does not wrap. */
  predicate Fits(stack: nat, l: Limits, high: nat, len: nat)
    requires Roomy(stack, l) && high < WORD && len < WORD
  {
    if GoesHigh(stack, l, high, len) then len <= Min(Down(stack - MARGIN), high)
    else len <= Down(Down(Limit(stack, l) - l.argSize) - l.boardSize)
  }

  /** Addresses are compared without wrapping: a region is [start, start + size). */
  predicate Apart(a: nat, n: nat, b: nat, m: nat) { a + n <= b || b + m <= a }

  /** The layout the kernel is promised.  Above stack - MARGIN lies the stack. */
  predicate Sound(p: Placement, stack: nat, l: Limits, args: nat, len: nat)
    requires stack >= MARGIN
  {
    && Apart(p.cmdline, args + 1, p.board, l.boardSize)
    && Apart(p.cmdline, args + 1, p.initrd, len) && Apart(p.board, l.boardSize, p.initrd, len)
    && p.cmdline + args + 1 <= stack - MARGIN && p.board + l.boardSize <= stack - MARGIN
    && p.initrd + len <= stack - MARGIN
    && p.cmdline % 16 == 0 && p.board % 16 == 0 && p.initrd % PAGE == 0
    && (p.initrd + len <= p.board || p.initrd >= p.limit)
  }

  /** Where the command line and the board information go. */
  lemma LowParts(stack: nat, l: Limits, high: nat, len: nat)
    requires Roomy(stack, l) && high < WORD && len < WORD
    ensures var p := Placed(stack, l, high, len);
            && p.cmdline == Down(p.limit - l.argSize) && p.board == Down(p.cmdline - l.boardSize)
            && p.cmdline % 16 == 0 && p.board % 16 == 0
            && p.board + l.boardSize <= p.cmdline && p.cmdline + l.argSize <= p.limit <= stack - MARGIN
  {
  }

  /** A block of some length below an address: it ends there, unless the subtraction wraps. */
  lemma BlockBelow(top: nat, len: nat)
    requires top < WORD && len < WORD
    ensures var r := PageDown(Minus(top, len));
            if len <= top then r + len <= top else r + len > WORD - PAGE
  {
  }

  /** Where the ramdisk goes. */
  lemma RamdiskPart(stack: nat, l: Limits, high: nat, len: nat)
    requires Roomy(stack, l) && high < WORD && len < WORD
    ensures var p := Placed(stack, l, high, len);
            && p.initrd % PAGE == 0
            && (if !Fits(stack, l, high, len) then p.initrd + len > WORD - PAGE
                else if GoesHigh(stack, l, high, len) then p.limit <= p.initrd && p.initrd + len <= stack - MARGIN
                else p.initrd + len <= p.board)
  {
    LowParts(stack, l, high, len);
    if GoesHigh(stack, l, high, len) {
      HighPart(stack, high, len);
    } else {
      BlockBelow(Placed(stack, l, high, len).board, len);
    }
  }

  lemma HighPart(stack: nat, high: nat, len: nat)
    requires MARGIN <= stack < WORD && high < WORD && len < WORD
    ensures var r, top := HighPlace(stack, high, len), Min(Down(stack - MARGIN), high);
            top <= stack - MARGIN && if len <= top then r + len <= top else r + len > WORD - PAGE
  {
    BlockBelow(Min(Down(stack - MARGIN), high), len);
  }

  /** The layout is sound from the places of its parts. */
  lemma SoundFrom(p: Placement, stack: nat, l: Limits, args: nat, len: nat)
    requires stack >= MARGIN && args < l.argSize
    requires p.board + l.boardSize <= p.cmdline && p.cmdline + l.argSize <= p.limit <= stack - MARGIN
    requires p.cmdline % 16 == 0 && p.board % 16 == 0 && p.initrd % PAGE == 0
    requires p.initrd + len <= p.board || (p.limit <= p.initrd && p.initrd + len <= stack - MARGIN)
    ensures Sound(p, stack, l, args, len)
  {
  }

  /** The layout is sound exactly if the length of the ramdisk fits the branch that places it. */
  lemma SoundIff(stack: nat, l: Limits, high: nat, args: nat, len: nat)
    requires Roomy(stack, l) && high < WORD && len < WORD && args < l.argSize && stack + MARGIN <= WORD
    ensures Sound(Placed(stack, l, high, len), stack, l, args, len) <==> Fits(stack, l, high, len)
  {
    LowParts(stack, l, high, len);
    RamdiskPart(stack, l, high, len);
    var p := Placed(stack, l, high, len);
    if Fits(stack, l, high, len) { SoundFrom(p, stack, l, args, len); }
  }
}
