/** Multi-file images: a list of sizes, a zero word, and the images padded to words; and the two places
    where the boot command picks the kernel and the ramdisk out of one. */
module BootImage {
  import opened Bytes
  import opened Options

  // ----- the format -----

  /** A word in memory. */
  function Word(mem: seq<byte>, a: nat): (r: nat)
    requires a + 4 <= |mem|
    ensures r < WORD
  {
    0x100_0000 * mem[a] as int + 0x1_0000 * mem[a + 1] as int + 0x100 * mem[a + 2] as int + mem[a + 3] as int
  }

  function Pad(len: nat): nat { if len % 4 == 0 then 0 else 4 - len % 4 }

  function Sizes(images: seq<seq<byte>>): (r: seq<byte>)
    requires forall i | 0 <= i < |images| :: |images[i]| < WORD
    ensures |r| == 4 * |images|
  {
    if images == [] then [] else WordBytes(|images[0]|) + Sizes(images[1..])
  }

  function Zeros(n: nat): (r: seq<byte>)
    ensures |r| == n
  {
    seq(n, _ => 0)
  }

  function Bodies(images: seq<seq<byte>>): seq<byte> {
    if images == [] then [] else images[0] + Zeros(Pad(|images[0]|)) + Bodies(images[1..])
  }

  function Pack(images: seq<seq<byte>>): seq<byte>
    requires forall i | 0 <= i < |images| :: |images[i]| < WORD
  {
    Sizes(images) + (WordBytes(0) + Bodies(images))
  }

  // ----- the boot command -----

  /** Where a part of the image starts and how long it is. */
  datatype Part = Part(data: nat, len: nat)

  /** How many words from an address on are not zero; none if memory ends first. */
  function Nonzero(mem: seq<byte>, p: nat): Option<nat>
    decreases |mem| - p
  {
    if p + 4 > |mem| then None
    else if Word(mem, p) == 0 then Some(0)
    else var n := Nonzero(mem, p + 4); if n.None? then None else Some(n.value + 1)
  }

  method FindKernel(mem: seq<byte>, base: nat) returns (r: Option<Part>)
    requires base + 4 <= |mem| <= WORD
    ensures r.Some? == Nonzero(mem, base + 4).Some?
    ensures r.Some? ==> r.value == Part((base + 8 + 4 * Nonzero(mem, base + 4).value) % WORD, Word(mem, base))
  {
    var len := Word(mem, base);
    var data := SkipSizes(mem, base);
    if data.None? { return None; }
    return Some(Part(data.value, len));
  }

  /** The scan for the zero word, which moves the data pointer along. */
  method SkipSizes(mem: seq<byte>, base: nat) returns (r: Option<nat>)
    requires base + 4 <= |mem| <= WORD
    ensures r.Some? == Nonzero(mem, base + 4).Some?
    ensures r.Some? ==> r.value == (base + 8 + 4 * Nonzero(mem, base + 4).value) % WORD
  {
    var data, p := (base + 8) % WORD, base + 4;
    ghost var n: nat := 0;
    while p + 4 <= |mem|
      invariant p == base + 4 + 4 * n && p <= |mem| && data == (base + 8 + 4 * n) % WORD
      invariant Nonzero(mem, base + 4) == Counted(n, Nonzero(mem, p))
    {
      if Word(mem, p) == 0 { return Some(data); }
      WrapAdd(base + 8 + 4 * n, 4);
      data := (data + 4) % WORD;
      p, n := p + 4, n + 1;
    }
    return None;
  }

  ghost function Counted(n: nat, rest: Option<nat>): Option<nat> {
    if rest.None? then None else Some(n + rest.value)
  }

  /** The ramdisk of a multi-file image: no part if the image holds only a kernel. */
  method FindRamdisk(mem: seq<byte>, base: nat) returns (r: Option<Part>)
    requires base + 8 <= |mem| <= WORD
    ensures r.Some? == (Word(mem, base + 4) != 0 && Nonzero(mem, base + 4).Some?)
    ensures r.Some? ==>
              r.value == Part((base + 8 + 4 * Nonzero(mem, base + 4).value + (Word(mem, base)
                               + Pad(Word(mem, base)))) % WORD, Word(mem, base + 4))
  {
    if Word(mem, base + 4) == 0 { return None; }
    var len := Word(mem, base);
    var skipped := SkipSizes(mem, base);
    if skipped.None? { return None; }
    var data := SkipPadded(skipped.value, len);
    WrapAdd(base + 8 + 4 * Nonzero(mem, base + 4).value, len + Pad(len));
    return Some(Part(data, Word(mem, base + 4)));
  }

  /** Behind an image of some length and its padding. */
  method SkipPadded(start: nat, len: nat) returns (data: nat)
    ensures data == (start + (len + Pad(len))) % WORD
  {
    var tail := len % 4;
    data := (start + len) % WORD;
    if tail != 0 { data := (data + (4 - tail)) % WORD; }
    WrapAdd(start + len, Pad(len));
  }

  // ----- what they find in a packed image -----

  ghost predicate Holds(mem: seq<byte>, p: nat, text: seq<byte>) {
    p + |text| <= |mem| && mem[p..p + |text|] == text
  }

  lemma HoldsBoth(mem: seq<byte>, p: nat, a: seq<byte>, b: seq<byte>)
    requires Holds(mem, p, a + b)
    ensures Holds(mem, p, a) && Holds(mem, p + |a|, b)
  {
    var t := mem[p..p + |a + b|];
    assert t[..|a|] == a && t[|a|..] == b;
    assert mem[p..p + |a|] == t[..|a|];
    assert mem[p + |a|..p + |a| + |b|] == t[|a|..];
  }

  lemma WordRead(mem: seq<byte>, p: nat, n: nat)
    requires n < WORD && Holds(mem, p, WordBytes(n))
    ensures Word(mem, p) == n
  {
    var t := mem[p..p + 4];
    assert mem[p] == t[0] && mem[p + 1] == t[1] && mem[p + 2] == t[2] && mem[p + 3] == t[3];
    FourOctets(n);
  }

  /** How many images come before the first empty one. */
  function Leading(images: seq<seq<byte>>): (r: nat)
    ensures r <= |images|
    ensures r == |images| <==> forall i | 0 <= i < |images| :: images[i] != []
  {
    if images == [] || images[0] == [] then 0 else
      assert forall i | 0 < i < |images| :: images[i] == images[1..][i - 1];
      1 + Leading(images[1..])
  }

  lemma {:induction false} NonzeroSizes(mem: seq<byte>, p: nat, images: seq<seq<byte>>)
    requires forall i | 0 <= i < |images| :: |images[i]| < WORD
    requires Holds(mem, p, Sizes(images) + WordBytes(0))
    ensures Nonzero(mem, p) == Some(Leading(images))
    decreases |images|
  {
    if images == [] {
      assert Sizes(images) + WordBytes(0) == WordBytes(0);
      WordRead(mem, p, 0);
    } else {
      var first, rest := WordBytes(|images[0]|), Sizes(images[1..]) + WordBytes(0);
      assert Sizes(images) + WordBytes(0) == first + rest;
      HoldsBoth(mem, p, first, rest);
      WordRead(mem, p, |images[0]|);
      if images[0] != [] { NonzeroSizes(mem, p + 4, images[1..]); }
    }
  }

  ghost predicate Packed(mem: seq<byte>, base: nat, images: seq<seq<byte>>) {
    && |mem| <= WORD && images != []
    && (forall i | 0 <= i < |images| :: |images[i]| < WORD)
    && Holds(mem, base, Pack(images))
  }

  /** The parts of a packed image in memory. */
  lemma PackedParts(mem: seq<byte>, base: nat, images: seq<seq<byte>>)
    requires Packed(mem, base, images)
    ensures base + 4 * (|images| + 1) <= |mem| && Word(mem, base) == |images[0]|
    ensures Holds(mem, base + 4, Sizes(images[1..]) + WordBytes(0))
    ensures Holds(mem, base + 4 * (|images| + 1), Bodies(images))
  {
    PartsOf(mem, base, images, Sizes(images), WordBytes(0), Bodies(images));
  }

  /** The list of sizes of a packed image, and the zero word behind it. */
  lemma PackedList(mem: seq<byte>, base: nat, images: seq<seq<byte>>)
    requires Packed(mem, base, images)
    ensures Holds(mem, base, Sizes(images)) && Holds(mem, base + 4 * |images|, WordBytes(0))
  {
    ListOf(mem, base, images, Sizes(images), WordBytes(0), Bodies(images));
  }

  lemma ListOf(mem: seq<byte>, base: nat, images: seq<seq<byte>>, sizes: seq<byte>, zero: seq<byte>, bodies: seq<byte>)
    requires forall i | 0 <= i < |images| :: |images[i]| < WORD
    requires sizes == Sizes(images) && |zero| == 4 && Holds(mem, base, sizes + (zero + bodies))
    ensures Holds(mem, base, sizes) && Holds(mem, base + 4 * |images|, zero)
  {
    ThreeParts(mem, base, sizes, zero, bodies);
  }

  lemma PartsOf(mem: seq<byte>, base: nat, images: seq<seq<byte>>, sizes: seq<byte>, zero: seq<byte>, bodies: seq<byte>)
    requires images != [] && forall i | 0 <= i < |images| :: |images[i]| < WORD
    requires sizes == Sizes(images) && |zero| == 4 && Holds(mem, base, sizes + (zero + bodies))
    ensures base + 4 * (|images| + 1) <= |mem| && Word(mem, base) == |images[0]|
    ensures Holds(mem, base + 4, Sizes(images[1..]) + zero) && Holds(mem, base + 4 * (|images| + 1), bodies)
  {
    ThreeParts(mem, base, sizes, zero, bodies);
    SizesInMemory(mem, base, images, zero);
  }

  lemma ThreeParts(mem: seq<byte>, p: nat, a: seq<byte>, b: seq<byte>, c: seq<byte>)
    requires Holds(mem, p, a + (b + c))
    ensures Holds(mem, p, a) && Holds(mem, p + |a|, b) && Holds(mem, p + |a| + |b|, c)
  {
    HoldsBoth(mem, p, a, b + c);
    HoldsBoth(mem, p + |a|, b, c);
  }

  lemma SizesInMemory(mem: seq<byte>, base: nat, images: seq<seq<byte>>, zero: seq<byte>)
    requires images != [] && forall i | 0 <= i < |images| :: |images[i]| < WORD
    requires Holds(mem, base, Sizes(images)) && Holds(mem, base + 4 * |images|, zero)
    ensures base + 4 <= |mem| && Word(mem, base) == |images[0]|
    ensures Holds(mem, base + 4, Sizes(images[1..]) + zero)
  {
    FirstSize(mem, base, |images[0]|, WordBytes(|images[0]|), Sizes(images[1..]), zero);
  }

  lemma FirstSize(mem: seq<byte>, base: nat, n: nat, text: seq<byte>, rest: seq<byte>, zero: seq<byte>)
    requires n < WORD && text == WordBytes(n) && Holds(mem, base, text + rest)
    requires Holds(mem, base + 4 + |rest|, zero)
    ensures base + 4 <= |mem| && Word(mem, base) == n && Holds(mem, base + 4, rest + zero)
  {
    SplitAndJoin(mem, base, text, rest, zero);
    WordRead(mem, base, n);
  }

  lemma SplitAndJoin(mem: seq<byte>, p: nat, a: seq<byte>, b: seq<byte>, c: seq<byte>)
    requires Holds(mem, p, a + b) && Holds(mem, p + |a| + |b|, c)
    ensures Holds(mem, p, a) && Holds(mem, p + |a|, b + c)
  {
    HoldsBoth(mem, p, a, b);
    HoldsJoin(mem, p + |a|, b, c);
  }

  lemma HoldsJoin(mem: seq<byte>, p: nat, a: seq<byte>, b: seq<byte>)
    requires Holds(mem, p, a) && Holds(mem, p + |a|, b)
    ensures Holds(mem, p, a + b)
  {
    assert mem[p..p + |a + b|] == mem[p..p + |a|] + mem[p + |a|..p + |a| + |b|];
  }

  /** The kernel pointer is the place of the first image exactly if no later image is empty; the first image
      itself may be. */
  lemma KernelFoundIff(mem: seq<byte>, base: nat, images: seq<seq<byte>>)
    requires Packed(mem, base, images)
    ensures Nonzero(mem, base + 4).Some? && Word(mem, base) == |images[0]|
    ensures base + 8 + 4 * Nonzero(mem, base + 4).value == base + 4 * (|images| + 1)
            <==> forall i | 1 <= i < |images| :: images[i] != []
  {
    PackedParts(mem, base, images);
    NonzeroSizes(mem, base + 4, images[1..]);
    assert (forall i | 1 <= i < |images| :: images[i] != []) <==>
           forall i | 0 <= i < |images[1..]| :: images[1..][i] != [] by
    {
      assert forall i | 1 <= i < |images| :: images[i] == images[1..][i - 1];
      assert forall i | 0 <= i < |images[1..]| :: images[1..][i] == images[i + 1];
    }
  }

  /** The first of the bodies, and the others behind its padding. */
  lemma FirstBody(mem: seq<byte>, p: nat, images: seq<seq<byte>>)
    requires images != [] && Holds(mem, p, Bodies(images))
    ensures Holds(mem, p, images[0])
    ensures Holds(mem, p + (|images[0]| + Pad(|images[0]|)), Bodies(images[1..]))
  {
    var image, zeros := images[0], Zeros(Pad(|images[0]|));
    HoldsBoth(mem, p, image + zeros, Bodies(images[1..]));
    HoldsBoth(mem, p, image, zeros);
  }

  /** The words and pointers lead to the first and the second image, byte for byte. */
  ghost predicate PartsRight(mem: seq<byte>, base: nat, images: seq<seq<byte>>)
    requires images != []
  {
    && base + 8 <= |mem| && Nonzero(mem, base + 4).Some? && Word(mem, base) == |images[0]|
    && Word(mem, base + 4) == (if |images| > 1 then |images[1]| else 0)
    && Placed(mem, base + 8 + 4 * Nonzero(mem, base + 4).value, images)
  }

  ghost predicate Placed(mem: seq<byte>, at: nat, images: seq<seq<byte>>)
    requires images != []
  {
    && Holds(mem, at, images[0])
    && (|images| > 1 ==> Holds(mem, at + (|images[0]| + Pad(|images[0]|)), images[1]))
  }

  /** Kernel and ramdisk of a packed image are its first and second image. */
  lemma PartsAreImages(mem: seq<byte>, base: nat, images: seq<seq<byte>>)
    requires Packed(mem, base, images) && forall i | 1 <= i < |images| :: images[i] != []
    ensures PartsRight(mem, base, images)
  {
    KernelPlace(mem, base, images);
    SecondSizeIs(mem, base, images);
    BodiesHeld(mem, base, images);
  }

  lemma KernelPlace(mem: seq<byte>, base: nat, images: seq<seq<byte>>)
    requires Packed(mem, base, images) && forall i | 1 <= i < |images| :: images[i] != []
    ensures base + 4 <= |mem| && Word(mem, base) == |images[0]| && Nonzero(mem, base + 4).Some?
    ensures base + 8 + 4 * Nonzero(mem, base + 4).value == base + 4 * (|images| + 1)
  {
    KernelFoundIff(mem, base, images);
  }

  lemma SecondSizeIs(mem: seq<byte>, base: nat, images: seq<seq<byte>>)
    requires Packed(mem, base, images)
    ensures base + 8 <= |mem| && Word(mem, base + 4) == if |images| > 1 then |images[1]| else 0
  {
    PackedParts(mem, base, images);
    SecondSize(mem, base + 4, images[1..]);
  }

  lemma BodiesHeld(mem: seq<byte>, base: nat, images: seq<seq<byte>>)
    requires Packed(mem, base, images)
    ensures Placed(mem, base + 4 * (|images| + 1), images)
  {
    PackedParts(mem, base, images);
    BodiesAt(mem, base + 4 * (|images| + 1), images);
  }

  lemma BodiesAt(mem: seq<byte>, at: nat, images: seq<seq<byte>>)
    requires images != [] && Holds(mem, at, Bodies(images))
    ensures Holds(mem, at, images[0])
    ensures |images| > 1 ==> Holds(mem, at + (|images[0]| + Pad(|images[0]|)), images[1])
  {
    FirstBody(mem, at, images);
    if |images| > 1 { FirstBody(mem, at + (|images[0]| + Pad(|images[0]|)), images[1..]); }
  }

  lemma SecondSize(mem: seq<byte>, p: nat, images: seq<seq<byte>>)
    requires forall i | 0 <= i < |images| :: |images[i]| < WORD
    requires Holds(mem, p, Sizes(images) + WordBytes(0))
    ensures p + 4 <= |mem| && Word(mem, p) == if images == [] then 0 else |images[0]|
  {
    if images == [] {
      assert Sizes(images) + WordBytes(0) == WordBytes(0);
      WordRead(mem, p, 0);
    } else {
      assert Sizes(images) + WordBytes(0) == WordBytes(|images[0]|) + (Sizes(images[1..]) + WordBytes(0));
      HoldsBoth(mem, p, WordBytes(|images[0]|), Sizes(images[1..]) + WordBytes(0));
      WordRead(mem, p, |images[0]|);
    }
  }

  lemma WrapHolds(mem: seq<byte>, at: nat, image: seq<byte>)
    requires |mem| <= WORD && Holds(mem, at, image)
    ensures Holds(mem, at % WORD, image)
  {
    if at == WORD { assert image == []; } else { assert at % WORD == at; }
  }

  ghost predicate IsImage(mem: seq<byte>, p: Part, image: seq<byte>) {
    p.data + p.len <= |mem| && mem[p.data..p.data + p.len] == image
  }

  /** The boot command on a packed image: the kernel is the first image and the ramdisk the second. */
  method BootParts(mem: seq<byte>, base: nat, ghost images: seq<seq<byte>>)
    returns (kernel: Part, ramdisk: Option<Part>)
    requires Packed(mem, base, images) && forall i | 1 <= i < |images| :: images[i] != []
    ensures IsImage(mem, kernel, images[0])
    ensures ramdisk.Some? == (|images| > 1)
    ensures ramdisk.Some? ==> IsImage(mem, ramdisk.value, images[1])
  {
    PartsAreImages(mem, base, images);
    kernel, ramdisk := BootBoth(mem, base, images[0], if |images| > 1 then images[1] else []);
  }

  method BootBoth(mem: seq<byte>, base: nat, ghost first: seq<byte>, ghost second: seq<byte>)
    returns (kernel: Part, ramdisk: Option<Part>)
    requires base + 8 <= |mem| <= WORD && Nonzero(mem, base + 4).Some?
    requires Word(mem, base) == |first| && Word(mem, base + 4) == |second|
    requires Holds(mem, base + 8 + 4 * Nonzero(mem, base + 4).value, first)
    requires second != [] ==> Holds(mem, base + 8 + 4 * Nonzero(mem, base + 4).value
                                         + (Word(mem, base) + Pad(Word(mem, base))), second)
    ensures IsImage(mem, kernel, first) && ramdisk.Some? == (second != [])
    ensures ramdisk.Some? ==> IsImage(mem, ramdisk.value, second)
  {
    kernel := BootKernel(mem, base, first);
    ramdisk := BootRamdisk(mem, base, second);
  }

  method BootKernel(mem: seq<byte>, base: nat, ghost image: seq<byte>) returns (kernel: Part)
    requires base + 8 <= |mem| <= WORD && Nonzero(mem, base + 4).Some? && Word(mem, base) == |image|
    requires Holds(mem, base + 8 + 4 * Nonzero(mem, base + 4).value, image)
    ensures IsImage(mem, kernel, image)
  {
    var k := FindKernel(mem, base);
    kernel := k.value;
    WrapHolds(mem, base + 8 + 4 * Nonzero(mem, base + 4).value, image);
  }

  method BootRamdisk(mem: seq<byte>, base: nat, ghost image: seq<byte>) returns (ramdisk: Option<Part>)
    requires base + 8 <= |mem| <= WORD && Nonzero(mem, base + 4).Some? && Word(mem, base + 4) == |image|
    requires image != [] ==> Holds(mem, base + 8 + 4 * Nonzero(mem, base + 4).value
                                        + (Word(mem, base) + Pad(Word(mem, base))), image)
    ensures ramdisk.Some? == (image != [])
    ensures ramdisk.Some? ==> IsImage(mem, ramdisk.value, image)
  {
    ramdisk := FindRamdisk(mem, base);
    if ramdisk.Some? {
      WrapHolds(mem, base + 8 + 4 * Nonzero(mem, base + 4).value + (Word(mem, base) + Pad(Word(mem, base))), image);
    }
  }
}
