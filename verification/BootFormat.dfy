/** The layout of a multi-file image, octet by octet, and the pieces in which an image is moved. */
module BootFormat {
  import opened Bytes
  import opened BootCopy
  import opened BootImage

  // ----- words -----

  /** Words are in network byte order, in memory and as written. */
  lemma NetworkOrder(a: byte, b: byte, c: byte, d: byte)
    ensures var n := ((a * 256 + b) * 256 + c) * 256 + d;
            n < WORD && WordBytes(n) == [a, b, c, d] && Word([a, b, c, d], 0) == n
  {
    var n: nat := ((a as int * 256 + b) * 256 + c) * 256 + d;
    Quotients(a, b, c, d, n);
  }

  lemma Quotients(a: byte, b: byte, c: byte, d: byte, n: nat)
    requires n == ((a as int * 256 + b) * 256 + c) * 256 + d
    ensures n < WORD && n / 0x100_0000 == a && n / 0x1_0000 % 256 == b && n / 0x100 % 256 == c && n % 256 == d
  {
    var x := a as int * 256 + b;
    var y := x * 256 + c;
    assert n / 0x100 == y && n % 256 == d;
    assert y / 0x100 == x && y % 256 == c;
    assert n / 0x1_0000 == x && n / 0x100_0000 == a;
  }

  // ----- multi-file images -----

  /** An image is filled up to whole words, with as little as it takes. */
  lemma PadRounds(len: nat)
    ensures (len + Pad(len)) % 4 == 0 && Pad(len) < 4
  {
  }

  /** Where image k starts: behind the sizes, the zero word and the images before it, each rounded up to words. */
  function Start(images: seq<seq<byte>>, k: nat): nat
    requires k <= |images|
  {
    if k == 0 then 4 * (|images| + 1) else RoundedUp(Start(images, k - 1) + |images[k - 1]|)
  }

  /** The next multiple of 4. */
  function RoundedUp(x: nat): (r: nat)
    ensures x <= r < x + 4 && r % 4 == 0
  {
    (x + 3) / 4 * 4
  }

  lemma RoundedIs(x: nat, len: nat)
    requires x % 4 == 0
    ensures RoundedUp(x + len) == x + (len + Pad(len))
  {
    PadRounds(len);
    NextFour(x + len, RoundedUp(x + len), x + (len + Pad(len)));
  }

  lemma NextFour(x: nat, r: nat, s: nat)
    requires x <= r < x + 4 && x <= s < x + 4 && r % 4 == 0 && s % 4 == 0
    ensures r == s
  {
  }

  predicate Sized(images: seq<seq<byte>>) { forall i | 0 <= i < |images| :: |images[i]| < WORD }

  /** A packed image in memory: the size of image k in word k, a zero word behind the sizes, and image k itself at a
      multiple of 4 from the base with fewer than 4 octets in front of it. */
  lemma PackLayout(mem: seq<byte>, base: nat, images: seq<seq<byte>>, k: nat)
    requires Packed(mem, base, images) && k < |images|
    ensures base + 4 * k + 4 <= |mem| && Word(mem, base + 4 * k) == |images[k]|
    ensures base + 4 * |images| + 4 <= |mem| && Word(mem, base + 4 * |images|) == 0
    ensures Start(images, k) % 4 == 0 && Holds(mem, base + Start(images, k), images[k])
    ensures k > 0 ==> var end := Start(images, k - 1) + |images[k - 1]|; end <= Start(images, k) < end + 4
  {
    PackedSizes(mem, base, images, k);
    PackedParts(mem, base, images);
    ImageAt(mem, base, images, k);
  }

  lemma PackedSizes(mem: seq<byte>, base: nat, images: seq<seq<byte>>, k: nat)
    requires Packed(mem, base, images) && k < |images|
    ensures base + 4 * k + 4 <= |mem| && Word(mem, base + 4 * k) == |images[k]|
    ensures base + 4 * |images| + 4 <= |mem| && Word(mem, base + 4 * |images|) == 0
  {
    PackedList(mem, base, images);
    SizeAt(mem, base, images, k);
    WordRead(mem, base + 4 * |images|, 0);
  }

  lemma ImageAt(mem: seq<byte>, base: nat, images: seq<seq<byte>>, k: nat)
    requires k < |images| && Holds(mem, base + 4 * (|images| + 1), Bodies(images))
    ensures Start(images, k) % 4 == 0 && Holds(mem, base + Start(images, k), images[k])
  {
    BodiesFrom(mem, base, images, k);
    FirstBody(mem, base + Start(images, k), images[k..]);
  }

  lemma {:induction false} SizeAt(mem: seq<byte>, p: nat, images: seq<seq<byte>>, k: nat)
    requires Sized(images) && k < |images| && Holds(mem, p, Sizes(images))
    ensures p + 4 * k + 4 <= |mem| && Word(mem, p + 4 * k) == |images[k]|
    decreases k
  {
    HoldsBoth(mem, p, WordBytes(|images[0]|), Sizes(images[1..]));
    if k == 0 {
      WordRead(mem, p, |images[0]|);
    } else {
      SizeAt(mem, p + 4, images[1..], k - 1);
    }
  }

  lemma {:induction false} BodiesFrom(mem: seq<byte>, base: nat, images: seq<seq<byte>>, k: nat)
    requires k <= |images| && Holds(mem, base + 4 * (|images| + 1), Bodies(images))
    ensures Start(images, k) % 4 == 0 && Holds(mem, base + Start(images, k), Bodies(images[k..]))
    decreases k
  {
    if k == 0 {
      assert images[0..] == images;
    } else {
      BodiesFrom(mem, base, images, k - 1);
      NextBody(mem, base, Start(images, k - 1), images[k - 1..]);
      assert images[k - 1..][1..] == images[k..];
    }
  }

  lemma NextBody(mem: seq<byte>, base: nat, at: nat, images: seq<seq<byte>>)
    requires images != [] && at % 4 == 0 && Holds(mem, base + at, Bodies(images))
    ensures Holds(mem, base + RoundedUp(at + |images[0]|), Bodies(images[1..]))
  {
    FirstBody(mem, base + at, images);
    RoundedIs(at, |images[0]|);
    SamePlace(mem, base + at + (|images[0]| + Pad(|images[0]|)), base + RoundedUp(at + |images[0]|),
              Bodies(images[1..]));
  }

  lemma SamePlace(mem: seq<byte>, p: nat, q: nat, text: seq<byte>)
    requires p == q && Holds(mem, p, text)
    ensures Holds(mem, q, text)
  {
  }

  // ----- pieces -----

  /** The watchdog loop moves pieces of 64 KiB, and what is left last. */
  lemma {:induction false} ChunksAre(len: nat, i: nat)
    requires i < |Chunks(len)|
    ensures 65536 * i < len && Chunks(len)[i] == if len - 65536 * i > 65536 then 65536 else len - 65536 * i
    decreases i
  {
    if i > 0 {
      assert len > 65536;
      assert Chunks(len) == [65536] + Chunks(len - 65536);
      ChunksAre(len - 65536, i - 1);
    }
  }

  /** The compiled memmove moves len / 4 long words and then len % 4 octets. */
  lemma {:induction false} LongsAre(len: nat)
    ensures |Longs(len)| == len / 4 + len % 4
    ensures forall i | 0 <= i < |Longs(len)| :: Longs(len)[i] == if i < len / 4 then 4 else 1
    decreases len
  {
    if len >= 4 {
      LongsAre(len - 4);
      LongsStep(len);
      OneInFront(Longs(len - 4), 4, len - 4);
    } else if len > 0 {
      LongsAre(len - 1);
      OctetInFront(Longs(len - 1), len);
      assert Longs(len) == [1] + Longs(len - 1);
    }
  }

  lemma OctetInFront(units: seq<nat>, len: nat)
    requires 0 < len < 4 && |units| == len - 1 && forall i | 0 <= i < |units| :: units[i] == 1
    ensures forall i | 0 <= i < |[1] + units| :: ([1] + units)[i] == 1
  {
  }

  lemma OneInFront(units: seq<nat>, u: nat, len: nat)
    requires |units| == len / 4 + len % 4 && u == 4
    requires forall i | 0 <= i < |units| :: units[i] == if i < len / 4 then 4 else 1
    ensures var all := [u] + units;
            |all| == (len + 4) / 4 + (len + 4) % 4
            && forall i | 0 <= i < |all| :: all[i] == if i < (len + 4) / 4 then 4 else 1
  {
    assert (len + 4) / 4 == len / 4 + 1 && (len + 4) % 4 == len % 4;
  }
}
