/** Skipping the member header of a gzip file (section 2.3 of RFC 1952) before inflating an image. */
module GzipHeader {
  import opened Bytes
  import opened Options

  const DEFLATED := 8

  // ----- the format -----

  /** A member header.  The identification octets are kept because the reader does not look at them. */
  datatype Header = Header(id1: byte, id2: byte, text: bool, mtime: seq<byte>, xfl: byte, os: byte,
                           extra: Option<seq<byte>>, name: Option<seq<byte>>, comment: Option<seq<byte>>,
                           crc: Option<seq<byte>>)
  {
    ghost predicate Ok() {
      && |mtime| == 4
      && (extra.Some? ==> |extra.value| < 0x1_0000)
      && (name.Some? ==> 0 !in name.value)
      && (comment.Some? ==> 0 !in comment.value)
      && (crc.Some? ==> |crc.value| == 2)
    }

    function Flags(): byte {
      (if text then 1 else 0) + (if crc.Some? then 2 else 0) + (if extra.Some? then 4 else 0)
      + (if name.Some? then 8 else 0) + (if comment.Some? then 16 else 0)
    }

    function Fixed(): seq<byte> { [id1, id2, DEFLATED, Flags()] + mtime + [xfl, os] }

    function Extra(): seq<byte>
      requires extra.Some? ==> |extra.value| < 0x1_0000
    {
      if extra.None? then [] else [|extra.value| % 256, |extra.value| / 256] + extra.value
    }

    function Crc(): seq<byte> { if crc.None? then [] else crc.value }

    ghost function Text(): seq<byte>
      requires Ok()
    {
      Fixed() + Extra() + ZeroEnded(name) + ZeroEnded(comment) + Crc()
    }
  }

  function ZeroEnded(s: Option<seq<byte>>): seq<byte> {
    if s.None? then [] else s.value + [0]
  }

  // ----- the reader -----

  datatype Outcome = Index(i: nat) | BadData | OutOfData | OffMemory

  predicate Bit(flags: byte, b: nat)
    requires b > 0
  {
    (flags / b) % 2 == 1
  }

  function AfterExtra(src: seq<byte>): nat
    requires |src| >= 12
  {
    if Bit(src[3], 4) then 12 + src[10] as int + 256 * src[11] as int else 10
  }

  /** One past the next zero octet. */
  function AfterZero(src: seq<byte>, i: nat): Option<nat>
    decreases |src| - i
  {
    if i >= |src| then None else if src[i] == 0 then Some(i + 1) else AfterZero(src, i + 1)
  }

  function AfterString(src: seq<byte>, present: bool, i: nat): Option<nat> {
    if present then AfterZero(src, i) else Some(i)
  }

  function AfterCrc(src: seq<byte>, i: nat): nat
    requires |src| >= 12
  {
    if Bit(src[3], 2) then i + 2 else i
  }

  function Strings(src: seq<byte>): Option<nat>
    requires |src| >= 12
  {
    var named := AfterString(src, Bit(src[3], 8), AfterExtra(src));
    if named.None? then None else AfterString(src, Bit(src[3], 16), named.value)
  }

  /** The outcome for memory from src on, of which len octets are the image. */
  function Skip(src: seq<byte>, len: nat): Outcome
    requires |src| >= 12
  {
    if src[2] != DEFLATED || src[3] >= 32 then BadData else
      var s := Strings(src);
      if s.None? then OffMemory
      else if AfterCrc(src, s.value) >= len then OutOfData
      else Index(AfterCrc(src, s.value))
  }

  method NextZero(src: seq<byte>, from: nat) returns (r: Option<nat>)
    ensures r == AfterZero(src, from)
  {
    var i := from;
    while i < |src|
      invariant AfterZero(src, i) == AfterZero(src, from)
      decreases |src| - i
    {
      i := i + 1;
      if src[i - 1] == 0 { return Some(i); }
    }
    return None;
  }

  method SkipHeader(src: seq<byte>, len: nat) returns (r: Outcome)
    requires |src| >= 12
    ensures r == Skip(src, len)
  {
    var i := 10;
    var flags := src[3];
    if src[2] != DEFLATED || flags >= 32 { return BadData; }
    if Bit(flags, 4) { i := 12 + src[10] as int + 256 * src[11] as int; }
    if Bit(flags, 8) {
      var j := NextZero(src, i);
      if j.None? { return OffMemory; }
      i := j.value;
    }
    if Bit(flags, 16) {
      var j := NextZero(src, i);
      if j.None? { return OffMemory; }
      i := j.value;
    }
    if Bit(flags, 2) { i := i + 2; }
    if i >= len { return OutOfData; }
    return Index(i);
  }

  // ----- every header is skipped exactly -----

  lemma {:induction false} AfterZeroFinds(src: seq<byte>, i: nat, s: seq<byte>)
    requires 0 !in s && i + |s| < |src| && src[i..i + |s|] == s && src[i + |s|] == 0
    ensures AfterZero(src, i) == Some(i + |s| + 1)
    decreases |s|
  {
    if s != [] {
      assert src[i] == src[i..i + |s|][0] == s[0];
      assert s[0] in s;
      assert src[i + 1..i + 1 + |s[1..]|] == src[i..i + |s|][1..];
      AfterZeroFinds(src, i + 1, s[1..]);
    }
  }

  lemma StringSkipped(src: seq<byte>, i: nat, s: Option<seq<byte>>)
    requires s.Some? ==> 0 !in s.value
    requires i + |ZeroEnded(s)| <= |src| && src[i..i + |ZeroEnded(s)|] == ZeroEnded(s)
    ensures AfterString(src, s.Some?, i) == Some(i + |ZeroEnded(s)|)
  {
    if s.Some? {
      var t := src[i..i + |s.value| + 1];
      assert t[..|s.value|] == s.value && t[|s.value|] == 0;
      AfterZeroFinds(src, i, s.value);
    }
  }

  lemma FlagBits(h: Header)
    ensures h.Flags() < 32
    ensures Bit(h.Flags(), 2) == h.crc.Some? && Bit(h.Flags(), 4) == h.extra.Some?
    ensures Bit(h.Flags(), 8) == h.name.Some? && Bit(h.Flags(), 16) == h.comment.Some?
  {
  }

  lemma Pieces<T>(src: seq<T>, a: seq<T>, b: seq<T>, c: seq<T>, d: seq<T>, e: seq<T>, rest: seq<T>)
    requires src == a + b + c + d + e + rest
    ensures |src| >= |a| + |b| + |c| + |d| + |e|
    ensures src[..|a|] == a && src[|a|..|a| + |b|] == b
    ensures src[|a| + |b|..|a| + |b| + |c|] == c
    ensures src[|a| + |b| + |c|..|a| + |b| + |c| + |d|] == d
  {
  }

  lemma ExtraSkipped(src: seq<byte>, h: Header)
    requires h.Ok() && |src| >= 12 && 10 + |h.Extra()| <= |src|
    requires src[..10] == h.Fixed() && src[10..10 + |h.Extra()|] == h.Extra()
    ensures src[2] == DEFLATED && src[3] == h.Flags() && AfterExtra(src) == 10 + |h.Extra()|
  {
    assert src[2] == src[..10][2] && src[3] == src[..10][3];
    FlagBits(h);
    if h.extra.Some? {
      var x := src[10..10 + |h.Extra()|];
      assert src[10] == x[0] && src[11] == x[1];
    }
  }

  /** For every header, image and memory behind it, the reader stops at the first octet of compressed data. */
  lemma HeaderSkipped(h: Header, rest: seq<byte>, len: nat)
    requires h.Ok() && |h.Text() + rest| >= 12
    ensures Skip(h.Text() + rest, len) == if |h.Text()| >= len then OutOfData else Index(|h.Text()|)
  {
    var src := h.Text() + rest;
    Pieces(src, h.Fixed(), h.Extra(), ZeroEnded(h.name), ZeroEnded(h.comment), h.Crc(), rest);
    var i := 10 + |h.Extra()|;
    FieldsSkipped(src, h, i, i + |ZeroEnded(h.name)|, len);
    assert |h.Text()| == i + |ZeroEnded(h.name)| + |ZeroEnded(h.comment)| + |h.Crc()|;
  }

  /** The same from where the fields stand: the name at i, the comment at j. */
  lemma FieldsSkipped(src: seq<byte>, h: Header, i: nat, j: nat, len: nat)
    requires h.Ok() && |src| >= 12 && i == 10 + |h.Extra()| && j == i + |ZeroEnded(h.name)|
    requires j + |ZeroEnded(h.comment)| <= |src|
    requires src[..10] == h.Fixed() && src[10..i] == h.Extra() && src[i..j] == ZeroEnded(h.name)
    requires src[j..j + |ZeroEnded(h.comment)|] == ZeroEnded(h.comment)
    ensures var end := j + |ZeroEnded(h.comment)| + |h.Crc()|;
            Skip(src, len) == if end >= len then OutOfData else Index(end)
  {
    ExtraSkipped(src, h);
    FlagBits(h);
    StringSkipped(src, i, h.name);
    StringSkipped(src, j, h.comment);
  }

  /** The flags one by one: text changes nothing, a header check adds two octets, an extra field its length (least
      significant octet first) and two, and a name or a comment everything up to its zero. */
  lemma FlagsOneByOne(src: seq<byte>, len: nat, k: nat)
    requires |src| >= 12 && src[2] == 8 && 12 <= len
    requires 10 + k < |src| && src[10 + k] == 0 && 0 !in src[10..10 + k]
    ensures src[3] in {0, 1} ==> Skip(src, len) == Index(10)
    ensures src[3] == 2 && 12 < len ==> Skip(src, len) == Index(12)
    ensures var n := 12 + src[10] as int + 256 * src[11] as int; src[3] == 4 && n < len ==> Skip(src, len) == Index(n)
    ensures src[3] in {8, 16} && 11 + k < len ==> Skip(src, len) == Index(11 + k)
  {
    AfterZeroFinds(src, 10, src[10..10 + k]);
  }

  // ----- what is skipped is a header -----

  lemma {:induction false} AfterZeroIs(src: seq<byte>, i: nat)
    requires AfterZero(src, i).Some?
    ensures var j := AfterZero(src, i).value; i < j <= |src| && src[j - 1] == 0 && 0 !in src[i..j - 1]
    decreases |src| - i
  {
    var j := AfterZero(src, i).value;
    if src[i] == 0 {
      assert src[i..j - 1] == [];
    } else {
      AfterZeroIs(src, i + 1);
      assert src[i..j - 1] == [src[i]] + src[i + 1..j - 1];
    }
  }

  /** The string that the reader passed over. */
  ghost function Passed(src: seq<byte>, present: bool, i: nat): (r: Option<seq<byte>>)
    requires AfterString(src, present, i).Some?
    ensures var j := AfterString(src, present, i).value;
            && i <= |src| ==> i <= j <= |src| && src[i..j] == ZeroEnded(r)
    ensures r.Some? == present && (r.Some? ==> 0 !in r.value)
  {
    if !present then None else
      AfterZeroIs(src, i);
      var j := AfterZero(src, i).value;
      assert src[i..j] == src[i..j - 1] + [0];
      Some(src[i..j - 1])
  }

  lemma FlagsOf(f: byte)
    requires f < 32
    ensures f == (if Bit(f, 1) then 1 else 0) + (if Bit(f, 2) then 2 else 0) + (if Bit(f, 4) then 4 else 0)
                 + (if Bit(f, 8) then 8 else 0) + (if Bit(f, 16) then 16 else 0)
  {
  }

  lemma Slices<T>(src: seq<T>, a: nat, b: nat, c: nat, d: nat, e: nat)
    requires a <= b <= c <= d <= e <= |src|
    ensures src[..a] + src[a..b] + src[b..c] + src[c..d] + src[d..e] == src[..e]
  {
  }

  /** The reader accepts exactly the octets that are a header followed by at least one octet of data. */
  lemma SkipIff(src: seq<byte>, len: nat, i: nat)
    requires 12 <= |src| && len <= |src|
    ensures Skip(src, len) == Index(i) <==> i < len && exists h: Header :: h.Ok() && h.Text() == src[..i]
  {
    if Skip(src, len) == Index(i) {
      var h := Recovered(src, len);
      assert h.Ok() && h.Text() == src[..i];
    }
    if i < len {
      forall h: Header | h.Ok() && h.Text() == src[..i] ensures Skip(src, len) == Index(i) {
        SkippedTo(src, len, i, h);
      }
    }
  }

  lemma SkippedTo(src: seq<byte>, len: nat, i: nat, h: Header)
    requires 12 <= |src| && i < len <= |src| && h.Ok() && h.Text() == src[..i]
    ensures Skip(src, len) == Index(i)
  {
    assert src == h.Text() + src[i..];
    HeaderSkipped(h, src[i..], len);
  }

  lemma FixedRecovered(src: seq<byte>, h: Header)
    requires 12 <= |src| && src[2] == DEFLATED && src[3] < 32
    requires h.id1 == src[0] && h.id2 == src[1] && h.text == Bit(src[3], 1) && h.mtime == src[4..8]
    requires h.xfl == src[8] && h.os == src[9] && h.crc.Some? == Bit(src[3], 2)
    requires h.extra.Some? == Bit(src[3], 4) && h.name.Some? == Bit(src[3], 8) && h.comment.Some? == Bit(src[3], 16)
    ensures h.Fixed() == src[..10]
  {
    FlagsOf(src[3]);
    assert src[..10] == [src[0], src[1], src[2], src[3]] + src[4..8] + [src[8], src[9]];
  }

  lemma ExtraRecovered(src: seq<byte>, h: Header)
    requires 12 <= |src| && AfterExtra(src) <= |src|
    requires h.extra == if Bit(src[3], 4) then Some(src[12..AfterExtra(src)]) else None
    ensures (h.extra.Some? ==> |h.extra.value| < 0x1_0000) && h.Extra() == src[10..AfterExtra(src)]
  {
    if h.extra.Some? {
      assert src[10..AfterExtra(src)] == [src[10], src[11]] + src[12..AfterExtra(src)];
    }
  }

  lemma Recovered(src: seq<byte>, len: nat) returns (h: Header)
    requires 12 <= |src| && len <= |src| && Skip(src, len).Index?
    ensures h.Ok() && h.Text() == src[..Skip(src, len).i]
  {
    var f := src[3];
    var x := AfterExtra(src);
    var name := AfterString(src, Bit(f, 8), x).value;
    var comment := AfterString(src, Bit(f, 16), name).value;
    var end := AfterCrc(src, comment);
    InOrder(src, len);
    h := Header(src[0], src[1], Bit(f, 1), src[4..8], src[8], src[9],
                if Bit(f, 4) then Some(src[12..x]) else None,
                Passed(src, Bit(f, 8), x), Passed(src, Bit(f, 16), name),
                if Bit(f, 2) then Some(src[comment..end]) else None);
    FixedRecovered(src, h);
    ExtraRecovered(src, h);
    Slices(src, 10, x, name, comment, end);
  }

  lemma InOrder(src: seq<byte>, len: nat)
    requires 12 <= |src| && len <= |src| && Skip(src, len).Index?
    ensures var x := AfterExtra(src); var named := AfterString(src, Bit(src[3], 8), x);
            && named.Some? && AfterString(src, Bit(src[3], 16), named.value).Some?
            && 10 <= x <= named.value <= Strings(src).value <= AfterCrc(src, Strings(src).value) <= |src|
  {
    var x := AfterExtra(src);
    var named := AfterString(src, Bit(src[3], 8), x);
    if Bit(src[3], 8) { AfterZeroIs(src, x); }
    if Bit(src[3], 16) { AfterZeroIs(src, named.value); }
  }

  /** A method other than deflate, or a reserved flag, is refused, and nothing else is called bad data. */
  lemma RefusedIff(src: seq<byte>, len: nat)
    requires |src| >= 12
    ensures Skip(src, len) == BadData <==>
              src[2] != DEFLATED || Bit(src[3], 32) || Bit(src[3], 64) || Bit(src[3], 128)
  {
    var f := src[3];
    assert f >= 32 <==> Bit(f, 32) || Bit(f, 64) || Bit(f, 128);
  }
}
