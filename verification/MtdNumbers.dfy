/** Sizes as `mtdparts` strings spell them: simple_strtoul with base detection, the k/m/g suffixes,
    and the formatter that is meant to be their inverse. */
module MtdNumbers {
  import opened Bytes

  const SIZE_KB := 0x400
  const SIZE_MB := 0x10_0000
  const SIZE_GB := 0x4000_0000

  type u32 = x: int | 0 <= x < WORD

  predicate IsDigit(c: char) { '0' <= c <= '9' }

  predicate IsXDigit(c: char) { IsDigit(c) || 'a' <= c <= 'f' || 'A' <= c <= 'F' }

  function DigitValue(c: char): nat
    requires IsXDigit(c)
  {
    if IsDigit(c) then c as int - '0' as int
    else if 'a' <= c <= 'f' then c as int - 'a' as int + 10
    else c as int - 'A' as int + 10
  }

  predicate Accepts(s: string, base: nat) {
    s != [] && IsXDigit(s[0]) && DigitValue(s[0]) < base
  }

  /** A number and the text behind it. */
  datatype Num = Num(value: u32, rest: string)

  function Digits(acc: u32, s: string, base: nat): Num
    decreases |s|
  {
    if Accepts(s, base) then Digits((acc * base + DigitValue(s[0])) % WORD, s[1..], base) else Num(acc, s)
  }

  /** simple_strtoul(s, &rest, 0) */
  function Strtoul(s: string): Num {
    if s != [] && s[0] == '0' then
      if |s| >= 3 && s[1] == 'x' && IsXDigit(s[2]) then Digits(0, s[2..], 16) else Digits(0, s[1..], 8)
    else Digits(0, s, 10)
  }

  /** What a suffix character multiplies by; 1 when it is no suffix. */
  function Scale(c: char): nat {
    if c == 'G' || c == 'g' then SIZE_GB
    else if c == 'M' || c == 'm' then SIZE_MB
    else if c == 'K' || c == 'k' then SIZE_KB
    else 1
  }

  function MemsizeParse(s: string): Num {
    var n := Strtoul(s);
    if n.rest != [] && Scale(n.rest[0]) != 1 then Num((n.value * Scale(n.rest[0])) % WORD, n.rest[1..]) else n
  }

  function DigitChar(d: nat): char
    requires d < 10
  {
    '0' + d as char
  }

  /** sprintf("%lu") */
  function Decimal(n: nat): string {
    if n < 10 then [DigitChar(n)] else Decimal(n / 10) + [DigitChar(n % 10)]
  }

  function MemsizeFormat(size: u32): string {
    if size % SIZE_GB == 0 then Decimal(size / SIZE_GB) + "g"
    else if size % SIZE_MB == 0 then Decimal(size / SIZE_MB) + "m"
    else if size % SIZE_KB == 0 then Decimal(size / SIZE_KB) + "k"
    else Decimal(size)
  }

  lemma {:induction false} DigitsLength(acc: u32, s: string, base: nat)
    ensures |Digits(acc, s, base).rest| <= |s|
    decreases |s|
  {
    if Accepts(s, base) {
      DigitsLength((acc * base + DigitValue(s[0])) % WORD, s[1..], base);
    }
  }

  /** A size text that yields anything but zero has used up at least one character. */
  lemma MemsizeParseConsumes(s: string)
    ensures |MemsizeParse(s).rest| <= |s|
    ensures MemsizeParse(s).value != 0 ==> |MemsizeParse(s).rest| < |s|
  {
    if s != [] && s[0] == '0' {
      DigitsLength(0, s[1..], 8);
      if |s| >= 3 { DigitsLength(0, s[2..], 16); }
    } else if Accepts(s, 10) {
      DigitsLength(DigitValue(s[0]), s[1..], 10);
      assert (0 * 10 + DigitValue(s[0])) % WORD == DigitValue(s[0]);
    }
  }

  lemma DigitCharValue(d: nat)
    requires d < 10
    ensures IsDigit(DigitChar(d)) && DigitValue(DigitChar(d)) == d && Scale(DigitChar(d)) == 1
  {
  }

  lemma DigitStep(acc: nat, d: nat, tail: string)
    requires d < 10 && acc * 10 + d < WORD
    ensures Digits(acc, [DigitChar(d)] + tail, 10) == Digits(acc * 10 + d, tail, 10)
  {
    DigitCharValue(d);
    var s := [DigitChar(d)] + tail;
    assert s[0] == DigitChar(d) && s[1..] == tail;
    assert (acc * 10 + d) % WORD == acc * 10 + d;
  }

  lemma {:induction false} DigitsDecimal(n: nat, tail: string)
    requires n < WORD
    ensures Digits(0, Decimal(n) + tail, 10) == Digits(n, tail, 10)
  {
    if n < 10 {
      DigitStep(0, n, tail);
    } else {
      var last := [DigitChar(n % 10)] + tail;
      assert Decimal(n) + tail == Decimal(n / 10) + last;
      DigitsDecimal(n / 10, last);
      DigitStep(n / 10, n % 10, tail);
    }
  }

  lemma {:induction false} DecimalHead(n: nat)
    ensures Decimal(n) != [] && IsDigit(Decimal(n)[0])
    ensures n > 0 ==> Decimal(n)[0] != '0'
  {
    if n >= 10 {
      DecimalHead(n / 10);
    }
  }

  /** Decimal text comes back as its number when no digit follows; zero needs a follower that is no `x` either. */
  lemma StrtoulDecimal(n: nat, tail: string)
    requires n < WORD
    requires tail == [] || (!IsXDigit(tail[0]) && tail[0] != 'x')
    ensures Strtoul(Decimal(n) + tail) == Num(n, tail)
  {
    var s := Decimal(n) + tail;
    DecimalHead(n);
    if n == 0 {
      assert Decimal(0) == "0";
      assert s[1..] == tail;
    } else {
      assert s[0] == Decimal(n)[0];
      DigitsDecimal(n, tail);
    }
  }

  /** memsize_parse undoes memsize_format for every 32-bit size, whatever non-digit, non-suffix text follows. */
  lemma MemsizeRoundTrip(size: u32, tail: string)
    requires tail == [] || (!IsXDigit(tail[0]) && tail[0] != 'x' && Scale(tail[0]) == 1)
    ensures MemsizeParse(MemsizeFormat(size) + tail) == Num(size, tail)
  {
    if size % SIZE_GB == 0 {
      SuffixRoundTrip(size / SIZE_GB, "g", tail);
    } else if size % SIZE_MB == 0 {
      SuffixRoundTrip(size / SIZE_MB, "m", tail);
    } else if size % SIZE_KB == 0 {
      SuffixRoundTrip(size / SIZE_KB, "k", tail);
    } else {
      StrtoulDecimal(size, tail);
    }
  }

  lemma SuffixRoundTrip(n: nat, suffix: string, tail: string)
    requires suffix in {"g", "m", "k"} && n * Scale(suffix[0]) < WORD
    ensures MemsizeParse(Decimal(n) + suffix + tail) == Num(n * Scale(suffix[0]), tail)
  {
    var t := suffix + tail;
    assert Decimal(n) + suffix + tail == Decimal(n) + t;
    StrtoulDecimal(n, t);
    Scaled(n, t, Decimal(n) + t);
    assert t[1..] == tail && t[0] == suffix[0];
  }

  lemma Scaled(n: nat, rest: string, s: string)
    requires rest != "" && Scale(rest[0]) != 1 && n * Scale(rest[0]) < WORD && Strtoul(s) == Num(n, rest)
    ensures MemsizeParse(s) == Num(n * Scale(rest[0]), rest[1..])
  {
  }
}
