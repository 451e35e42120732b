/** Octets and the few sequence facts that every model in this project shares. */
module Bytes {

  type byte = x: int | 0 <= x < 256

  function Sum(s: seq<byte>): nat {
    if s == [] then 0 else s[0] + Sum(s[1..])
  }

  lemma {:induction false} SumAppend(a: seq<byte>, b: seq<byte>)
    ensures Sum(a + b) == Sum(a) + Sum(b)
  {
    if a == [] {
      assert a + b == b;
    } else {
      assert (a + b)[1..] == a[1..] + b;
      SumAppend(a[1..], b);
    }
  }

  /** The concatenation of a list of byte strings. */
  function Flatten<T>(parts: seq<seq<T>>): seq<T> {
    if parts == [] then [] else parts[0] + Flatten(parts[1..])
  }

  lemma Associate<T>(a: seq<T>, b: seq<T>, c: seq<T>)
    ensures (a + b) + c == a + (b + c)
  {
  }

  // ----- 32-bit words -----

  const WORD := 0x1_0000_0000

  function Min(a: nat, b: nat): nat { if a < b then a else b }

  /** 32-bit additions wrap once or more often with the same result. */
  lemma WrapAdd(x: nat, y: nat)
    ensures (x % WORD + y) % WORD == (x + y) % WORD
  {
  }

  /** A word as octets, in network byte order. */
  function WordBytes(n: nat): (r: seq<byte>)
    requires n < WORD
    ensures |r| == 4
  {
    [n / 0x100_0000, n / 0x1_0000 % 256, n / 0x100 % 256, n % 256]
  }

  /** The octets, shifted together again, are the word. */
  lemma FourOctets(n: nat)
    ensures 256 * (256 * (256 * (n / 0x100_0000) + n / 0x1_0000 % 256) + n / 0x100 % 256) + n % 256 == n
  {
    NextOctetOf(n, 1);
    NextOctetOf(n, 0x100);
    NextOctetOf(n, 0x1_0000);
  }

  lemma NextOctetOf(n: nat, unit: nat)
    requires unit == 1 || unit == 0x100 || unit == 0x1_0000
    ensures 256 * (n / (256 * unit)) + n / unit % 256 == n / unit
  {
  }
}
