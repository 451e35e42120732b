/** The environment as a list of "name=value" strings: its encoding in the flat buffer, lookup, and
    setenv as a step on the list. */
module EnvList {
  import opened Bytes
  import opened Options

  const NUL: byte := 0
  const EQUALS: byte := 0x3D
  const BLANK: byte := 0x20

  type Text = seq<byte>

  // ----- entries -----

  /** The part before the first '='; all of it when there is none. */
  function KeyOf(s: Text): Text {
    if s == [] || s[0] == EQUALS then [] else [s[0]] + KeyOf(s[1..])
  }

  predicate EntryOk(e: Text) { NUL !in e && EQUALS in e }

  function ValueOf(e: Text): Text
    requires EQUALS in e
  {
    KeyFacts(e);
    e[|KeyOf(e)| + 1..]
  }

  lemma {:induction false} KeyFacts(s: Text)
    ensures |KeyOf(s)| <= |s| && KeyOf(s) == s[..|KeyOf(s)|] && EQUALS !in KeyOf(s)
    ensures |KeyOf(s)| < |s| ==> s[|KeyOf(s)|] == EQUALS
    ensures |KeyOf(s)| == |s| <==> EQUALS !in s
  {
    if s != [] && s[0] != EQUALS {
      KeyFacts(s[1..]);
      assert s == [s[0]] + s[1..];
    }
  }

  /** A prefix without '=' that ends at '=' or at the end is the key. */
  lemma {:induction false} KeyIs(s: Text, j: nat)
    requires j <= |s| && EQUALS !in s[..j] && (j == |s| || s[j] == EQUALS)
    ensures KeyOf(s) == s[..j]
  {
    if j > 0 {
      assert s[0] in s[..j] && s[1..][..j - 1] == s[..j][1..];
      KeyIs(s[1..], j - 1);
    }
  }

  // ----- the list and its encoding -----

  predicate Distinct(es: seq<Text>) { forall i, j | 0 <= i < j < |es| :: KeyOf(es[i]) != KeyOf(es[j]) }

  predicate ListOk(es: seq<Text>) { (forall i | 0 <= i < |es| :: EntryOk(es[i])) && Distinct(es) }

  /** Every entry with its terminator. */
  function Strings(es: seq<Text>): Text {
    if es == [] then [] else Strings(es[..|es| - 1]) + es[|es| - 1] + [NUL]
  }

  /** Entries, each ended by NUL, and one more NUL; an empty list is two NULs. */
  function Encode(es: seq<Text>): Text { if es == [] then [NUL, NUL] else Strings(es) + [NUL] }

  /** Where entry i begins. */
  function Offset(es: seq<Text>, i: nat): nat
    requires i <= |es|
  {
    |Strings(es[..i])|
  }

  lemma {:induction false} StringsAppend(a: seq<Text>, b: seq<Text>)
    ensures Strings(a + b) == Strings(a) + Strings(b)
  {
    if b == [] {
      assert a + b == a;
    } else {
      var n := |b| - 1;
      assert (a + b)[..|a + b| - 1] == a + b[..n];
      StringsAppend(a, b[..n]);
    }
  }

  lemma StringsOne(e: Text)
    ensures Strings([e]) == e + [NUL]
  {
    var one: seq<Text> := [e];
    assert one[..0] == [] && [] + e == e;
  }

  /** The bytes of the list around entry i. */
  lemma StringsSplit(es: seq<Text>, i: nat)
    requires i < |es|
    ensures Strings(es) == Strings(es[..i]) + (es[i] + [NUL]) + Strings(es[i + 1..])
    ensures Offset(es, i + 1) == Offset(es, i) + |es[i]| + 1
  {
    var e, more := es[i], es[i + 1..];
    assert es == es[..i] + ([e] + more) && es[..i + 1] == es[..i] + [e];
    StringsAppend(es[..i], [e] + more);
    StringsAppend(es[..i], [e]);
    StringsAppend([e], more);
    StringsOne(e);
    Associate(Strings(es[..i]), e + [NUL], Strings(more));
  }

  /** A NUL in front of another byte of the list is never followed by a second one: entries are not empty. */
  lemma {:induction false} NoDoubleNul(es: seq<Text>, k: nat)
    requires (forall i | 0 <= i < |es| :: EntryOk(es[i])) && 0 < k < |Strings(es)| && Strings(es)[k - 1] == NUL
    ensures Strings(es)[k] != NUL
  {
    var n := |es| - 1;
    var front := Strings(es[..n]);
    assert Strings(es) == front + (es[n] + [NUL]);
    if k < |front| {
      NoDoubleNul(es[..n], k);
    } else if k == |front| {
      assert Strings(es)[k] == es[n][0];
    }
  }

  lemma StringsStart(es: seq<Text>)
    requires es != [] && EntryOk(es[0])
    ensures |Strings(es)| >= 2 && Strings(es)[0] != NUL && Strings(es)[|Strings(es)| - 1] == NUL
  {
    StringsSplit(es, 0);
    assert Strings(es[..0]) == [];
    assert Strings(es)[0] == es[0][0];
  }

  /** The bytes of entry i in the encoding. */
  lemma EncodedAt(es: seq<Text>, i: nat)
    requires i < |es|
    ensures var c, o := Encode(es), Offset(es, i);
            && o + |es[i]| + 1 < |c| && c[o..o + |es[i]|] == es[i] && c[o + |es[i]|] == NUL
            && Offset(es, i + 1) == o + |es[i]| + 1
  {
    StringsSplit(es, i);
    var c := Strings(es[..i]) + (es[i] + [NUL]) + Strings(es[i + 1..]) + [NUL];
    assert c[Offset(es, i)..Offset(es, i) + |es[i]|] == es[i];
  }

  lemma EncodedEnd(es: seq<Text>)
    ensures Offset(es, |es|) == |Strings(es)| < |Encode(es)| && Encode(es)[|Strings(es)|] == NUL
  {
    assert es[..|es|] == es;
  }

  /** The buffer determines the list: when one encoding begins like another, the lists are the same. */
  lemma {:induction false} EncodeInjective(a: seq<Text>, b: seq<Text>)
    requires (forall i | 0 <= i < |a| :: EntryOk(a[i])) && (forall i | 0 <= i < |b| :: EntryOk(b[i]))
    requires Agree(Strings(a) + [NUL], Strings(b) + [NUL])
    ensures a == b
    decreases |a|
  {
    HeadOf(a);
    HeadOf(b);
    assert (Strings(a) + [NUL])[0] == (Strings(b) + [NUL])[0];
    if a != [] {
      FirstStringEqual(a[0], Strings(a[1..]) + [NUL], b[0], Strings(b[1..]) + [NUL]);
      EncodeInjective(a[1..], b[1..]);
      assert a == [a[0]] + a[1..] && b == [b[0]] + b[1..];
    }
  }

  predicate Agree(s: Text, t: Text) { s <= t || t <= s }

  lemma HeadOf(es: seq<Text>)
    requires forall i | 0 <= i < |es| :: EntryOk(es[i])
    ensures (Strings(es) + [NUL])[0] == NUL <==> es == []
    ensures es != [] ==> Strings(es) + [NUL] == es[0] + [NUL] + (Strings(es[1..]) + [NUL])
  {
    if es != [] {
      StringsStart(es);
      FirstString(es);
      Associate(es[0] + [NUL], Strings(es[1..]), [NUL]);
    }
  }

  lemma FirstString(es: seq<Text>)
    requires es != []
    ensures Strings(es) == (es[0] + [NUL]) + Strings(es[1..])
  {
    assert es == [es[0]] + es[1..];
    StringsAppend([es[0]], es[1..]);
    StringsOne(es[0]);
  }

  lemma FirstStringEqual(x: Text, u: Text, y: Text, v: Text)
    requires NUL !in x && NUL !in y && Agree(x + [NUL] + u, y + [NUL] + v)
    ensures x == y && Agree(u, v)
  {
    var s, t := x + [NUL] + u, y + [NUL] + v;
    var m := if |s| <= |t| then |s| else |t|;
    assert forall i | 0 <= i < m :: s[i] == t[i];
    assert s[|x|] == NUL && t[|y|] == NUL;
    assert forall i | 0 <= i < |x| :: s[i] == x[i] != NUL;
    assert forall i | 0 <= i < |y| :: t[i] == y[i] != NUL;
    assert s[|x| + 1..] == u && t[|x| + 1..] == v;
  }

  // ----- lookup -----

  function Position(es: seq<Text>, key: Text): nat {
    if es == [] || KeyOf(es[0]) == key then 0 else 1 + Position(es[1..], key)
  }

  lemma {:induction false} PositionFacts(es: seq<Text>, key: Text)
    ensures var i := Position(es, key);
            && i <= |es| && (i < |es| ==> KeyOf(es[i]) == key)
            && forall j | 0 <= j < i :: KeyOf(es[j]) != key
  {
    if es != [] && KeyOf(es[0]) != key {
      PositionFacts(es[1..], key);
      var i := Position(es[1..], key);
      forall j | 0 <= j < i + 1 ensures KeyOf(es[j]) != key {
        if j > 0 { assert es[j] == es[1..][j - 1]; }
      }
    }
  }

  predicate Defined(es: seq<Text>, key: Text) { Position(es, key) < |es| }

  /** What getenv finds. */
  function Lookup(es: seq<Text>, key: Text): Option<Text>
    requires ListOk(es)
  {
    var i := Position(es, key);
    if i < |es| then Some(ValueOf(es[i])) else None
  }

  /** In a list with distinct keys, an entry with the key is the one found. */
  lemma PositionUnique(es: seq<Text>, i: nat)
    requires ListOk(es) && i < |es|
    ensures Position(es, KeyOf(es[i])) == i
  {
    PositionFacts(es, KeyOf(es[i]));
  }

  // ----- setenv -----

  /** CONFIG_ENV_OVERWRITE, and the default of CONFIG_OVERWRITE_ETHADDR_ONCE when that is configured. */
  datatype Config = Config(overwrite: bool, ethaddrOnce: Option<Text>)

  const SERIAL: Text := [0x73, 0x65, 0x72, 0x69, 0x61, 0x6C, 0x23]    // "serial#"
  const ETHADDR: Text := [0x65, 0x74, 0x68, 0x61, 0x64, 0x64, 0x72]   // "ethaddr"
  const STDIN: Text := [0x73, 0x74, 0x64, 0x69, 0x6E]
  const STDOUT: Text := [0x73, 0x74, 0x64, 0x6F, 0x75, 0x74]
  const STDERR: Text := [0x73, 0x74, 0x64, 0x65, 0x72, 0x72]
  const BAUDRATE: Text := [0x62, 0x61, 0x75, 0x64, 0x72, 0x61, 0x74, 0x65]

  /** Whether an existing definition may go. `allowed` is the answer of the console and baud rate code. */
  predicate MayReplace(cfg: Config, name: Text, value: Text, values: seq<Text>, allowed: bool) {
    && (!cfg.overwrite ==> name != SERIAL && (name == ETHADDR ==> cfg.ethaddrOnce == Some(value)))
    && (name in {STDIN, STDOUT, STDERR} ==> values != [] && allowed)
    && (name == BAUDRATE ==> allowed)
  }

  /** '=' before the first value, a blank before each further one. */
  function Joined(values: seq<Text>): Text {
    if values == [] then []
    else Joined(values[..|values| - 1]) + [if |values| == 1 then EQUALS else BLANK] + values[|values| - 1]
  }

  function Removed(es: seq<Text>, key: Text): seq<Text> {
    var i := Position(es, key);
    if i < |es| then es[..i] + es[i + 1..] else es
  }

  /** An existing definition that may not go. */
  predicate Refused(cfg: Config, es: seq<Text>, name: Text, values: seq<Text>, allowed: bool)
    requires ListOk(es)
  {
    Defined(es, KeyOf(name)) && !MayReplace(cfg, name, Lookup(es, KeyOf(name)).value, values, allowed)
  }

  /** _do_setenv on a buffer of `size` bytes: refused, deleted, replaced, or deleted for lack of room. */
  function Set(cfg: Config, size: nat, es: seq<Text>, name: Text, values: seq<Text>, allowed: bool): (seq<Text>, bool)
    requires ListOk(es)
  {
    if Refused(cfg, es, name, values, allowed) then (es, false)
    else
      var rest := Removed(es, KeyOf(name));
      if values == [] then (rest, true)
      else if |Encode(rest + [name + Joined(values)])| > size then (rest, false)
      else (rest + [name + Joined(values)], true)
  }

  // ----- what setenv keeps and does -----

  predicate ArgsOk(name: Text, values: seq<Text>) {
    NUL !in name && forall i | 0 <= i < |values| :: NUL !in values[i]
  }

  lemma {:induction false} JoinedFacts(values: seq<Text>)
    requires forall i | 0 <= i < |values| :: NUL !in values[i]
    ensures NUL !in Joined(values) && (values != [] ==> Joined(values) != [] && Joined(values)[0] == EQUALS)
  {
    if values != [] {
      JoinedFacts(values[..|values| - 1]);
    }
  }

  /** The new entry is an entry, with the key that was looked for. */
  lemma EntryFacts(name: Text, values: seq<Text>)
    requires ArgsOk(name, values) && values != []
    ensures EntryOk(name + Joined(values)) && KeyOf(name + Joined(values)) == KeyOf(name)
    ensures EQUALS !in name ==> ValueOf(name + Joined(values)) == Joined(values)[1..]
  {
    var e := name + Joined(values);
    JoinedFacts(values);
    KeyFacts(name);
    var j := |KeyOf(name)|;
    assert e[..j] == name[..j];
    assert e[|name|] == EQUALS;
    KeyIs(e, j);
  }

  lemma RemovedOk(es: seq<Text>, key: Text)
    requires ListOk(es)
    ensures ListOk(Removed(es, key)) && !Defined(Removed(es, key), key)
  {
    var i := Position(es, key);
    PositionFacts(es, key);
    if i < |es| { WithoutOk(es, i, Removed(es, key)); }
    PositionFacts(Removed(es, key), key);
  }

  lemma WithoutOk(es: seq<Text>, i: nat, r: seq<Text>)
    requires ListOk(es) && i < |es| && r == es[..i] + es[i + 1..]
    ensures ListOk(r) && forall j | 0 <= j < |r| :: KeyOf(r[j]) != KeyOf(es[i])
  {
    assert forall j | 0 <= j < |r| :: r[j] == es[if j < i then j else j + 1];
  }

  /** Every variable but one reads the same. */
  ghost predicate OthersSame(es: seq<Text>, es': seq<Text>, key: Text)
    requires ListOk(es) && ListOk(es')
  {
    forall k :: k != key ==> Lookup(es', k) == Lookup(es, k)
  }

  lemma OthersTwice(a: seq<Text>, b: seq<Text>, c: seq<Text>, key: Text)
    requires ListOk(a) && ListOk(b) && ListOk(c) && OthersSame(a, b, key) && OthersSame(b, c, key)
    ensures OthersSame(a, c, key)
  {
  }

  lemma RemovedFacts(es: seq<Text>, key: Text)
    requires ListOk(es)
    ensures ListOk(Removed(es, key)) && !Defined(Removed(es, key), key)
    ensures OthersSame(es, Removed(es, key), key)
  {
    RemovedOk(es, key);
    forall k | k != key ensures Lookup(Removed(es, key), k) == Lookup(es, k) {
      if Defined(es, k) { RemovedPresent(es, key, k); } else { RemovedAbsent(es, key, k); }
    }
  }

  lemma RemovedPresent(es: seq<Text>, key: Text, k: Text)
    requires ListOk(es) && ListOk(Removed(es, key)) && k != key && Defined(es, k)
    ensures Lookup(Removed(es, key), k) == Lookup(es, k)
  {
    var i, p := Position(es, key), Position(es, k);
    PositionFacts(es, key);
    PositionFacts(es, k);
    var r := Removed(es, key);
    var q := if p < i then p else p - 1;
    if i < |es| {
      assert r[q] == es[p];
      PositionUnique(r, q);
    }
  }

  lemma RemovedAbsent(es: seq<Text>, key: Text, k: Text)
    requires ListOk(es) && ListOk(Removed(es, key)) && !Defined(es, k)
    ensures Lookup(Removed(es, key), k) == None
  {
    PositionFacts(es, key);
    PositionFacts(es, k);
    PositionFacts(Removed(es, key), k);
  }

  lemma AppendedFacts(es: seq<Text>, e: Text)
    requires ListOk(es) && EntryOk(e) && !Defined(es, KeyOf(e))
    ensures ListOk(es + [e]) && Lookup(es + [e], KeyOf(e)) == Some(ValueOf(e))
    ensures OthersSame(es, es + [e], KeyOf(e))
  {
    PositionFacts(es, KeyOf(e));
    AppendedOk(es, e);
    PositionUnique(es + [e], |es|);
    forall k | k != KeyOf(e) ensures Lookup(es + [e], k) == Lookup(es, k) { AppendedOther(es, e, k); }
  }

  lemma AppendedOk(es: seq<Text>, e: Text)
    requires ListOk(es) && EntryOk(e) && forall i | 0 <= i < |es| :: KeyOf(es[i]) != KeyOf(e)
    ensures ListOk(es + [e])
  {
    var r := es + [e];
    assert r[|es|] == e && forall j | 0 <= j < |es| :: r[j] == es[j];
  }

  lemma AppendedOther(es: seq<Text>, e: Text, k: Text)
    requires ListOk(es) && ListOk(es + [e]) && k != KeyOf(e)
    ensures Lookup(es + [e], k) == Lookup(es, k)
  {
    PositionAppend(es, e, k);
    var i := Position(es, k);
    if i < |es| { assert (es + [e])[i] == es[i]; }
  }

  lemma {:induction false} PositionAppend(es: seq<Text>, e: Text, k: Text)
    requires KeyOf(e) != k
    ensures Position(es + [e], k) == if Position(es, k) < |es| then Position(es, k) else |es| + 1
    decreases |es|
  {
    if es == [] {
      assert [e][1..] == [] && es + [e] == [e];
    } else {
      assert (es + [e])[1..] == es[1..] + [e];
      PositionAppend(es[1..], e, k);
    }
  }

  /** What setenv promises of the list before and after. */
  ghost predicate SetOk(size: nat, es: seq<Text>, es': seq<Text>, ok: bool, name: Text, values: seq<Text>)
    requires ListOk(es)
  {
    && ListOk(es')
    && OthersSame(es, es', KeyOf(name))
    && (ok && values != [] && EQUALS !in name ==> Lookup(es', name) == Some(Joined(values)[1..]))
    && (ok && values == [] ==> Lookup(es', KeyOf(name)) == None)
    && (!ok ==> es' == es || Lookup(es', KeyOf(name)) == None)
    && (|Encode(es)| <= size ==> |Encode(es')| <= size)
  }

  /** setenv keeps the list well formed and leaves every other variable alone. A refusal changes nothing;
      otherwise the old definition goes, and a set that reports success reads back. */
  lemma SetFacts(cfg: Config, size: nat, es: seq<Text>, name: Text, values: seq<Text>, allowed: bool)
    requires ListOk(es) && ArgsOk(name, values)
    ensures var (es', ok) := Set(cfg, size, es, name, values, allowed); SetOk(size, es, es', ok, name, values)
  {
    if Refused(cfg, es, name, values, allowed) {
      NothingSet(size, es, name, values);
    } else if values == [] || |Encode(Removed(es, KeyOf(name)) + [name + Joined(values)])| > size {
      DeleteFacts(size, es, name, values, values == []);
    } else {
      AppendFacts(size, es, name, values);
    }
  }

  lemma NothingSet(size: nat, es: seq<Text>, name: Text, values: seq<Text>)
    requires ListOk(es)
    ensures SetOk(size, es, es, false, name, values)
  {
  }

  /** Deleting the old definition, by an empty set or for lack of room. */
  lemma DeleteFacts(size: nat, es: seq<Text>, name: Text, values: seq<Text>, ok: bool)
    requires ListOk(es) && (ok ==> values == [])
    ensures SetOk(size, es, Removed(es, KeyOf(name)), ok, name, values)
  {
    var key := KeyOf(name);
    RemovedFacts(es, key);
    RemovedFits(es, key);
    PositionFacts(Removed(es, key), key);
  }

  /** Deleting it and appending the new one. */
  lemma AppendFacts(size: nat, es: seq<Text>, name: Text, values: seq<Text>)
    requires ListOk(es) && ArgsOk(name, values) && values != []
    requires |Encode(Removed(es, KeyOf(name)) + [name + Joined(values)])| <= size
    ensures SetOk(size, es, Removed(es, KeyOf(name)) + [name + Joined(values)], true, name, values)
  {
    var key, rest, e := KeyOf(name), Removed(es, KeyOf(name)), name + Joined(values);
    RemovedFacts(es, key);
    EntryFacts(name, values);
    AppendedFacts(rest, e);
    OthersTwice(es, rest, rest + [e], key);
    KeyFacts(name);
  }

  lemma RemovedFits(es: seq<Text>, key: Text)
    requires forall i | 0 <= i < |es| :: EntryOk(es[i])
    ensures |Encode(Removed(es, key))| <= |Encode(es)|
  {
    FitsWithout(es, Position(es, key), Removed(es, key));
  }

  lemma FitsWithout(es: seq<Text>, i: nat, r: seq<Text>)
    requires forall i | 0 <= i < |es| :: EntryOk(es[i])
    requires r == if i < |es| then es[..i] + es[i + 1..] else es
    ensures |Encode(r)| <= |Encode(es)|
  {
    if i < |es| {
      NotEmpty(es[i]);
      WithoutShorter(es, i);
    }
  }

  lemma NotEmpty(e: Text)
    requires EntryOk(e)
    ensures e != []
  {
  }

  lemma WithoutShorter(es: seq<Text>, i: nat)
    requires i < |es| && es[i] != []
    ensures |Encode(es[..i] + es[i + 1..])| <= |Encode(es)|
  {
    SplitLength(es, i);
    StringsAppend(es[..i], es[i + 1..]);
    EncodeLength(es);
    EncodeLength(es[..i] + es[i + 1..]);
  }

  lemma SplitLength(es: seq<Text>, i: nat)
    requires i < |es|
    ensures |Strings(es)| == |Strings(es[..i])| + |es[i]| + 1 + |Strings(es[i + 1..])|
  {
    StringsSplit(es, i);
  }

  lemma EncodeLength(es: seq<Text>)
    ensures |Encode(es)| == if es == [] then 2 else |Strings(es)| + 1
  {
  }

  // ----- runs -----

  datatype Call = Call(name: Text, values: seq<Text>, allowed: bool)

  predicate CallsOk(calls: seq<Call>) { forall i | 0 <= i < |calls| :: ArgsOk(calls[i].name, calls[i].values) }

  /** The list after a run of setenv calls. */
  function Run(cfg: Config, size: nat, es: seq<Text>, calls: seq<Call>): (r: seq<Text>)
    requires ListOk(es) && CallsOk(calls)
    ensures ListOk(r)
    decreases |calls|
  {
    if calls == [] then es
    else
      var c := calls[0];
      SetFacts(cfg, size, es, c.name, c.values, c.allowed);
      Run(cfg, size, Set(cfg, size, es, c.name, c.values, c.allowed).0, calls[1..])
  }

  /** Call i of a run, in the list it meets. */
  function Meets(cfg: Config, size: nat, es: seq<Text>, calls: seq<Call>, i: nat): (r: seq<Text>)
    requires ListOk(es) && CallsOk(calls) && i <= |calls|
    ensures ListOk(r)
  {
    Run(cfg, size, es, calls[..i])
  }

  /** Call i of a run is refused. */
  predicate RefusedAt(cfg: Config, size: nat, es: seq<Text>, calls: seq<Call>, i: nat)
    requires ListOk(es) && CallsOk(calls) && i < |calls|
  {
    var c := calls[i];
    Refused(cfg, Meets(cfg, size, es, calls, i), c.name, c.values, c.allowed)
  }

  function Step(cfg: Config, size: nat, es: seq<Text>, c: Call): (seq<Text>, bool)
    requires ListOk(es)
  {
    Set(cfg, size, es, c.name, c.values, c.allowed)
  }

  /** One more call at the end of a run. */
  lemma {:induction false} RunNext(cfg: Config, size: nat, es: seq<Text>, calls: seq<Call>, c: Call)
    requires ListOk(es) && CallsOk(calls) && ArgsOk(c.name, c.values)
    ensures CallsOk(calls + [c])
    ensures Run(cfg, size, es, calls + [c]) == Step(cfg, size, Run(cfg, size, es, calls), c).0
    decreases |calls|
  {
    if calls == [] {
      assert calls + [c] == [c] && [c][1..] == [];
    } else {
      var d := calls[0];
      SetFacts(cfg, size, es, d.name, d.values, d.allowed);
      RunNext(cfg, size, Step(cfg, size, es, d).0, calls[1..], c);
      assert (calls + [c])[1..] == calls[1..] + [c] && (calls + [c])[0] == d;
    }
  }

  lemma MeetsNext(cfg: Config, size: nat, es: seq<Text>, calls: seq<Call>, i: nat)
    requires ListOk(es) && CallsOk(calls) && i < |calls|
    ensures Meets(cfg, size, es, calls, i + 1) == Step(cfg, size, Meets(cfg, size, es, calls, i), calls[i]).0
  {
    assert calls[..i + 1] == calls[..i] + [calls[i]];
    RunNext(cfg, size, es, calls[..i], calls[i]);
  }

  /** From call k to call n, calls for other variables and refused ones leave a variable alone. With k == 0: without
      a call for it that is not refused, a variable reads as it did before the run. */
  lemma {:induction false} RefusedKeep(cfg: Config, size: nat, es: seq<Text>, calls: seq<Call>, k: nat, n: nat,
                                       key: Text)
    requires ListOk(es) && CallsOk(calls) && k <= n <= |calls|
    requires forall i | k <= i < n && KeyOf(calls[i].name) == key :: RefusedAt(cfg, size, es, calls, i)
    ensures Lookup(Meets(cfg, size, es, calls, n), key) == Lookup(Meets(cfg, size, es, calls, k), key)
    decreases n - k
  {
    if k < n {
      RefusedKeep(cfg, size, es, calls, k, n - 1, key);
      MeetsNext(cfg, size, es, calls, n - 1);
      StepOnOthers(cfg, size, Meets(cfg, size, es, calls, n - 1), calls[n - 1], key);
    }
  }

  lemma StepOnOthers(cfg: Config, size: nat, es: seq<Text>, c: Call, key: Text)
    requires ListOk(es) && ArgsOk(c.name, c.values)
    requires KeyOf(c.name) == key ==> Refused(cfg, es, c.name, c.values, c.allowed)
    ensures var es' := Step(cfg, size, es, c).0; ListOk(es') && Lookup(es', key) == Lookup(es, key)
  {
    SetFacts(cfg, size, es, c.name, c.values, c.allowed);
  }

  /** The value that a set gives its variable. */
  function NewValue(name: Text, values: seq<Text>): (r: Text)
    requires ArgsOk(name, values) && values != []
    ensures EQUALS !in name ==> r == Joined(values)[1..]
  {
    EntryFacts(name, values);
    ValueOf(name + Joined(values))
  }

  /** What a call that is not refused leaves of its variable: the new value, or nothing after a deletion and for
      lack of room. */
  function Left(c: Call, ok: bool): Option<Text>
    requires ArgsOk(c.name, c.values)
  {
    if ok && c.values != [] then Some(NewValue(c.name, c.values)) else None
  }

  lemma StepOnOwn(cfg: Config, size: nat, es: seq<Text>, c: Call)
    requires ListOk(es) && ArgsOk(c.name, c.values) && !Refused(cfg, es, c.name, c.values, c.allowed)
    ensures var (es', ok) := Step(cfg, size, es, c); ListOk(es') && Lookup(es', KeyOf(c.name)) == Left(c, ok)
  {
    var rest := Removed(es, KeyOf(c.name));
    RemovedFacts(es, KeyOf(c.name));
    PositionFacts(rest, KeyOf(c.name));
    if c.values != [] {
      EntryFacts(c.name, c.values);
      AppendedFacts(rest, c.name + Joined(c.values));
    }
  }

  /** Over every run: the last call for a variable that is not refused decides how it reads afterwards. */
  lemma LastCallDecides(cfg: Config, size: nat, es: seq<Text>, calls: seq<Call>, k: nat)
    requires ListOk(es) && CallsOk(calls) && k < |calls| && !RefusedAt(cfg, size, es, calls, k)
    requires forall i | k < i < |calls| && KeyOf(calls[i].name) == KeyOf(calls[k].name) ::
               RefusedAt(cfg, size, es, calls, i)
    ensures Lookup(Run(cfg, size, es, calls), KeyOf(calls[k].name))
         == Left(calls[k], Step(cfg, size, Meets(cfg, size, es, calls, k), calls[k]).1)
  {
    StepOnOwn(cfg, size, Meets(cfg, size, es, calls, k), calls[k]);
    MeetsNext(cfg, size, es, calls, k);
    RefusedKeep(cfg, size, es, calls, k + 1, |calls|, KeyOf(calls[k].name));
    assert calls[..|calls|] == calls;
  }

  predicate Protects(cfg: Config, key: Text) {
    !cfg.overwrite && cfg.ethaddrOnce.None? && key in {SERIAL, ETHADDR}
  }

  /** A name that is another spelling of a variable: setenv looks for what stands before the '='. */
  predicate Alias(name: Text, key: Text) { EQUALS in name && KeyOf(name) == key }

  lemma SetKeepsProtected(cfg: Config, size: nat, es: seq<Text>, c: Call, key: Text)
    requires Protects(cfg, key) && ListOk(es) && ArgsOk(c.name, c.values) && Defined(es, key) && !Alias(c.name, key)
    ensures var es' := Set(cfg, size, es, c.name, c.values, c.allowed).0;
            ListOk(es') && Lookup(es', key) == Lookup(es, key)
  {
    SetFacts(cfg, size, es, c.name, c.values, c.allowed);
    KeyFacts(c.name);
  }

  /** Write-once variables: no run of calls changes or removes serial# or ethaddr, unless a name is an alias of it. */
  lemma {:induction false} WriteOnce(cfg: Config, size: nat, es: seq<Text>, calls: seq<Call>, key: Text)
    requires Protects(cfg, key) && ListOk(es) && CallsOk(calls) && Defined(es, key)
    requires forall i | 0 <= i < |calls| :: !Alias(calls[i].name, key)
    ensures Lookup(Run(cfg, size, es, calls), key) == Lookup(es, key)
    decreases |calls|
  {
    if calls != [] {
      var c := calls[0];
      SetKeepsProtected(cfg, size, es, c, key);
      WriteOnce(cfg, size, Set(cfg, size, es, c.name, c.values, c.allowed).0, calls[1..], key);
    }
  }

  /** An alias deletes a write-once variable like any other. */
  lemma AliasDeletes(cfg: Config, size: nat, es: seq<Text>, name: Text, allowed: bool, key: Text)
    requires ListOk(es) && Alias(name, key) && NUL !in name
    ensures Lookup(Run(cfg, size, es, [Call(name, [], allowed)]), key) == None
  {
    var c := Call(name, [], allowed);
    assert [c][1..] == [];
    NotSpecial(name);
    SetFacts(cfg, size, es, name, [], allowed);
  }

  lemma NotSpecial(name: Text)
    requires EQUALS in name
    ensures name !in {SERIAL, ETHADDR, STDIN, STDOUT, STDERR, BAUDRATE}
  {
  }

  /** The value of a variable survives a call. */
  ghost predicate Survives(cfg: Config, size: nat, es: seq<Text>, c: Call, key: Text) {
    ListOk(es) && Defined(es, key) && ArgsOk(c.name, c.values) ==>
      Lookup(Run(cfg, size, es, [c]), key) == Lookup(es, key)
  }

  /** A name is harmless for a write-once variable, in every environment and with every value, exactly if it is
      not an alias of it. */
  lemma WriteOnceIff(cfg: Config, size: nat, name: Text, key: Text)
    requires Protects(cfg, key) && NUL !in name
    ensures (forall es: seq<Text>, values: seq<Text>, allowed: bool ::
               Survives(cfg, size, es, Call(name, values, allowed), key))
            <==> !Alias(name, key)
  {
    if Alias(name, key) {
      var es := OneEntry(key);
      AliasDeletes(cfg, size, es, name, true, key);
      assert !Survives(cfg, size, es, Call(name, [], true), key);
    } else {
      forall es: seq<Text>, values: seq<Text>, allowed: bool
        ensures Survives(cfg, size, es, Call(name, values, allowed), key)
      {
        var c := Call(name, values, allowed);
        if ListOk(es) && Defined(es, key) && ArgsOk(name, values) { WriteOnce(cfg, size, es, [c], key); }
      }
    }
  }

  /** An environment that defines just one variable. */
  lemma OneEntry(key: Text) returns (es: seq<Text>)
    requires key in {SERIAL, ETHADDR}
    ensures ListOk(es) && Defined(es, key)
  {
    var e := key + [EQUALS];
    assert e[|key|] == EQUALS && e[..|key|] == key;
    KeyIs(e, |key|);
    es := [e];
    PositionUnique(es, 0);
  }
}
