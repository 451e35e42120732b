/** Which calls of setenv are refused, by the names as they are typed, and what the others do. */
module EnvGuards {
  import opened Options
  import opened EnvList

  /** A name as octets. */
  function Ascii(s: string): (r: Text)
    requires forall i | 0 <= i < |s| :: s[i] as int < 128
    ensures |r| == |s| && forall i | 0 <= i < |s| :: r[i] == s[i] as int
  {
    seq(|s|, i requires 0 <= i < |s| => s[i] as int)
  }

  /** The names that are spelled out in the source. */
  lemma Names()
    ensures SERIAL == Ascii("serial#") && ETHADDR == Ascii("ethaddr") && BAUDRATE == Ascii("baudrate")
    ensures STDIN == Ascii("stdin") && STDOUT == Ascii("stdout") && STDERR == Ascii("stderr")
  {
  }

  /** The names with a guard; every other variable can be set and deleted at will. */
  predicate Guarded(name: Text) { name in {SERIAL, ETHADDR, STDIN, STDOUT, STDERR, BAUDRATE} }

  lemma OrdinaryNotRefused(cfg: Config, es: seq<Text>, name: Text, values: seq<Text>, allowed: bool)
    requires ListOk(es) && !Guarded(name)
    ensures !Refused(cfg, es, name, values, allowed)
  {
  }

  /** Nor is a variable refused that is not defined yet. */
  lemma NewNotRefused(cfg: Config, es: seq<Text>, name: Text, values: seq<Text>, allowed: bool)
    requires ListOk(es) && Lookup(es, KeyOf(name)).None?
    ensures !Refused(cfg, es, name, values, allowed)
  {
  }

  // ----- the guard of each guarded name, once it is defined -----

  lemma GuardedKey(name: Text)
    requires Guarded(name)
    ensures KeyOf(name) == name && EQUALS !in name && NUL !in name
  {
    GuardedPlain(name);
    PlainKey(name);
  }

  lemma GuardedPlain(name: Text)
    requires Guarded(name)
    ensures EQUALS !in name && NUL !in name
  {
  }

  lemma PlainKey(name: Text)
    requires EQUALS !in name
    ensures KeyOf(name) == name
  {
    KeyFacts(name);
  }

  lemma SerialIff(cfg: Config, es: seq<Text>, values: seq<Text>, allowed: bool)
    requires ListOk(es) && Lookup(es, SERIAL).Some?
    ensures Refused(cfg, es, SERIAL, values, allowed) <==> !cfg.overwrite
  {
    GuardedKey(SERIAL);
    assert SERIAL !in {STDIN, STDOUT, STDERR, BAUDRATE, ETHADDR};
  }

  lemma EthaddrIff(cfg: Config, es: seq<Text>, values: seq<Text>, allowed: bool)
    requires ListOk(es) && Lookup(es, ETHADDR).Some?
    ensures Refused(cfg, es, ETHADDR, values, allowed) <==> !cfg.overwrite && Lookup(es, ETHADDR) != cfg.ethaddrOnce
  {
    GuardedKey(ETHADDR);
    assert ETHADDR !in {STDIN, STDOUT, STDERR, BAUDRATE, SERIAL};
  }

  lemma ConsoleIff(cfg: Config, es: seq<Text>, name: Text, values: seq<Text>, allowed: bool)
    requires ListOk(es) && Lookup(es, name).Some? && name in {STDIN, STDOUT, STDERR}
    ensures Refused(cfg, es, name, values, allowed) <==> values == [] || !allowed
  {
    GuardedKey(name);
    assert name !in {SERIAL, ETHADDR, BAUDRATE};
  }

  lemma BaudrateIff(cfg: Config, es: seq<Text>, values: seq<Text>, allowed: bool)
    requires ListOk(es) && Lookup(es, BAUDRATE).Some?
    ensures Refused(cfg, es, BAUDRATE, values, allowed) <==> !allowed
  {
    GuardedKey(BAUDRATE);
    assert BAUDRATE !in {STDIN, STDOUT, STDERR, SERIAL, ETHADDR};
  }

  // ----- values -----

  /** The values joined by single blanks. */
  function Spaced(values: seq<Text>): Text {
    if values == [] then [] else if |values| == 1 then values[0]
    else Spaced(values[..|values| - 1]) + [0x20] + values[|values| - 1]
  }

  lemma {:induction false} JoinedIs(values: seq<Text>)
    requires values != []
    ensures Joined(values) == [0x3D] + Spaced(values)
  {
    var front, last := values[..|values| - 1], values[|values| - 1];
    if |values| == 1 {
      assert front == [] && [] + [0x3D] == [0x3D];
    } else {
      JoinedIs(front);
      assert [0x3D] + Spaced(front) + [0x20] + last == [0x3D] + (Spaced(front) + [0x20] + last);
    }
  }

  /** The octets of all definitions, each with its NUL. */
  function Room(es: seq<Text>): nat { if es == [] then 0 else Room(es[..|es| - 1]) + |es[|es| - 1]| + 1 }

  lemma {:induction false} StringsLength(es: seq<Text>)
    ensures |Strings(es)| == Room(es)
  {
    if es != [] { StringsLength(es[..|es| - 1]); }
  }

  /** Setting a variable that is not refused: if the definitions fit the buffer it succeeds and reads as the values
      joined by blanks; if they do not, it fails and the variable is gone. Every other one stays. */
  lemma SetIff(cfg: Config, size: nat, es: seq<Text>, name: Text, values: seq<Text>, allowed: bool)
    requires ListOk(es) && ArgsOk(name, values) && EQUALS !in name && values != []
    requires !Refused(cfg, es, name, values, allowed)
    ensures var (es', ok) := Set(cfg, size, es, name, values, allowed);
            && ListOk(es') && OthersSame(es, es', name)
            && (ok <==> Room(Removed(es, name)) + |name| + 1 + |Spaced(values)| + 2 <= size)
            && Lookup(es', name) == if ok then Some(Spaced(values)) else None
  {
    KeyFacts(name);
    assert KeyOf(name) == name;
    SetFacts(cfg, size, es, name, values, allowed);
    StepOnOwn(cfg, size, es, Call(name, values, allowed));
    JoinedIs(values);
    NewLength(Removed(es, name), name + Joined(values));
  }

  /** So it is with every ordinary variable, whatever the configuration. */
  lemma OrdinarySet(cfg: Config, size: nat, es: seq<Text>, name: Text, values: seq<Text>, allowed: bool)
    requires ListOk(es) && ArgsOk(name, values) && !Guarded(name) && EQUALS !in name && values != []
    ensures var (es', ok) := Set(cfg, size, es, name, values, allowed);
            && ListOk(es') && OthersSame(es, es', name)
            && (ok <==> Room(Removed(es, name)) + |name| + 1 + |Spaced(values)| + 2 <= size)
            && Lookup(es', name) == if ok then Some(Spaced(values)) else None
  {
    OrdinaryNotRefused(cfg, es, name, values, allowed);
    SetIff(cfg, size, es, name, values, allowed);
  }

  lemma NewLength(rest: seq<Text>, e: Text)
    ensures |Encode(rest + [e])| == Room(rest) + |e| + 2
  {
    StringsAppend(rest, [e]);
    StringsOne(e);
    StringsLength(rest);
  }

  /** Deleting an ordinary variable always succeeds. */
  lemma OrdinaryDelete(cfg: Config, size: nat, es: seq<Text>, name: Text, allowed: bool)
    requires ListOk(es) && NUL !in name && !Guarded(name) && EQUALS !in name
    ensures var (es', ok) := Set(cfg, size, es, name, [], allowed);
            ok && ListOk(es') && OthersSame(es, es', name) && Lookup(es', name) == None
  {
    KeyFacts(name);
    assert KeyOf(name) == name;
    OrdinaryNotRefused(cfg, es, name, [], allowed);
    SetFacts(cfg, size, es, name, [], allowed);
  }

  // ----- once only -----

  /** ethaddr with a default: while it reads as the default it can be replaced. */
  lemma DefaultReplaced(cfg: Config, size: nat, es: seq<Text>, values: seq<Text>, allowed: bool)
    requires ListOk(es) && ArgsOk(ETHADDR, values) && values != []
    requires cfg.ethaddrOnce.Some? && Lookup(es, ETHADDR) == cfg.ethaddrOnce
    requires Room(Removed(es, ETHADDR)) + 8 + |Spaced(values)| + 2 <= size
    ensures var (es', ok) := Set(cfg, size, es, ETHADDR, values, allowed);
            ok && ListOk(es') && Lookup(es', ETHADDR) == Some(Spaced(values))
  {
    EthaddrIff(cfg, es, values, allowed);
    GuardedKey(ETHADDR);
    SetIff(cfg, size, es, ETHADDR, values, allowed);
  }

  /** Once it reads as anything else, no run of calls changes or removes it, unless a name is an alias of it. */
  lemma {:induction false} ReplacedOnce(cfg: Config, size: nat, es: seq<Text>, calls: seq<Call>)
    requires ListOk(es) && CallsOk(calls) && !cfg.overwrite
    requires Lookup(es, ETHADDR).Some? && Lookup(es, ETHADDR) != cfg.ethaddrOnce
    requires forall i | 0 <= i < |calls| :: !Alias(calls[i].name, ETHADDR)
    ensures Lookup(Run(cfg, size, es, calls), ETHADDR) == Lookup(es, ETHADDR)
    decreases |calls|
  {
    if calls != [] {
      var c := calls[0];
      KeyFacts(c.name);
      if KeyOf(c.name) == ETHADDR { EthaddrRefused(cfg, es, c); }
      StepOnOthers(cfg, size, es, c, ETHADDR);
      ReplacedOnce(cfg, size, Step(cfg, size, es, c).0, calls[1..]);
    }
  }

  lemma EthaddrRefused(cfg: Config, es: seq<Text>, c: Call)
    requires ListOk(es) && !cfg.overwrite && Lookup(es, ETHADDR).Some? && Lookup(es, ETHADDR) != cfg.ethaddrOnce
    requires KeyOf(c.name) == ETHADDR && !Alias(c.name, ETHADDR)
    ensures Refused(cfg, es, c.name, c.values, c.allowed)
  {
    KeyFacts(c.name);
    assert c.name == ETHADDR;
    EthaddrIff(cfg, es, c.values, c.allowed);
  }
}
