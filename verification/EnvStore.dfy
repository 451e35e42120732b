/** The environment buffer as `_do_setenv` and `getenv` work on it: scans over NUL-terminated strings,
    deletion by shifting bytes down, insertion by appending at the double NUL. */
module EnvStore {
  import opened Bytes
  import opened Options
  import opened EnvList

  /** The byte of a C string at j: the terminator behind its end. */
  function CharAt(s: Text, j: nat): byte { if j < |s| then s[j] else NUL }

  class Environment {
    const data: array<byte>          // env_data, ENV_SIZE bytes
    const cfg: Config
    const cfgEnvSize: nat            // CFG_ENV_SIZE: the data and its header
    ghost var entries: seq<Text>

    ghost predicate Valid()
      reads this, data
    {
      && 2 <= data.Length <= cfgEnvSize
      && ListOk(entries)
      && Encode(entries) <= data[..]
    }

    /** An erased environment. */
    constructor (size: nat, cfg: Config, cfgEnvSize: nat)
      requires 2 <= size <= cfgEnvSize
      ensures Valid() && fresh(data) && data.Length == size && entries == []
    {
      data := new byte[size](_ => NUL);
      this.cfg, this.cfgEnvSize := cfg, cfgEnvSize;
      entries := [];
    }

    /** envmatch: the index of the value when the entry at i2 has the name looked for, else -1. */
    method EnvMatch(name: Text, i2: nat, ghost e: Text) returns (v: int)
      requires NUL !in name && EntryOk(e) && i2 + |e| < data.Length && data[i2..i2 + |e|] == e && data[i2 + |e|] == NUL
      ensures v == if KeyOf(name) == KeyOf(e) then i2 + |KeyOf(e)| + 1 else -1
    {
      var i, j := i2, 0;
      while CharAt(name, j) == data[i]
        invariant j <= |name| && j < |e| && i == i2 + j && EQUALS !in e[..j] && name[..j] == e[..j]
        decreases |e| - j
      {
        assert data[i] == data[i2..i2 + |e|][j] == e[j];
        assert e[j] in e;
        assert e[..j + 1] == e[..j] + [e[j]] && name[..j + 1] == name[..j] + [name[j]];
        if name[j] == EQUALS {
          KeyIs(name, j);
          KeyIs(e, j);
          return i + 1;
        }
        MoreToCome(e, j + 1);
        i, j := i + 1, j + 1;
      }
      assert data[i] == data[i2..i2 + |e|][j] == e[j];
      KeysMeet(name, e, j);
      if j == |name| && data[i] == EQUALS { return i + 1; }
      return -1;
    }

    /** The index of the terminator of the string at env. */
    method EndOf(env: nat, ghost e: Text) returns (nxt: nat)
      requires NUL !in e && env + |e| < data.Length && data[env..env + |e|] == e && data[env + |e|] == NUL
      ensures nxt == env + |e|
    {
      assert forall k | env <= k < env + |e| :: data[k] == e[k - env];
      nxt := env;
      while data[nxt] != NUL
        invariant env <= nxt <= env + |e|
        decreases env + |e| - nxt
      {
        nxt := nxt + 1;
      }
    }

    /** The scan over the strings, given where they begin. */
    method Scan(name: Text, ghost es: seq<Text>, ghost offs: seq<nat>)
        returns (found: bool, env: nat, nxt: nat, val: nat)
      requires NUL !in name && LaidOut(data[..], es, offs)
      ensures var i := Position(es, KeyOf(name));
              if i < |es| then found && env == offs[i] && nxt == env + |es[i]| && val == env + |KeyOf(name)| + 1
              else !found
    {
      env, nxt, val := 0, 0, 0;
      ghost var i := 0;
      assert data[..][offs[|es|]] == NUL;
      StartsNotNul(data[..], es, offs);
      while data[env] != NUL
        invariant i <= |es| && env == offs[i] < data.Length
        invariant forall k | 0 <= k < i :: KeyOf(es[k]) != KeyOf(name)
        decreases |es| - i
      {
        assert StringAt(data[..], es, offs, i);
        ghost var e := es[i];
        assert data[env..env + |e|] == data[..][env..env + |e|];
        nxt := EndOf(env, e);
        var v := EnvMatch(name, env, e);
        if v >= 0 {
          PositionIs(es, KeyOf(name), i);
          return true, env, nxt, v;
        }
        i := i + 1;
        env := nxt + 1;
      }
      PositionIs(es, KeyOf(name), i);
      return false, env, nxt, val;
    }

    /** Looks for a variable: its place, its end and its value, as _do_setenv does before deleting. */
    method Search(name: Text) returns (found: bool, env: nat, nxt: nat, val: nat)
      requires Valid() && NUL !in name
      ensures var i := Position(entries, KeyOf(name));
              if i < |entries|
              then found && env == Offset(entries, i) && nxt == env + |entries[i]| && val == env + |KeyOf(name)| + 1
              else !found
    {
      EncodedIsLaidOut(data[..], entries);
      PositionFacts(entries, KeyOf(name));
      found, env, nxt, val := Scan(name, entries, Offsets(entries));
    }

    // ----- deletion -----

    /** Shifts the strings behind nxt down to env, up to and including the double NUL. */
    method Shift(env0: nat, nxt0: nat, ghost tail: Text)
      requires env0 < nxt0 && nxt0 + |tail| < data.Length && Closed(tail)
      requires data[nxt0..nxt0 + |tail|] == tail && data[nxt0 + |tail|] == NUL
      modifies data
      ensures data[..] == Splice(old(data[..]), env0, tail + [NUL])
    {
      ghost var d := data[..];
      assert TailAt(d, nxt0, tail);
      var env, nxt := env0, nxt0;
      while true
        invariant env0 <= env < env0 + |tail| && nxt == nxt0 + (env - env0)
        invariant data[..] == Splice(d, env0, tail[..env - env0])
        decreases env0 + |tail| - env
      {
        var last := ShiftByte(env, nxt, d, env0, nxt0, tail, env - env0);
        nxt := nxt + 1;
        if last { break; }
        env := env + 1;
      }
      assert tail[..|tail|] == tail;
      env := env + 1;
      data[env] := NUL;
      SpliceMore(d, env0, tail, data[..]);
    }

    /** One byte of the shift; it is the last one if it and the next are NUL. */
    method ShiftByte(env: nat, nxt: nat, ghost d: Text, ghost env0: nat, ghost nxt0: nat, ghost tail: Text,
                     ghost k: nat)
      returns (last: bool)
      requires Closed(tail) && k < |tail| && env == env0 + k < nxt == nxt0 + k
      requires TailAt(d, nxt0, tail) && data.Length == |d|
      requires data[..] == Splice(d, env0, tail[..k])
      modifies data
      ensures data[..] == Splice(d, env0, tail[..k + 1])
      ensures last == (k + 1 == |tail|)
    {
      SpliceRest(d, env0, tail[..k], nxt);
      SpliceRest(d, env0, tail[..k], nxt + 1);
      TailBytes(d, nxt0, tail, k);
      assert data[nxt] == data[..][nxt] && data[nxt + 1] == data[..][nxt + 1];
      data[env] := data[nxt];
      SpliceNext(d, env0, tail, k, data[..]);
      last := data[env] == NUL && data[nxt + 1] == NUL;
    }

    /** Removes the bytes of entry i, which begins at env0 and ends at nxt0. */
    method Unlink(env0: nat, nxt0: nat, ghost es: seq<Text>, ghost i: nat)
      requires ListOk(es) && Encode(es) <= data[..] && i < |es| && env0 == Offset(es, i) && nxt0 == env0 + |es[i]|
      modifies data
      ensures Encode(es[..i] + es[i + 1..]) <= data[..]
    {
      DeletedBytes(data[..], es, i);
      var env, nxt := env0, nxt0 + 1;
      if data[nxt] == NUL {
        CutAt(env);
        LastDeleted(old(data[..]), data[..], es, i);
      } else {
        ghost var tail := Strings(es[i + 1..]);
        ShiftDown(env, nxt, tail, data[..]);
        ShiftedBytes(old(data[..]), es, i);
      }
    }

    method ShiftDown(env: nat, nxt: nat, ghost tail: Text, ghost d: Text)
      requires d == data[..] && env < nxt && Closed(tail) && TailAt(d, nxt, tail)
      modifies data
      ensures data[..] == Splice(d, env, tail + [NUL])
    {
      SameSlice(nxt, nxt + |tail|);
      Shift(env, nxt, tail);
    }

    /** Ends the list at an entry that was its last. */
    method CutAt(env0: nat)
      requires env0 + 1 < data.Length
      modifies data
      ensures data[env0] == NUL && (env0 == 0 ==> data[1] == NUL)
      ensures forall t | 0 <= t < env0 :: data[t] == old(data[t])
    {
      var env := env0;
      if env > 0 {
        env := env - 1;
      } else {
        data[env] := NUL;
      }
      data[env + 1] := NUL;
    }

    lemma SameSlice(lo: nat, hi: nat)
      requires lo <= hi <= data.Length
      ensures data[lo..hi] == data[..][lo..hi]
    {
    }

    method Delete(env: nat, nxt: nat, ghost i: nat)
      requires Valid() && i < |entries| && env == Offset(entries, i) && nxt == env + |entries[i]|
      modifies data, this`entries
      ensures Valid() && entries == old(entries[..i] + entries[i + 1..])
    {
      Unlink(env, nxt, entries, i);
      DistinctRest(entries, i);
      entries := entries[..i] + entries[i + 1..];
    }

    // ----- insertion -----

    /** Where the next entry goes: behind the NUL that ends the last one, or at the front. */
    method FindEnd(ghost strings: Text) returns (env: nat)
      requires strings == [] || (Closed(strings) && strings[0] != NUL)
      requires (if strings == [] then [NUL, NUL] else strings + [NUL]) <= data[..]
      ensures env == |strings|
    {
      env := 0;
      assert forall t | 0 <= t < |strings| :: data[t] == data[..][t] == strings[t];
      assert data[|strings|] == data[..][|strings|] == NUL;
      assert strings == [] ==> data[1] == data[..][1] == NUL;
      while data[env] != NUL || data[env + 1] != NUL
        invariant env <= |strings| && (strings != [] ==> env < |strings|)
        decreases |strings| - env
      {
        env := env + 1;
      }
      if env > 0 { env := env + 1; }
    }

    /** Copies a C string with its terminator; the result is the index of the terminator. */
    method CopyIn(env0: nat, s: Text) returns (env: nat)
      requires NUL !in s && env0 + |s| + 1 <= data.Length
      modifies data
      ensures env == env0 + |s| && data[..] == Splice(old(data[..]), env0, s + [NUL])
    {
      env := env0;
      while true
        invariant env0 <= env <= env0 + |s|
        invariant forall t | 0 <= t < data.Length :: data[t] == if env0 <= t < env then s[t - env0] else old(data[t])
        decreases env0 + |s| - env
      {
        data[env] := CharAt(s, env - env0);
        if data[env] == NUL { break; }
        env := env + 1;
      }
    }

    /** One value behind what is written already: the separator replaces the terminator. */
    method WriteValue(env0: nat, sep: byte, value: Text, ghost d: Text, ghost at: nat, ghost done: Text)
        returns (env: nat)
      requires NUL !in value && env0 == at + |done| && env0 + |value| + 2 <= data.Length == |d|
      requires data[..] == Splice(d, at, done + [NUL])
      modifies data
      ensures env == env0 + |value| + 1 && data[..] == Splice(d, at, done + [sep] + value + [NUL])
    {
      data[env0] := sep;
      assert data[..] == Splice(d, at, done + [sep]);
      env := CopyIn(env0 + 1, value);
      SpliceAgain(d, at, done + [sep], value + [NUL]);
      Associate(done + [sep], value, [NUL]);
    }

    /** The values, one after another. */
    method WriteValues(env0: nat, name: Text, values: seq<Text>, ghost d: Text, ghost at: nat) returns (env: nat)
      requires ArgsOk(name, values) && env0 == at + |name| && at + |name + Joined(values)| + 1 <= data.Length == |d|
      requires data[..] == Splice(d, at, name + [NUL])
      modifies data
      ensures env == at + |name + Joined(values)| && data[..] == Splice(d, at, name + Joined(values) + [NUL])
    {
      env := env0;
      var i := 0;
      JoinedLength(values, 0);
      assert values[..0] == [] && name + Joined([]) == name;
      while i < |values|
        invariant i <= |values| && env == at + |name + Joined(values[..i])|
        invariant |name + Joined(values[..i])| <= |name + Joined(values)|
        invariant data[..] == Splice(d, at, name + Joined(values[..i]) + [NUL])
      {
        JoinedLength(values, i + 1);
        JoinedStep(name, values, i);
        env := WriteValue(env, if i == 0 then EQUALS else BLANK, values[i], d, at, name + Joined(values[..i]));
        i := i + 1;
      }
      assert values[..i] == values;
    }

    /** Appends "name=value value ..." and the double NUL. */
    method Write(env0: nat, name: Text, values: seq<Text>)
      requires ArgsOk(name, values) && env0 + |name + Joined(values)| + 2 <= data.Length
      modifies data
      ensures data[..] == Splice(old(data[..]), env0, name + Joined(values) + [NUL, NUL])
    {
      ghost var d := data[..];
      ghost var entry := name + Joined(values);
      NameFits(name, values);
      var env := CopyIn(env0, name);
      env := WriteValues(env, name, values, d, env0);
      PutNul(env + 1, d, env0, entry + [NUL]);
      Associate(entry, [NUL], [NUL]);
      assert [NUL] + [NUL] == [NUL, NUL];
    }

    method PutNul(at: nat, ghost d: Text, ghost from: nat, ghost s: Text)
      requires at == from + |s| < data.Length == |d| && data[..] == Splice(d, from, s)
      modifies data
      ensures data[..] == Splice(d, from, s + [NUL])
    {
      ghost var before := data[..];
      data[at] := NUL;
      assert data[..] == before[at := NUL];
      SpliceMore(d, from, s, data[..]);
    }

    // ----- setenv and getenv -----

    /** The room an entry takes with its terminator and the final NUL. */
    method Room(name: Text, values: seq<Text>) returns (len: nat)
      ensures len == |name + Joined(values)| + 2
    {
      len := |name| + 2;
      var i := 0;
      assert values[..0] == [];
      while i < |values|
        invariant i <= |values| && len == |name| + |Joined(values[..i])| + 2
      {
        assert values[..i + 1][..i] == values[..i];
        len := len + |values[i]| + 1;
        i := i + 1;
      }
      assert values[..i] == values;
    }

    /** strcmp of the string at val with another. */
    method SameText(val: nat, ghost value: Text, s: Text) returns (same: bool)
      requires NUL !in value && val + |value| < data.Length
      requires data[val..val + |value|] == value && data[val + |value|] == NUL
      ensures same <==> value == s
    {
      assert forall k | 0 <= k < |value| :: data[val + k] == value[k];
      var j := 0;
      while j < |s| && data[val + j] == s[j] && data[val + j] != NUL
        invariant j <= |s| && j <= |value| && value[..j] == s[..j]
      {
        j := j + 1;
      }
      same := j == |s| && data[val + j] == NUL;
      assert j == |s| ==> s[..j] == s;
      assert j == |value| ==> value[..j] == value;
      assert value == s ==> j == |s|;
    }

    /** The write-once, console and baud rate guards on an existing variable. */
    method Permitted(name: Text, values: seq<Text>, allowed: bool, val: nat, ghost value: Text) returns (may: bool)
      requires NUL !in value && val + |value| < data.Length
      requires data[val..val + |value|] == value && data[val + |value|] == NUL
      ensures may == MayReplace(cfg, name, value, values, allowed)
    {
      if !cfg.overwrite {
        if name == SERIAL { return false; }
        if name == ETHADDR {
          if cfg.ethaddrOnce.None? { return false; }
          var same := SameText(val, value, cfg.ethaddrOnce.value);
          if !same { return false; }
        }
      }
      if name == STDIN || name == STDOUT || name == STDERR {
        if values == [] { return false; }
        if !allowed { return false; }
      }
      if name == BAUDRATE && !allowed { return false; }
      return true;
    }

    lemma ValueBytes(i: nat)
      requires Valid() && i < |entries|
      ensures var val, value := Offset(entries, i) + |KeyOf(entries[i])| + 1, ValueOf(entries[i]);
              && NUL !in value && val + |value| < data.Length
              && data[val..val + |value|] == value && data[val + |value|] == NUL
    {
      EncodedIsLaidOut(data[..], entries);
      assert StringAt(data[..], entries, Offsets(entries), i);
      var o, e := Offset(entries, i), entries[i];
      ValueAt(data[..], o, e);
      assert data[o + |KeyOf(e)| + 1..o + |e|] == data[..][o + |KeyOf(e)| + 1..o + |e|];
    }

    /** Appends a definition of a variable that is not in the list, if there is room. */
    method Append(name: Text, values: seq<Text>) returns (ok: bool)
      requires Valid() && ArgsOk(name, values) && values != [] && !Defined(entries, KeyOf(name))
      modifies data, this`entries
      ensures Valid()
      ensures ok <==> |Encode(old(entries) + [name + Joined(values)])| <= data.Length
      ensures entries == if ok then old(entries) + [name + Joined(values)] else old(entries)
    {
      ghost var es, e := entries, name + Joined(values);
      if es != [] { StringsClosed(es); }
      var env := FindEnd(Strings(es));
      var len := Room(name, values);
      AppendedBytes(data[..], es, e);
      if len > data.Length - env { return false; }
      Write(env, name, values);
      EntryFacts(name, values);
      AppendedFacts(es, e);
      entries := es + [e];
      return true;
    }

    /** _do_setenv. `allowed` is the answer of the console and baud rate code when a variable of theirs exists. */
    method SetEnv(name: Text, values: seq<Text>, allowed: bool) returns (ok: bool)
      requires Valid() && ArgsOk(name, values)
      modifies data, this`entries
      ensures Valid()
      ensures (entries, ok) == Set(cfg, data.Length, old(entries), name, values, allowed)
    {
      var may := Clear(name, values, allowed);
      if !may { return false; }
      if values == [] { return true; }
      ok := Append(name, values);
    }

    /** Looks for an old definition and deletes it, if it may go. */
    method Clear(name: Text, values: seq<Text>, allowed: bool) returns (may: bool)
      requires Valid() && ArgsOk(name, values)
      modifies data, this`entries
      ensures Valid()
      ensures may == !Refused(cfg, old(entries), name, values, allowed)
      ensures entries == if may then Removed(old(entries), KeyOf(name)) else old(entries)
      ensures may ==> !Defined(entries, KeyOf(name))
    {
      var found, env, nxt, val := Search(name);
      RemovedOk(entries, KeyOf(name));
      if !found { return true; }
      may := MayGo(name, values, allowed, val);
      if may { Delete(env, nxt, Position(entries, KeyOf(name))); }
    }

    /** The guards on the definition that was found. */
    method MayGo(name: Text, values: seq<Text>, allowed: bool, val: nat) returns (may: bool)
      requires Valid() && Defined(entries, KeyOf(name))
      requires val == Offset(entries, Position(entries, KeyOf(name))) + |KeyOf(name)| + 1
      ensures may == !Refused(cfg, entries, name, values, allowed)
    {
      ghost var i := Position(entries, KeyOf(name));
      PositionFacts(entries, KeyOf(name));
      ValueBytes(i);
      may := Permitted(name, values, allowed, val, ValueOf(entries[i]));
    }

    /** The value of a defined variable lies behind its name and '='. */
    lemma FoundValue(key: Text)
      requires Valid() && Defined(entries, key)
      ensures Lookup(entries, key).Some?
      ensures var i, value := Position(entries, key), Lookup(entries, key).value;
              var val := Offset(entries, i) + |key| + 1;
              && val + |value| < data.Length && data[val..val + |value|] == value && data[val + |value|] == NUL
              && Offset(entries, i) + |entries[i]| < data.Length
    {
      var i := Position(entries, key);
      PositionFacts(entries, key);
      ValueBytes(i);
      EncodedAt(entries, i);
    }

    /** getenv: where the value of a variable begins, if it has one. */
    method GetEnv(name: Text) returns (val: Option<nat>)
      requires Valid() && NUL !in name
      ensures match Lookup(entries, KeyOf(name))
              case None => val == None
              case Some(value) =>
                && val.Some? && val.value + |value| < data.Length
                && data[val.value..val.value + |value|] == value && data[val.value + |value|] == NUL
    {
      var found, env, nxt, v := Search(name);
      if !found { return None; }
      FoundValue(KeyOf(name));
      if nxt >= cfgEnvSize { return None; }
      return Some(v);
    }
  }

  /** `s` written into `d` at `at`. */
  function Splice(d: Text, at: nat, s: Text): Text
    requires at + |s| <= |d|
  {
    d[..at] + s + d[at + |s|..]
  }

  lemma SpliceAgain(d: Text, at: nat, s: Text, t: Text)
    requires at + |s| + |t| <= |d|
    ensures Splice(Splice(d, at, s), at + |s|, t) == Splice(d, at, s + t)
  {
  }

  /** Behind what was written nothing changed. */
  lemma SpliceRest(d: Text, at: nat, s: Text, x: nat)
    requires at + |s| <= x < |d|
    ensures Splice(d, at, s)[x] == d[x]
  {
  }

  ghost predicate TailAt(d: Text, at: nat, tail: Text) {
    at + |tail| < |d| && d[at..at + |tail|] == tail && d[at + |tail|] == NUL
  }

  /** Byte k of the tail and the one behind it: both NUL only at the end. */
  lemma TailBytes(d: Text, at: nat, tail: Text, k: nat)
    requires Closed(tail) && k < |tail| && TailAt(d, at, tail)
    ensures d[at + k] == tail[k]
    ensures d[at + k] == NUL && d[at + k + 1] == NUL <==> k + 1 == |tail|
  {
    assert d[at..at + |tail|][k] == d[at + k];
    assert k + 1 < |tail| ==> d[at..at + |tail|][k + 1] == d[at + k + 1];
  }

  lemma SpliceNext(d: Text, at: nat, s: Text, k: nat, d': Text)
    requires k < |s| && at + |s| <= |d| && d' == Splice(d, at, s[..k])[at + k := s[k]]
    ensures d' == Splice(d, at, s[..k + 1])
  {
  }

  lemma SpliceMore(d: Text, at: nat, s: Text, d': Text)
    requires at + |s| < |d| && d' == Splice(d, at, s)[at + |s| := NUL]
    ensures d' == Splice(d, at, s + [NUL])
  {
  }

  lemma NameFits(name: Text, values: seq<Text>)
    ensures |name| <= |name + Joined(values)|
  {
  }

  lemma JoinedStep(name: Text, values: seq<Text>, i: nat)
    requires i < |values|
    ensures name + Joined(values[..i + 1])
         == name + Joined(values[..i]) + [if i == 0 then EQUALS else BLANK] + values[i]
  {
    assert values[..i + 1][..i] == values[..i];
    Associate(name, Joined(values[..i]), [if i == 0 then EQUALS else BLANK]);
    Associate(name, Joined(values[..i]) + [if i == 0 then EQUALS else BLANK], values[i]);
  }

  lemma {:induction false} JoinedLength(values: seq<Text>, i: nat)
    requires i <= |values|
    ensures |Joined(values[..i])| <= |Joined(values)|
    decreases |values| - i
  {
    if i == |values| {
      assert values[..i] == values;
    } else {
      assert values[..i + 1][..i] == values[..i];
      JoinedLength(values, i + 1);
    }
  }

  /** A new entry, written at the end of the strings with its two NULs, extends the encoding. */
  lemma AppendedBytes(d: Text, es: seq<Text>, e: Text)
    requires Encode(es) <= d
    ensures |Encode(es + [e])| == |Strings(es)| + |e| + 2
    ensures |Strings(es)| + |e| + 2 <= |d| ==> Encode(es + [e]) <= Splice(d, |Strings(es)|, e + [NUL, NUL])
  {
    var front := Strings(es);
    assert (es + [e])[..|es|] == es;
    assert Strings(es + [e]) == front + e + [NUL];
    assert Encode(es + [e]) == front + (e + [NUL, NUL]);
    assert front <= Encode(es);
    assert d[..|front|] == front;
  }

  /** Strings, at least one, with no empty one among them. */
  ghost predicate Closed(s: Text) {
    && s != [] && s[|s| - 1] == NUL
    && forall k | 0 < k < |s| :: s[k - 1] == NUL ==> s[k] != NUL
  }

  lemma StringsClosed(es: seq<Text>)
    requires es != [] && forall i | 0 <= i < |es| :: EntryOk(es[i])
    ensures Closed(Strings(es)) && Strings(es)[0] != NUL
  {
    StringsStart(es);
    forall k | 0 < k < |Strings(es)| && Strings(es)[k - 1] == NUL ensures Strings(es)[k] != NUL { NoDoubleNul(es, k); }
  }

  lemma DistinctRest(es: seq<Text>, i: nat)
    requires ListOk(es) && i < |es|
    ensures ListOk(es[..i] + es[i + 1..])
  {
    var r := es[..i] + es[i + 1..];
    assert forall j | 0 <= j < |r| :: r[j] == if j < i then es[j] else es[j + 1];
  }

  /** What lies behind entry i: the strings of the later entries and the terminator. */
  lemma BytesBehind(d: Text, es: seq<Text>, i: nat)
    requires Encode(es) <= d && i < |es|
    ensures var nxt, tail := Offset(es, i) + |es[i]| + 1, Strings(es[i + 1..]);
            nxt + |tail| < |d| && d[nxt..nxt + |tail|] == tail && d[nxt + |tail|] == NUL
  {
    var nxt, tail := Offset(es, i) + |es[i]| + 1, Strings(es[i + 1..]);
    StringsSplit(es, i);
    var c := Strings(es[..i]) + (es[i] + [NUL]) + tail + [NUL];
    assert c == Encode(es);
    assert c[nxt..nxt + |tail|] == tail;
    SlicePrefix(c, d, nxt, nxt + |tail|);
  }

  /** The byte behind entry i tells whether it is the last one. */
  lemma DeletedBytes(d: Text, es: seq<Text>, i: nat)
    requires ListOk(es) && Encode(es) <= d && i < |es|
    ensures var nxt, tail := Offset(es, i) + |es[i]| + 1, Strings(es[i + 1..]);
            && nxt + |tail| < |d| && d[nxt..nxt + |tail|] == tail && d[nxt + |tail|] == NUL
            && (d[nxt] == NUL <==> i + 1 == |es|)
            && (i + 1 < |es| ==> Closed(tail))
            && (i > 0 ==> Offset(es, i) > 0) && (i == 0 ==> Offset(es, i) == 0)
  {
    var nxt, tail := Offset(es, i) + |es[i]| + 1, Strings(es[i + 1..]);
    BytesBehind(d, es, i);
    if i + 1 < |es| {
      StringsClosed(es[i + 1..]);
      assert d[nxt] == d[nxt..nxt + |tail|][0];
    } else {
      assert es[i + 1..] == [];
    }
    if i > 0 { StringsClosed(es[..i]); }
  }

  lemma ShiftedBytes(d: Text, es: seq<Text>, i: nat)
    requires ListOk(es) && Encode(es) <= d && i + 1 < |es|
    requires Offset(es, i) + |Strings(es[i + 1..])| + 1 <= |d|
    ensures Encode(es[..i] + es[i + 1..]) <= Splice(d, Offset(es, i), Strings(es[i + 1..]) + [NUL])
  {
    StringsAppend(es[..i], es[i + 1..]);
    StringsSplit(es, i);
    var front, tail := Strings(es[..i]), Strings(es[i + 1..]);
    Associate(front, es[i] + [NUL], tail);
    Associate(front, (es[i] + [NUL]) + tail, [NUL]);
    SpliceBehind(d, front, (es[i] + [NUL]) + tail + [NUL], tail + [NUL]);
    Associate(front, tail, [NUL]);
  }

  /** Writing behind a front that the buffer begins with. */
  lemma SpliceBehind(d: Text, front: Text, back: Text, s: Text)
    requires front + back <= d && |front| + |s| <= |d|
    ensures front + s <= Splice(d, |front|, s)
  {
    assert d[..|front|] == (front + back)[..|front|] == front;
  }

  lemma LastDeleted(d: Text, d': Text, es: seq<Text>, i: nat)
    requires ListOk(es) && Encode(es) <= d && i + 1 == |es| && |d'| == |d|
    requires var o := Offset(es, i); o + 1 < |d| && d'[o] == NUL && (o == 0 ==> d'[1] == NUL)
    requires forall t | 0 <= t < Offset(es, i) :: d'[t] == d[t]
    ensures Encode(es[..i] + es[i + 1..]) <= d'
  {
    assert es[..i] + es[i + 1..] == es[..i];
    if i > 0 {
      var front, back := Strings(es[..i]), es[i] + [NUL];
      assert Strings(es) == front + es[i] + [NUL] by { assert es[..|es| - 1] == es[..i]; }
      Associate(front, es[i], [NUL]);
      Associate(front, back, [NUL]);
      FrontKept(d, d', front, back + [NUL]);
    } else {
      assert d'[..2] == [NUL, NUL];
    }
  }

  lemma FrontKept(d: Text, d': Text, front: Text, back: Text)
    requires front + back <= d && |d'| == |d| > |front| && d'[|front|] == NUL
    requires forall t | 0 <= t < |front| :: d'[t] == d[t]
    ensures front + [NUL] <= d'
  {
    assert forall t | 0 <= t < |front| :: d[t] == (front + back)[t] == front[t];
  }

  /** Entry i lies at offs[i], and the next one right behind it. */
  ghost predicate StringAt(d: Text, es: seq<Text>, offs: seq<nat>, i: nat)
    requires i < |es| && |offs| == |es| + 1
  {
    var o, e := offs[i], es[i];
    && EntryOk(e) && o + |e| + 1 < |d| && d[o..o + |e|] == e && d[o + |e|] == NUL && d[o] != NUL
    && offs[i + 1] == o + |e| + 1
  }

  ghost predicate LaidOut(d: Text, es: seq<Text>, offs: seq<nat>) {
    && |offs| == |es| + 1 && offs[0] == 0
    && (forall i | 0 <= i < |es| :: StringAt(d, es, offs, i))
    && offs[|es|] < |d| && d[offs[|es|]] == NUL
  }

  /** Where an entry stands, its value ends with it. */
  lemma ValueAt(d: Text, o: nat, e: Text)
    requires EntryOk(e) && o + |e| <= |d| && d[o..o + |e|] == e
    ensures |KeyOf(e)| < |e| && NUL !in ValueOf(e) && |KeyOf(e)| + 1 + |ValueOf(e)| == |e|
    ensures d[o + |KeyOf(e)| + 1..o + |e|] == ValueOf(e)
  {
    KeyFacts(e);
    var k := |KeyOf(e)| + 1;
    assert d[o..o + |e|][k..] == d[o + k..o + |e|];
  }

  lemma StartsNotNul(d: Text, es: seq<Text>, offs: seq<nat>)
    requires LaidOut(d, es, offs)
    ensures forall i | 0 <= i < |es| :: offs[i] < |d| && d[offs[i]] != NUL
  {
    forall i | 0 <= i < |es| ensures offs[i] < |d| && d[offs[i]] != NUL { assert StringAt(d, es, offs, i); }
  }

  ghost function Offsets(es: seq<Text>): (offs: seq<nat>)
    ensures |offs| == |es| + 1 && forall i | 0 <= i <= |es| :: offs[i] == Offset(es, i)
  {
    seq(|es| + 1, i requires 0 <= i <= |es| => Offset(es, i))
  }

  lemma EncodedIsLaidOut(d: Text, es: seq<Text>)
    requires (forall i | 0 <= i < |es| :: EntryOk(es[i])) && Encode(es) <= d
    ensures LaidOut(d, es, Offsets(es))
  {
    var c := Encode(es);
    forall i | 0 <= i < |es| ensures StringAt(d, es, Offsets(es), i) {
      EncodedAt(es, i);
      SlicePrefix(c, d, Offset(es, i), Offset(es, i) + |es[i]|);
      assert es[i][0] in es[i] && c[Offset(es, i)] == c[Offset(es, i)..Offset(es, i) + |es[i]|][0];
    }
    EncodedEnd(es);
    assert es[..0] == [];
  }

  lemma SlicePrefix(c: Text, d: Text, lo: nat, hi: nat)
    requires c <= d && lo <= hi <= |c|
    ensures d[lo..hi] == c[lo..hi]
  {
  }

  lemma PositionIs(es: seq<Text>, key: Text, i: nat)
    requires i <= |es| && (i < |es| ==> KeyOf(es[i]) == key) && forall k | 0 <= k < i :: KeyOf(es[k]) != key
    ensures Position(es, key) == i
  {
    PositionFacts(es, key);
  }

  lemma MoreToCome(e: Text, j: nat)
    requires EQUALS in e && j <= |e| && EQUALS !in e[..j]
    ensures j < |e|
  {
    assert e[..|e|] == e;
  }

  /** Where name and entry part, after a common prefix without '=': the keys agree only if the name ends
      where the entry has its '='. */
  lemma KeysMeet(name: Text, e: Text, j: nat)
    requires EntryOk(e) && NUL !in name && j <= |name| && j < |e| && EQUALS !in e[..j] && name[..j] == e[..j]
    requires CharAt(name, j) != e[j]
    ensures KeyOf(name) == KeyOf(e) <==> j == |name| && e[j] == EQUALS
    ensures KeyOf(name) == KeyOf(e) ==> |KeyOf(e)| == j
  {
    KeyFacts(name);
    KeyFacts(e);
    assert forall i | 0 <= i < j :: e[..j][i] == e[i] && name[..j][i] == name[i];
    assert |KeyOf(e)| >= j && |KeyOf(name)| >= j;
    assert |KeyOf(e)| > j ==> KeyOf(e)[j] == e[j];
    assert |KeyOf(name)| > j ==> KeyOf(name)[j] == name[j];
    if j == |name| && e[j] == EQUALS {
      KeyIs(name, j);
      KeyIs(e, j);
    }
  }
}
