/** The account registry of `main`: a map from account name to `Key`, loaded from
    `2fa.json` at start, changed by at most one command and rewritten in full
    after a command that changed it. Reading and writing the file, the JSON
    encoding, the clipboard and the printed messages are not modelled; a
    command reports instead whether the caller would rewrite the file. */
module Registry {
  import opened Bits
  import opened Otp

  /** How a command ended: `Done` changed the map; the other two left it alone. */
  datatype Status = Done | Duplicate | NotFound

  /** One line of `list`: the name, its current code and the seconds until the next code. */
  datatype Line = Line(name: string, code: string, nextIn: nat)

  /** `line` is what `list` prints for its name in `keys` at time `now`. */
  predicate Shows(base32: Base32Decode, hmacSha1: HmacSha1, keys: map<string, Key>, now: U64, line: Line)
  {
    && line.name in keys
    && CanTotp(base32, keys[line.name])
    && line.code == GetTotp(base32, hmacSha1, keys[line.name], now)
    && line.nextIn == SecondsRemaining(keys[line.name].period, now)
  }

  /** The line `list` prints for a name at one instant is determined by the name,
      and the wait it announces is between 1 and `period` seconds. */
  lemma ShowsDetermined(base32: Base32Decode, hmacSha1: HmacSha1, keys: map<string, Key>, now: U64, l1: Line, l2: Line)
    requires Shows(base32, hmacSha1, keys, now, l1) && Shows(base32, hmacSha1, keys, now, l2) && l1.name == l2.name
    ensures l1 == l2
    ensures l1.name in keys && 1 <= l1.nextIn <= keys[l1.name].period
  {
  }

  /** The names the lines are about. */
  function Names(lines: seq<Line>): set<string>
  {
    if lines == [] then {} else Names(lines[..|lines| - 1]) + {lines[|lines| - 1].name}
  }

  predicate DistinctNames(lines: seq<Line>)
  {
    forall i, j :: 0 <= i < j < |lines| ==> lines[i].name != lines[j].name
  }

  lemma {:induction false} NamesMember(lines: seq<Line>, n: string)
    ensures n in Names(lines) <==> exists i :: 0 <= i < |lines| && lines[i].name == n
  {
    if lines != [] {
      var init := lines[..|lines| - 1];
      NamesMember(init, n);
      if n in Names(init) {
        var i :| 0 <= i < |init| && init[i].name == n;
        assert lines[i].name == n;
      }
      if exists i :: 0 <= i < |lines| && lines[i].name == n {
        var i :| 0 <= i < |lines| && lines[i].name == n;
        if i < |init| {
          assert init[i].name == n;
        }
      }
    }
  }

  /** Lines about pairwise distinct names are about as many names as there are lines. */
  lemma {:induction false} NamesCount(lines: seq<Line>)
    requires DistinctNames(lines)
    ensures |Names(lines)| == |lines|
  {
    if lines != [] {
      var init, last := lines[..|lines| - 1], lines[|lines| - 1];
      NamesCount(init);
      NamesMember(init, last.name);
    }
  }

  lemma {:induction false} SubsetCount<T>(a: set<T>, b: set<T>)
    requires a <= b
    ensures |a| <= |b|
    ensures |a| == |b| ==> a == b
    decreases a
  {
    if a != {} {
      var x :| x in a;
      SubsetCount(a - {x}, b - {x});
    } else if b != {} {
      var y :| y in b;
      assert |b| >= 1 by {
        assert {y} <= b;
        assert |b - {y}| + 1 == |b|;
      }
    }
  }

  /** What `list` prints covers the registry: lines that each show a stored name,
      pairwise distinct and as many as there are entries, name every entry. */
  lemma ListCoversAll(lines: seq<Line>, keys: map<string, Key>)
    requires |lines| == |keys|
    requires forall i :: 0 <= i < |lines| ==> lines[i].name in keys
    requires DistinctNames(lines)
    ensures Names(lines) == keys.Keys
  {
    NamesCount(lines);
    forall n | n in Names(lines)
      ensures n in keys.Keys
    {
      NamesMember(lines, n);
    }
    assert |keys| == |keys.Keys|;
    SubsetCount(Names(lines), keys.Keys);
  }

  class Accounts {
    var keys: map<string, Key>

    /** The saved map, or the empty map when there is none (a missing or unreadable
        file, or JSON that does not parse: `unwrap_or_default`). */
    constructor Load(saved: Option<map<string, Key>>)
      ensures keys == if saved.Some? then saved.value else map[]
    {
      keys := if saved.Some? then saved.value else map[];
    }

    /** `add`: refuses a name that is already taken; otherwise stores the new key
        under it and nothing else changes. */
    method Add(name: string, secret: string, size: Byte, period: U64) returns (status: Status, persist: bool)
      modifies this
      ensures persist <==> status == Done
      ensures name in old(keys) ==> status == Duplicate && keys == old(keys)
      ensures name !in old(keys) ==> status == Done && keys == old(keys)[name := Key(secret, size, period)]
      ensures keys.Keys == old(keys).Keys + {name}
      ensures forall n :: n in old(keys) ==> n in keys && keys[n] == old(keys)[n]
    {
      if name in keys {
        return Duplicate, false;
      }
      keys := keys[name := Key(secret, size, period)];
      return Done, true;
    }

    /** `remove`: takes the name out of the map (a no-op when it is absent) and
        reports `NotFound` when nothing was there; no other entry changes. */
    method Remove(name: string) returns (status: Status, persist: bool)
      modifies this
      ensures persist <==> status == Done
      ensures name !in old(keys) ==> status == NotFound && keys == old(keys)
      ensures name in old(keys) ==> status == Done && keys == old(keys) - {name}
      ensures keys.Keys == old(keys).Keys - {name}
      ensures forall n :: n in keys ==> keys[n] == old(keys)[n]
    {
      var removed := if name in keys then Some(keys[name]) else None;
      keys := keys - {name};
      if removed.None? {
        assert keys == old(keys);
        return NotFound, false;
      }
      return Done, true;
    }

    /** `get`: the current code of the named key, or `None` when there is no such
        name. The map is only read. */
    method Get(base32: Base32Decode, hmacSha1: HmacSha1, name: string, now: U64) returns (code: Option<string>)
      requires name in keys ==> CanTotp(base32, keys[name])
      ensures code.Some? <==> name in keys
      ensures code.Some? ==> code.value == GetTotp(base32, hmacSha1, keys[name], now)
    {
      if name in keys {
        code := Some(GetTotp(base32, hmacSha1, keys[name], now));
      } else {
        code := None;
      }
    }

    /** `list`: one line per stored name, in no particular order, each with the
        key's current code and the seconds until its next code. */
    method List(base32: Base32Decode, hmacSha1: HmacSha1, now: U64) returns (lines: seq<Line>)
      requires forall n :: n in keys ==> CanTotp(base32, keys[n])
      ensures |lines| == |keys|
      ensures forall i :: 0 <= i < |lines| ==> Shows(base32, hmacSha1, keys, now, lines[i])
      ensures DistinctNames(lines)
      ensures Names(lines) == keys.Keys
    {
      lines := [];
      var rest := keys.Keys;
      while rest != {}
        invariant rest <= keys.Keys
        invariant |lines| + |rest| == |keys.Keys|
        invariant forall i :: 0 <= i < |lines| ==> Shows(base32, hmacSha1, keys, now, lines[i]) && lines[i].name !in rest
        invariant DistinctNames(lines)
        decreases rest
      {
        var name :| name in rest;
        var key := keys[name];
        var line := Line(name, GetTotp(base32, hmacSha1, key, now), SecondsRemaining(key.period, now));
        ListStep(base32, hmacSha1, keys, now, lines, rest, line);
        lines := lines + [line];
        rest := rest - {name};
      }
      assert |keys| == |keys.Keys|;
      ListCoversAll(lines, keys);
    }
  }

  /** One turn of the loop in `List`: appending the line of a name not yet
      listed keeps every line shown and every name distinct. */
  lemma ListStep(base32: Base32Decode, hmacSha1: HmacSha1, keys: map<string, Key>, now: U64,
                 lines: seq<Line>, rest: set<string>, line: Line)
    requires forall i :: 0 <= i < |lines| ==> Shows(base32, hmacSha1, keys, now, lines[i]) && lines[i].name !in rest
    requires DistinctNames(lines)
    requires line.name in rest && Shows(base32, hmacSha1, keys, now, line)
    ensures forall i :: 0 <= i < |lines| + 1 ==> Shows(base32, hmacSha1, keys, now, (lines + [line])[i]) && (lines + [line])[i].name !in rest - {line.name}
    ensures DistinctNames(lines + [line])
  {
  }

  /** Adding a name twice leaves the registry as the first `add` made it, and
      removing a name twice finds nothing the second time, so the four commands
      together restore the registry. */
  method AddTwiceRemoveTwice(accounts: Accounts, name: string, secret: string, other: string, size: Byte, period: U64)
    returns (first: Status, second: Status, third: Status, fourth: Status)
    requires name !in accounts.keys
    modifies accounts
    ensures first == Done && second == Duplicate && third == Done && fourth == NotFound
    ensures accounts.keys == old(accounts.keys)
  {
    var persist;
    first, persist := accounts.Add(name, secret, size, period);
    ghost var afterFirst := accounts.keys;
    second, persist := accounts.Add(name, other, size, period);
    assert accounts.keys == afterFirst;
    third, persist := accounts.Remove(name);
    fourth, persist := accounts.Remove(name);
  }
}
