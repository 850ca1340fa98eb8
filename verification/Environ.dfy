/** Two implementations of unsetenv over a NULL-terminated array of "name=value" strings: one pass
    with two pointers, and repeated shifting to the left. */
module Environ {
  import opened Common

  type Slot = Option<string>

  // ---------- The environment that an array stands for ----------

  /** The entries in front of the first NULL. */
  function Live(s: seq<Slot>): seq<string>
  {
    if s == [] || s[0].None? then [] else [s[0].value] + Live(s[1..])
  }

  /** The first NULL is at n. */
  ghost predicate EndsAt(s: seq<Slot>, n: nat)
  {
    n < |s| && s[n].None? && forall k :: 0 <= k < n ==> s[k].Some?
  }

  lemma {:induction false} LiveUpTo(s: seq<Slot>, n: nat)
    requires EndsAt(s, n)
    ensures |Live(s)| == n && forall k :: 0 <= k < n ==> Live(s)[k] == s[k].value
    decreases n
  {
    if n > 0 {
      LiveUpTo(s[1..], n - 1);
    }
  }

  lemma {:induction false} EndExists(s: seq<Slot>) returns (n: nat)
    requires None in s
    ensures EndsAt(s, n)
  {
    if s[0].None? {
      n := 0;
    } else {
      n := EndExists(s[1..]);
      n := n + 1;
    }
  }

  /** An entry of the variable: its text up to the first '=' is the name. */
  predicate Sets(entry: string, name: string)
  {
    name + "=" <= entry
  }

  /** The environment without a variable, in the same order. */
  function Removed(env: seq<string>, name: string): seq<string>
  {
    if env == [] then [] else (if Sets(env[0], name) then [] else [env[0]]) + Removed(env[1..], name)
  }

  /** The entry is longer than the name, agrees with it, and goes on with '='. */
  lemma SetsExactly(entry: string, name: string)
    ensures Sets(entry, name) <==>
      |name| < |entry| && (forall i :: 0 <= i < |name| ==> entry[i] == name[i]) && entry[|name|] == '='
  {
    if |name| < |entry| {
      assert entry[..|name| + 1] == entry[..|name|] + [entry[|name|]];
      if forall i :: 0 <= i < |name| ==> entry[i] == name[i] {
        assert entry[..|name|] == name;
      }
    }
    if Sets(entry, name) {
      assert entry[|name|] == (name + "=")[|name|];
      forall i | 0 <= i < |name| ensures entry[i] == name[i] {
        assert entry[i] == (name + "=")[i];
      }
    }
  }

  predicate BadName(name: Option<string>)
  {
    name.None? || name.value == "" || '=' in name.value
  }

  /** No name, an empty one, and one with a '=' somewhere in it are refused, and no other. */
  lemma BadNameExactly(name: Option<string>)
    ensures BadName(name) <==>
      || name == None || |name.value| == 0
      || exists i :: 0 <= i < |name.value| && name.value[i] == '='
  {
  }

  /** strncmp(entry, name, strlen(name)) == 0 && entry[strlen(name)] == '=' */
  method Matches(entry: string, name: string) returns (r: bool)
    ensures r <==> Sets(entry, name)
  {
    var i := 0;
    while i < |name| && i < |entry| && entry[i] == name[i]
      invariant i <= |name| && i <= |entry| && entry[..i] == name[..i]
    {
      i := i + 1;
    }
    r := i == |name| && i < |entry| && entry[i] == '=';
    if r {
      assert entry[..i + 1] == entry[..i] + "=";
    } else {
      NotSet(entry, name, i);
    }
  }

  lemma NotSet(entry: string, name: string, i: nat)
    requires i <= |name| && i <= |entry|
    requires i == |entry| || (i < |name| && entry[i] != name[i]) || (i == |name| && entry[i] != '=')
    ensures !Sets(entry, name)
  {
    assert i < |name| ==> (name + "=")[i] == name[i];
    assert (name + "=")[|name|] == '=';
  }

  // ---------- compat/stdlib/setenv.c ----------

  /** What has been written so far is kept; what is still to be read is as at the start. */
  ghost predicate Compacting(start: seq<Slot>, cur: seq<Slot>, kept: seq<string>, e: nat, name: string)
  {
    && |kept| <= e <= |cur| == |start|
    && cur[e..] == start[e..]
    && (forall k :: 0 <= k < |kept| ==> cur[k] == Some(kept[k]))
    && kept + Removed(Live(start[e..]), name) == Removed(Live(start), name)
  }

  lemma LiveStep(s: seq<Slot>, e: nat)
    requires e < |s| && s[e].Some?
    ensures Live(s[e..]) == [s[e].value] + Live(s[e + 1..])
  {
    assert s[e..][1..] == s[e + 1..];
  }

  lemma RemovedStep(entry: string, rest: seq<string>, name: string)
    ensures Removed([entry] + rest, name) == (if Sets(entry, name) then [] else [entry]) + Removed(rest, name)
  {
    assert ([entry] + rest)[1..] == rest;
  }

  lemma ReadStart(start: seq<Slot>, cur: seq<Slot>, kept: seq<string>, e: nat, name: string)
    requires Compacting(start, cur, kept, e, name) && e < |cur|
    ensures cur[e] == start[e]
  {
    assert cur[e] == cur[e..][0] && start[e] == start[e..][0];
  }

  lemma Skip(start: seq<Slot>, cur: seq<Slot>, kept: seq<string>, e: nat, name: string)
    requires Compacting(start, cur, kept, e, name) && e < |cur| && cur[e].Some? && Sets(cur[e].value, name)
    ensures Compacting(start, cur, kept, e + 1, name)
  {
    hide Live, Removed, Sets;
    ReadStart(start, cur, kept, e, name);
    LiveStep(start, e);
    RemovedStep(cur[e].value, Live(start[e + 1..]), name);
    assert [] + Removed(Live(start[e + 1..]), name) == Removed(Live(start[e + 1..]), name);
    assert cur[e + 1..] == cur[e..][1..] && start[e + 1..] == start[e..][1..];
  }

  lemma Keep(start: seq<Slot>, cur: seq<Slot>, kept: seq<string>, e: nat, name: string)
    requires Compacting(start, cur, kept, e, name) && e < |cur| && cur[e].Some? && !Sets(cur[e].value, name)
    ensures Compacting(start, cur[|kept| := cur[e]], kept + [cur[e].value], e + 1, name)
  {
    hide Live, Removed, Sets;
    ReadStart(start, cur, kept, e, name);
    LiveStep(start, e);
    RemovedStep(cur[e].value, Live(start[e + 1..]), name);
    var x, rest := [cur[e].value], Removed(Live(start[e + 1..]), name);
    assert kept + (x + rest) == kept + x + rest;
    assert cur[|kept| := cur[e]][e + 1..] == cur[e..][1..] && start[e + 1..] == start[e..][1..];
  }

  lemma Compacted(start: seq<Slot>, cur: seq<Slot>, kept: seq<string>, e: nat, name: string)
    requires Compacting(start, cur, kept, e, name) && e < |cur| && cur[e].None?
    ensures EndsAt(cur[|kept| := None], |kept|) && Live(cur[|kept| := None]) == Removed(Live(start), name)
  {
    ReadStart(start, cur, kept, e, name);
    assert Live(start[e..]) == [];
    assert kept + [] == kept;
    var last := cur[|kept| := None];
    hide Live, Removed;
    LiveUpTo(last, |kept|);
    assert Live(last) == kept;
  }

  method UnsetOnePass(environ: array?<Slot>, name: Option<string>) returns (r: int)
    requires environ != null ==> None in environ[..]
    modifies environ
    ensures r == if BadName(name) then -1 else 0
    ensures environ != null && BadName(name) ==> environ[..] == old(environ[..])
    ensures environ != null && !BadName(name) ==> None in environ[..]
    ensures environ != null && !BadName(name) ==> Live(environ[..]) == Removed(Live(old(environ[..])), name.value)
  {
    hide Live, Removed, Compacting, Sets;
    if name.None? || name.value == "" || '=' in name.value {
      return -1;
    }
    if environ == null {
      return 0;
    }
    ghost var start := environ[..];
    ghost var n := EndExists(start);
    ghost var kept: seq<string> := [];
    Begin(start, name.value);
    var d, e := 0, 0;
    while environ[e].Some?
      invariant d == |kept| <= e <= n && Compacting(start, environ[..], kept, e, name.value)
      decreases n - e
    {
      ghost var cur := environ[..];
      ReadStart(start, cur, kept, e, name.value);
      var found := Matches(environ[e].value, name.value);
      if found {
        Skip(start, cur, kept, e, name.value);
      } else {
        Keep(start, cur, kept, e, name.value);
        kept := kept + [environ[e].value];
        environ[d] := environ[e];
        assert environ[..] == cur[d := cur[e]];
        d := d + 1;
      }
      e := e + 1;
      assert e <= n;
    }
    ghost var cur := environ[..];
    Compacted(start, cur, kept, e, name.value);
    environ[d] := None;
    assert environ[..] == cur[d := None];
    assert environ[..][d].None?;
    r := 0;
  }

  lemma Begin(start: seq<Slot>, name: string)
    ensures Compacting(start, start, [], 0, name)
  {
    assert start[0..] == start;
    assert [] + Removed(Live(start), name) == Removed(Live(start), name);
  }

  // ---------- compat/dicl/dicl-compat.c ----------

  /** What the entries up to e and the removal from the rest give is what is promised. */
  ghost predicate Shifting(start: seq<Slot>, cur: seq<Slot>, kept: seq<string>, n: nat, name: string)
  {
    && |kept| <= n && EndsAt(cur, n)
    && (forall k :: 0 <= k < |kept| ==> cur[k] == Some(kept[k]))
    && kept + Removed(Live(cur[|kept|..]), name) == Removed(Live(start), name)
  }

  lemma SameLive(a: seq<Slot>, b: seq<Slot>, n: nat)
    requires EndsAt(a, n) && n < |b| && a[..n + 1] == b[..n + 1]
    ensures Live(a) == Live(b)
  {
    hide Live;
    assert forall k :: 0 <= k <= n ==> b[k] == b[..n + 1][k] == a[k];
    LiveUpTo(a, n);
    LiveUpTo(b, n);
  }

  lemma Shift(start: seq<Slot>, cur: seq<Slot>, next: seq<Slot>, kept: seq<string>, n: nat, name: string)
    requires Shifting(start, cur, kept, n, name) && |kept| < n && Sets(cur[|kept|].value, name)
    requires |next| == |cur| && next[..|kept|] == cur[..|kept|] && next[|kept|..n] == cur[|kept| + 1..n + 1]
    requires EndsAt(next, n - 1)
    ensures Shifting(start, next, kept, n - 1, name)
  {
    var e := |kept|;
    hide Live, Removed, Sets;
    LiveStep(cur, e);
    RemovedStep(cur[e].value, Live(cur[e + 1..]), name);
    assert [] + Removed(Live(cur[e + 1..]), name) == Removed(Live(cur[e + 1..]), name);
    assert forall k :: 0 <= k < e ==> next[k] == next[..e][k] == cur[k];
    assert next[e..][..n - e] == next[e..n];
    assert cur[e + 1..][..n - e] == cur[e + 1..n + 1];
    SameLive(next[e..], cur[e + 1..], n - 1 - e);
  }

  lemma Pass(start: seq<Slot>, cur: seq<Slot>, kept: seq<string>, n: nat, name: string)
    requires Shifting(start, cur, kept, n, name) && |kept| < n && !Sets(cur[|kept|].value, name)
    ensures Shifting(start, cur, kept + [cur[|kept|].value], n, name)
  {
    var e := |kept|;
    hide Live, Removed, Sets;
    LiveStep(cur, e);
    RemovedStep(cur[e].value, Live(cur[e + 1..]), name);
    var x, rest := [cur[e].value], Removed(Live(cur[e + 1..]), name);
    assert kept + (x + rest) == kept + x + rest;
  }

  lemma Shifted(start: seq<Slot>, cur: seq<Slot>, kept: seq<string>, name: string)
    requires Shifting(start, cur, kept, |kept|, name)
    ensures Live(cur) == Removed(Live(start), name)
  {
    assert Live(cur[|kept|..]) == [];
    assert kept + [] == kept;
    LiveUpTo(cur, |kept|);
    assert Live(cur) == kept;
  }

  method UnsetShifting(environ: array<Slot>, name: Option<string>) returns (r: int)
    requires None in environ[..]
    modifies environ
    ensures BadName(name) ==> r == -1 && environ[..] == old(environ[..])
    ensures !BadName(name) ==> r == 0 && None in environ[..]
    ensures !BadName(name) ==> Live(environ[..]) == Removed(Live(old(environ[..])), name.value)
  {
    hide Live, Removed, Shifting, Sets;
    if name.None? || name.value == "" || '=' in name.value {
      return -1;
    }
    ghost var start := environ[..];
    ghost var n := EndExists(start);
    ghost var kept: seq<string> := [];
    BeginShifting(start, n, name.value);
    var e := 0;
    while environ[e].Some?
      invariant e == |kept| <= n && EndsAt(environ[..], n) && Shifting(start, environ[..], kept, n, name.value)
      decreases n - e
    {
      ghost var cur := environ[..];
      var found := Matches(environ[e].value, name.value);
      if found {
        ShiftLeft(environ, e, n);
        assert environ[..][..e] == environ[..e] && environ[..][e..n] == environ[e..n];
        Shift(start, cur, environ[..], kept, n, name.value);
        n := n - 1;
      } else {
        Pass(start, cur, kept, n, name.value);
        kept := kept + [environ[e].value];
        e := e + 1;
      }
    }
    assert environ[..][e] == environ[e];
    Shifted(start, environ[..], kept, name.value);
    r := 0;
  }

  lemma BeginShifting(start: seq<Slot>, n: nat, name: string)
    requires EndsAt(start, n)
    ensures Shifting(start, start, [], n, name)
  {
    assert start[0..] == start;
    assert [] + Removed(Live(start), name) == Removed(Live(start), name);
  }

  /** The inner loop: every entry from e on moves one place to the left, with the NULL. */
  method ShiftLeft(environ: array<Slot>, e: nat, ghost n: nat)
    requires EndsAt(environ[..], n) && e < n
    modifies environ
    ensures environ[..e] == old(environ[..e]) && environ[e..n] == old(environ[e + 1..n + 1])
    ensures EndsAt(environ[..], n - 1)
  {
    var s := e;
    while environ[s].Some?
      invariant e <= s <= n && environ[..e] == old(environ[..e])
      invariant forall k :: e <= k < s ==> environ[k] == old(environ[k + 1])
      invariant environ[s..] == old(environ[s..])
      decreases n - s
    {
      assert environ[s] == environ[s..][0] == old(environ[s..])[0];
      assert environ[s + 1] == environ[s..][1] == old(environ[s..])[1];
      environ[s] := environ[s + 1];
      s := s + 1;
    }
    assert environ[s] == environ[s..][0] == old(environ[s..])[0];
  }

  // ---------- What unsetenv promises ----------

  /** getenv */
  function Lookup(env: seq<string>, name: string): Option<string>
  {
    if env == [] then None
    else if Sets(env[0], name) then Some(env[0][|name| + 1..])
    else Lookup(env[1..], name)
  }

  lemma NoLonger(entry: string, name: string, other: string)
    requires Sets(entry, name) && Sets(entry, other) && '=' !in other
    ensures |other| <= |name| && name == entry[..|name|]
  {
    assert entry[|name|] == (name + "=")[|name|] == '=';
    assert forall k :: 0 <= k < |other| ==> entry[k] == (other + "=")[k] == other[k] != '=';
    assert forall k :: 0 <= k < |name| ==> entry[k] == (name + "=")[k] == name[k];
  }

  lemma OneNameOnly(entry: string, name: string, other: string)
    requires Sets(entry, name) && Sets(entry, other) && '=' !in name && '=' !in other
    ensures name == other
  {
    NoLonger(entry, name, other);
    NoLonger(entry, other, name);
  }

  /** Afterwards the variable is unset, however often it was set, and every other one is as before. */
  lemma {:induction false} RemovedUnsets(env: seq<string>, name: string, other: string)
    requires '=' !in name && '=' !in other
    ensures Lookup(Removed(env, name), other) == if other == name then None else Lookup(env, other)
  {
    if env != [] {
      var rest := Removed(env[1..], name);
      RemovedUnsets(env[1..], name, other);
      if Sets(env[0], name) {
        assert [] + rest == rest;
        if Sets(env[0], other) {
          OneNameOnly(env[0], name, other);
        }
      } else {
        assert ([env[0]] + rest)[1..] == rest;
      }
    }
  }

  /** Exactly the entries of other variables stay, as often as they were there. */
  lemma {:induction false} RemovedKeeps(env: seq<string>, name: string, entry: string)
    ensures multiset(Removed(env, name))[entry] == if Sets(entry, name) then 0 else multiset(env)[entry]
  {
    if env != [] {
      RemovedKeeps(env[1..], name, entry);
      assert env == [env[0]] + env[1..];
    }
  }

  /** Nothing is left to remove. */
  lemma {:induction false} RemovedTwice(env: seq<string>, name: string)
    ensures Removed(Removed(env, name), name) == Removed(env, name)
  {
    if env != [] {
      RemovedTwice(env[1..], name);
      var rest := Removed(env[1..], name);
      if Sets(env[0], name) {
        assert [] + rest == rest;
      } else {
        assert ([env[0]] + rest)[1..] == rest;
      }
    }
  }

  /** Both leave the same environment. */
  method BothAgree(first: array<Slot>, second: array<Slot>, name: Option<string>) returns (r: int, q: int)
    requires first != second && None in first[..] && first[..] == second[..]
    modifies first, second
    ensures r == q && Live(first[..]) == Live(second[..])
  {
    r := UnsetOnePass(first, name);
    q := UnsetShifting(second, name);
  }
}
