/** getopt_long, call by call. Strings are C strings: they have no NUL inside, and one behind the end. */
module GetoptLong {
  import opened Common

  datatype HasArg = NoArgument | Required | Optional

  /** flag: the address of the variable to set, if any. */
  datatype LongOption = LongOption(name: string, hasArg: HasArg, flag: Option<int>, val: int)

  /** wantIndex: whether the caller passed a longindex. */
  datatype Config = Config(optstring: string, longopts: seq<LongOption>, wantIndex: bool)

  /** The variables that the caller reads: optarg, optopt, *longindex and those set through flags. */
  datatype Vars = Vars(optarg: Option<string>, optopt: int, longindex: Option<nat>, flags: map<int, int>)

  /** optind, the place within the current element, and what the caller reads. */
  datatype State = State(optind: nat, pos: nat, vars: Vars)

  const END: int := -1
  const UNKNOWN: int := '?' as int
  const MISSING: int := ':' as int

  // ---------- Strings ----------

  predicate CString(s: string)
  {
    forall i :: 0 <= i < |s| ==> s[i] != '\0'
  }

  ghost predicate CStrings(argv: seq<string>)
  {
    forall k :: 0 <= k < |argv| ==> CString(argv[k])
  }

  function At(s: string, i: nat): char
    requires i <= |s|
  {
    if i < |s| then s[i] else '\0'
  }

  /** The first place of a character, or the length. */
  function IndexOf(s: string, c: char): (r: nat)
    ensures r <= |s| && (r < |s| ==> s[r] == c) && forall i :: 0 <= i < r ==> s[i] != c
  {
    if s == [] || s[0] == c then 0 else 1 + IndexOf(s[1..], c)
  }

  /** The first long option of that name, or their number. */
  function FindLong(longopts: seq<LongOption>, name: string): (r: nat)
    ensures r <= |longopts| && (r < |longopts| ==> longopts[r].name == name)
    ensures forall i :: 0 <= i < r ==> longopts[i].name != name
  {
    if longopts == [] || longopts[0].name == name then 0 else 1 + FindLong(longopts[1..], name)
  }

  // ---------- One call ----------

  predicate IsLetter(c: Config, x: char)
  {
    x != ':' && IndexOf(c.optstring, x) < |c.optstring|
  }

  predicate TakesArgument(c: Config, x: char)
  {
    var i := IndexOf(c.optstring, x);
    i + 1 < |c.optstring| && c.optstring[i + 1] == ':'
  }

  /** A found long option: the variables it sets and the value that is returned. */
  function Report(c: Config, i: nat, optarg: Option<string>, v: Vars): (int, Vars)
    requires i < |c.longopts|
  {
    var o := c.longopts[i];
    var w := v.(optarg := optarg, longindex := if c.wantIndex then Some(i) else v.longindex);
    match o.flag
    case None => (o.val, w)
    case Some(flag) => (0, w.(flags := w.flags[flag := o.val]))
  }

  function NextLong(c: Config, argv: seq<string>, s: State): (int, State)
    requires s.optind < |argv| && |argv[s.optind]| > 2
  {
    var arg := argv[s.optind][2..];
    var len := IndexOf(arg, '=');
    var i := FindLong(c.longopts, arg[..len]);
    if i == |c.longopts| then
      (UNKNOWN, s.(optind := s.optind + 1, vars := s.vars.(optopt := 0)))
    else if c.longopts[i].hasArg == NoArgument || (c.longopts[i].hasArg == Optional && len == |arg|) then
      var (r, v) := Report(c, i, None, s.vars);
      (r, s.(optind := s.optind + 1, vars := v))
    else if len < |arg| then
      var (r, v) := Report(c, i, Some(arg[len + 1..]), s.vars);
      (r, s.(optind := s.optind + 1, vars := v))
    else if s.optind + 1 < |argv| then
      var (r, v) := Report(c, i, Some(argv[s.optind + 1]), s.vars);
      (r, s.(optind := s.optind + 2, vars := v))
    else
      (UNKNOWN, s.(optind := s.optind + 1, vars := if c.wantIndex then s.vars.(longindex := Some(i)) else s.vars))
  }

  /** Past one letter of a group. */
  function Advance(argv: seq<string>, s: State): State
    requires s.optind < |argv|
  {
    if s.pos + 1 >= |argv[s.optind]| then s.(optind := s.optind + 1, pos := 1) else s.(pos := s.pos + 1)
  }

  function NextShort(c: Config, argv: seq<string>, s: State): (int, State)
    requires s.optind < |argv| && s.pos < |argv[s.optind]|
  {
    var word := argv[s.optind];
    var x := word[s.pos];
    var t := s.(vars := s.vars.(optopt := x as int));
    if !IsLetter(c, x) then (UNKNOWN, Advance(argv, t))
    else if !TakesArgument(c, x) then
      (x as int, Advance(argv, t.(vars := t.vars.(optarg := None))))
    else if s.pos + 1 < |word| then
      (x as int, State(s.optind + 1, 1, t.vars.(optarg := Some(word[s.pos + 1..]))))
    else if s.optind + 1 < |argv| then
      (x as int, State(s.optind + 2, 1, t.vars.(optarg := Some(argv[s.optind + 1]))))
    else
      (if c.optstring[0] == ':' then MISSING else UNKNOWN, State(s.optind + 1, 1, t.vars))
  }

  predicate IsOperand(word: string)
  {
    word == "" || word[0] != '-' || word == "-"
  }

  /** The position is behind the '-' of the element, or at a further letter of a group. */
  predicate Ready(argv: seq<string>, s: State)
  {
    s.pos == 1
    || (s.pos > 1 && s.optind < |argv| && s.pos < |argv[s.optind]| && argv[s.optind][0] == '-'
        && argv[s.optind][1] != '-')
  }

  function Next(c: Config, argv: seq<string>, s: State): (int, State)
    requires Ready(argv, s)
  {
    if s.optind >= |argv| || IsOperand(argv[s.optind]) then (END, s)
    else if argv[s.optind] == "--" then (END, s.(optind := s.optind + 1))
    else if argv[s.optind][1] == '-' then NextLong(c, argv, s)
    else NextShort(c, argv, s)
  }

  // ---------- The function of the library ----------

  class Getopt {
    var optind: nat
    var optarg: Option<string>
    var optopt: int
    var current_pos: nat
    var longindex: Option<nat>
    var flags: map<int, int>

    ghost function Now(): State
      reads this
    {
      State(optind, current_pos, Vars(optarg, optopt, longindex, flags))
    }

    constructor ()
      ensures Now() == State(1, 1, Vars(None, 0, None, map[]))
    {
      optind, current_pos, optarg, optopt, longindex, flags := 1, 1, None, 0, None, map[];
    }

    method Call(argv: seq<string>, c: Config) returns (r: int)
      requires CStrings(argv) && CString(c.optstring) && Ready(argv, Now())
      modifies this
      ensures (r, Now()) == Next(c, argv, old(Now()))
    {
      hide FindLong, IndexOf;
      if optind >= |argv| {
        return END;
      }
      var word := argv[optind];
      assert CString(word);
      if At(word, 0) != '-' {
        return END;
      }
      if At(word, 1) == '\0' {
        return END;
      }
      if At(word, 1) == '-' && At(word, 2) == '\0' {
        assert word == "--";
        optind := optind + 1;
        return END;
      }
      if At(word, 1) == '-' {
        r := Long(argv, c);
      } else {
        r := Short(argv, c);
      }
    }

    method Long(argv: seq<string>, c: Config) returns (r: int)
      requires optind < |argv| && |argv[optind]| > 2
      modifies this
      ensures (r, Now()) == NextLong(c, argv, old(Now()))
    {
      hide FindLong, IndexOf;
      var arg := argv[optind][2..];
      var len := IndexOf(arg, '=');
      var i := 0;
      while i < |c.longopts|
        invariant i <= |c.longopts| && forall k :: 0 <= k < i ==> c.longopts[k].name != arg[..len]
        invariant Now() == old(Now())
      {
        var opt := c.longopts[i];
        if opt.name == arg[..len] {
          FoundAt(c.longopts, arg[..len], i);
          if c.wantIndex {
            longindex := Some(i);
          }
          optind := optind + 1;
          if opt.hasArg == Required {
            if len < |arg| {
              optarg := Some(arg[len + 1..]);
            } else if optind < |argv| {
              optarg := Some(argv[optind]);
              optind := optind + 1;
            } else {
              return UNKNOWN;
            }
          } else if opt.hasArg == Optional {
            optarg := if len < |arg| then Some(arg[len + 1..]) else None;
          } else {
            optarg := None;
          }
          if opt.flag.Some? {
            flags := flags[opt.flag.value := opt.val];
            return 0;
          }
          return opt.val;
        }
        i := i + 1;
      }
      NotFound(c.longopts, arg[..len]);
      optopt := 0;
      optind := optind + 1;
      r := UNKNOWN;
    }

    method Short(argv: seq<string>, c: Config) returns (r: int)
      requires optind < |argv| && 1 <= current_pos < |argv[optind]| && CStrings(argv) && CString(c.optstring)
      modifies this
      ensures (r, Now()) == NextShort(c, argv, old(Now()))
    {
      hide IndexOf;
      var word := argv[optind];
      assert CString(word);
      var x := At(word, current_pos);
      optopt := x as int;
      var oli := IndexOf(c.optstring, x);
      if x == ':' || oli == |c.optstring| {
        current_pos := current_pos + 1;
        if At(word, current_pos) == '\0' {
          optind := optind + 1;
          current_pos := 1;
        }
        return UNKNOWN;
      }
      if At(c.optstring, oli + 1) == ':' {
        if At(word, current_pos + 1) != '\0' {
          optarg := Some(word[current_pos + 1..]);
        } else if optind + 1 < |argv| {
          optarg := Some(argv[optind + 1]);
          optind := optind + 1;
        } else {
          current_pos := 1;
          optind := optind + 1;
          return if At(c.optstring, 0) == ':' then MISSING else UNKNOWN;
        }
        optind := optind + 1;
        current_pos := 1;
      } else {
        optarg := None;
        current_pos := current_pos + 1;
        if At(word, current_pos) == '\0' {
          optind := optind + 1;
          current_pos := 1;
        }
      }
      r := optopt;
    }
  }

  lemma FoundAt(longopts: seq<LongOption>, name: string, i: nat)
    requires i < |longopts| && longopts[i].name == name
    requires forall k :: 0 <= k < i ==> longopts[k].name != name
    ensures FindLong(longopts, name) == i
  {
  }

  lemma NotFound(longopts: seq<LongOption>, name: string)
    requires forall k :: 0 <= k < |longopts| ==> longopts[k].name != name
    ensures FindLong(longopts, name) == |longopts|
  {
  }

  // ---------- Progress ----------

  /** Characters not yet read, with one for the end of each element. */
  function Size(argv: seq<string>): nat
  {
    if argv == [] then 0 else |argv[0]| + 1 + Size(argv[1..])
  }

  function Unread(argv: seq<string>, s: State): int
  {
    if s.optind >= |argv| then 0 else Size(argv[s.optind..]) - (s.pos - 1)
  }

  lemma SizeStep(argv: seq<string>, k: nat)
    requires k < |argv|
    ensures Size(argv[k..]) == |argv[k]| + 1 + Size(argv[k + 1..])
  {
    assert argv[k..][1..] == argv[k + 1..];
  }

  /** The place stays within an element, at a character that is there: when a letter is read it is
      never the NUL at the end. */
  lemma KeepsReady(c: Config, argv: seq<string>, s: State)
    requires Ready(argv, s)
    ensures Ready(argv, Next(c, argv, s).1)
    ensures s.optind < |argv| && !IsOperand(argv[s.optind]) && argv[s.optind][1] != '-' ==>
      1 <= s.pos < |argv[s.optind]|
  {
    hide IndexOf, FindLong;
  }

  /** Every call that reports an option reads something. */
  lemma Progresses(c: Config, argv: seq<string>, s: State)
    requires Ready(argv, s) && Next(c, argv, s).0 != END
    ensures 0 <= Unread(argv, Next(c, argv, s).1) < Unread(argv, s)
  {
    hide IndexOf, FindLong, Size;
    SizeStep(argv, s.optind);
    if s.optind + 1 < |argv| {
      SizeStep(argv, s.optind + 1);
    }
    if s.optind + 2 < |argv| {
      SizeStep(argv, s.optind + 2);
    }
  }

  // ---------- Options as they are written ----------

  /** What a caller means: a letter, a letter with its argument, or a long option by its index. */
  datatype Item = Flag(letter: char) | Arg(letter: char, arg: string) | Long(index: nat, value: Option<string>)

  /** A way of writing options in one element or two: a group of letters, of which the last may have
      an argument, attached or in the next element; a long option with or without an argument. */
  datatype Word =
    | Group(letters: seq<char>)
    | Attached(letters: seq<char>, letter: char, arg: string)
    | Separate(letters: seq<char>, letter: char, arg: string)
    | LongAlone(index: nat)
    | LongEqual(index: nat, arg: string)
    | LongSeparate(index: nat, arg: string)

  function Render(c: Config, w: Word): (r: seq<string>)
    requires Proper(c, w)
    ensures 1 <= |r| <= 2 && |r[0]| > 1 && r[0][0] == '-' && r[0] != "--"
  {
    match w
    case Group(letters) => assert ("-" + letters)[1] == letters[0]; ["-" + letters]
    case Attached(letters, x, arg) => ["-" + letters + [x] + arg]
    case Separate(letters, x, arg) =>
      assert ("-" + letters + [x])[1] == if letters == [] then x else letters[0];
      ["-" + letters + [x], arg]
    case LongAlone(i) => assert ("--" + c.longopts[i].name)[2..] == c.longopts[i].name; ["--" + c.longopts[i].name]
    case LongEqual(i, arg) => ["--" + c.longopts[i].name + "=" + arg]
    case LongSeparate(i, arg) =>
      assert ("--" + c.longopts[i].name)[2..] == c.longopts[i].name;
      ["--" + c.longopts[i].name, arg]
  }

  function Flags(letters: seq<char>): seq<Item>
  {
    if letters == [] then [] else [Flag(letters[0])] + Flags(letters[1..])
  }

  function Items(w: Word): seq<Item>
  {
    match w
    case Group(letters) => Flags(letters)
    case Attached(letters, x, arg) => Flags(letters) + [Arg(x, arg)]
    case Separate(letters, x, arg) => Flags(letters) + [Arg(x, arg)]
    case LongAlone(i) => [Long(i, None)]
    case LongEqual(i, arg) => [Long(i, Some(arg))]
    case LongSeparate(i, arg) => [Long(i, Some(arg))]
  }

  /** A known letter that takes no argument. */
  predicate PlainLetter(c: Config, x: char)
  {
    IsLetter(c, x) && !TakesArgument(c, x)
  }

  predicate Named(c: Config, i: nat)
  {
    i < |c.longopts| && c.longopts[i].name != "" && '=' !in c.longopts[i].name
        && FindLong(c.longopts, c.longopts[i].name) == i
  }

  predicate Proper(c: Config, w: Word)
  {
    match w
    case Group(letters) => letters != [] && letters[0] != '-' && PlainLetters(c, letters)
    case Attached(letters, x, arg) => LetterGroup(c, letters, x) && arg != ""
    case Separate(letters, x, arg) => LetterGroup(c, letters, x)
    case LongAlone(i) => Named(c, i) && c.longopts[i].hasArg != Required
    case LongEqual(i, arg) => Named(c, i) && c.longopts[i].hasArg != NoArgument
    case LongSeparate(i, arg) => Named(c, i) && c.longopts[i].hasArg == Required
  }

  predicate PlainLetters(c: Config, letters: seq<char>)
  {
    forall k :: 0 <= k < |letters| ==> PlainLetter(c, letters[k])
  }

  /** The group does not begin with a '-', which would make it a long option. */
  predicate LetterGroup(c: Config, letters: seq<char>, x: char)
  {
    PlainLetters(c, letters) && IsLetter(c, x) && TakesArgument(c, x)
        && (if letters == [] then x else letters[0]) != '-'
  }

  /** What a call that reports the item returns, and what it leaves in the variables. */
  function Reported(c: Config, item: Item, v: Vars): (int, Vars)
    requires item.Long? ==> item.index < |c.longopts|
  {
    match item
    case Flag(x) => (x as int, v.(optopt := x as int, optarg := None))
    case Arg(x, arg) => (x as int, v.(optopt := x as int, optarg := Some(arg)))
    case Long(i, value) => Report(c, i, value, v)
  }

  ghost predicate KnownItems(c: Config, items: seq<Item>)
  {
    forall k :: 0 <= k < |items| ==> items[k].Long? ==> items[k].index < |c.longopts|
  }

  /** Calling from s on reports exactly the items, in that order, and arrives at t. */
  ghost predicate Reports(c: Config, argv: seq<string>, s: State, items: seq<Item>, t: State)
    requires KnownItems(c, items)
    decreases |items|
  {
    Ready(argv, s) &&
    if items == [] then s == t
    else
      var (r, next) := Next(c, argv, s);
      (r, next.vars) == Reported(c, items[0], s.vars) && Reports(c, argv, next, items[1..], t)
  }

  lemma {:induction false} ReportsChain(c: Config, argv: seq<string>, s: State, a: seq<Item>, t: State, b: seq<Item>,
                                        u: State)
    requires KnownItems(c, a) && KnownItems(c, b)
    requires Reports(c, argv, s, a, t) && Reports(c, argv, t, b, u)
    ensures KnownItems(c, a + b) && Reports(c, argv, s, a + b, u)
    decreases |a|
  {
    hide Next, Reported, Ready;
    if a == [] {
      assert a + b == b;
    } else {
      assert (a + b)[1..] == a[1..] + b;
      ReportsChain(c, argv, Next(c, argv, s).1, a[1..], t, b, u);
    }
  }

  // ---------- Reading one word ----------

  /** A short-option element. */
  predicate IsGroup(word: string)
  {
    |word| > 1 && word[0] == '-' && word[1] != '-'
  }

  lemma ShortNext(c: Config, argv: seq<string>, k: nat, p: nat, v: Vars)
    requires k < |argv| && IsGroup(argv[k]) && 1 <= p < |argv[k]|
    ensures Ready(argv, State(k, p, v)) && Next(c, argv, State(k, p, v)) == NextShort(c, argv, State(k, p, v))
  {
    hide NextShort, NextLong;
    assert argv[k] != "--" by { assert "--"[1] == '-'; }
  }

  lemma FlagNext(c: Config, argv: seq<string>, k: nat, p: nat, v: Vars)
    requires k < |argv| && IsGroup(argv[k]) && 1 <= p < |argv[k]| && PlainLetter(c, argv[k][p])
    ensures Ready(argv, State(k, p, v))
    ensures var w := Reported(c, Flag(argv[k][p]), v).1;
      Next(c, argv, State(k, p, v))
          == (argv[k][p] as int, if p + 1 == |argv[k]| then State(k + 1, 1, w) else State(k, p + 1, w))
  {
    hide IsLetter, TakesArgument, Next;
    ShortNext(c, argv, k, p, v);
  }

  lemma {:induction false} FlagsRead(c: Config, argv: seq<string>, k: nat, p: nat, q: nat, v: Vars) returns (t: State)
    requires k < |argv| && IsGroup(argv[k]) && 1 <= p <= q <= |argv[k]| && (p < q || q < |argv[k]|)
    requires PlainLetters(c, argv[k][p..q])
    ensures KnownItems(c, Flags(argv[k][p..q])) && Reports(c, argv, State(k, p, v), Flags(argv[k][p..q]), t)
    ensures if q < |argv[k]| then t.optind == k && t.pos == q else t.optind == k + 1 && t.pos == 1
    decreases q - p
  {
    hide Next, PlainLetter;
    var letters := argv[k][p..q];
    if p == q {
      t := State(k, p, v);
    } else {
      assert letters[0] == argv[k][p] && letters[1..] == argv[k][p + 1..q];
      FlagNext(c, argv, k, p, v);
      var w := Reported(c, Flag(argv[k][p]), v).1;
      if p + 1 == |argv[k]| {
        t := State(k + 1, 1, w);
        assert Flags(letters[1..]) == [];
      } else {
        t := FlagsRead(c, argv, k, p + 1, q, w);
      }
      assert Flags(letters)[1..] == Flags(letters[1..]);
    }
  }

  lemma ReportsOne(c: Config, argv: seq<string>, s: State, item: Item)
    requires Ready(argv, s) && Ready(argv, Next(c, argv, s).1) && (item.Long? ==> item.index < |c.longopts|)
    requires (Next(c, argv, s).0, Next(c, argv, s).1.vars) == Reported(c, item, s.vars)
    ensures KnownItems(c, [item]) && Reports(c, argv, s, [item], Next(c, argv, s).1)
  {
    hide Next, Reported, Ready;
    assert [item][1..] == [];
    assert Reports(c, argv, Next(c, argv, s).1, [], Next(c, argv, s).1);
  }

  lemma ArgRead(c: Config, argv: seq<string>, k: nat, p: nat, v: Vars, x: char, arg: string) returns (t: State)
    requires k < |argv| && IsGroup(argv[k]) && 1 <= p < |argv[k]| && argv[k][p] == x
    requires IsLetter(c, x) && TakesArgument(c, x)
    requires if p + 1 < |argv[k]| then argv[k][p + 1..] == arg else k + 1 < |argv| && argv[k + 1] == arg
    ensures KnownItems(c, [Arg(x, arg)]) && Reports(c, argv, State(k, p, v), [Arg(x, arg)], t)
    ensures t.optind == (if p + 1 < |argv[k]| then k + 1 else k + 2) && t.pos == 1
  {
    hide IsLetter, TakesArgument, Next;
    ShortNext(c, argv, k, p, v);
    t := Next(c, argv, State(k, p, v)).1;
    ReportsOne(c, argv, State(k, p, v), Arg(x, arg));
  }

  lemma GroupParts(letters: seq<char>, x: char, tail: string)
    ensures var s := "-" + letters + [x] + tail; var q := |letters| + 1;
      s[0] == '-' && s[1..q] == letters && s[q] == x && s[q + 1..] == tail
      && s[1] == if letters == [] then x else letters[0]
  {
  }

  /** Letters, then one with an argument. */
  lemma GroupWithArgument(c: Config, argv: seq<string>, k: nat, letters: seq<char>, x: char, arg: string, v: Vars)
      returns (t: State)
    requires k < |argv| && LetterGroup(c, letters, x)
    requires (argv[k] == "-" + letters + [x] + arg && arg != "")
      || (argv[k] == "-" + letters + [x] && k + 1 < |argv| && argv[k + 1] == arg)
    ensures KnownItems(c, Flags(letters) + [Arg(x, arg)])
      && Reports(c, argv, State(k, 1, v), Flags(letters) + [Arg(x, arg)], t)
    ensures t.optind == (if argv[k] == "-" + letters + [x] then k + 2 else k + 1) && t.pos == 1
  {
    hide IsLetter, TakesArgument, Next, Reports, PlainLetter;
    var q := |letters| + 1;
    GroupParts(letters, x, arg);
    GroupParts(letters, x, "");
    assert "-" + letters + [x] + "" == "-" + letters + [x];
    var u := FlagsRead(c, argv, k, 1, q, v);
    assert u == State(k, q, u.vars);
    if q + 1 < |argv[k]| {
      assert argv[k][q + 1..] == arg;
    }
    t := ArgRead(c, argv, k, q, u.vars, x, arg);
    ReportsChain(c, argv, State(k, 1, v), Flags(letters), u, [Arg(x, arg)], t);
  }

  lemma {:induction false} NameEnds(name: string, rest: string)
    requires '=' !in name && (rest == "" || rest[0] == '=')
    ensures IndexOf(name + rest, '=') == |name|
  {
    if name == "" {
      assert name + rest == rest;
    } else {
      assert name[0] in name;
      assert (name + rest)[1..] == name[1..] + rest;
      NameEnds(name[1..], rest);
    }
  }

  lemma LongNext(c: Config, argv: seq<string>, k: nat, i: nat, rest: string, v: Vars)
    requires k < |argv| && Named(c, i) && argv[k] == "--" + c.longopts[i].name + rest && (rest == "" || rest[0] == '=')
    ensures var s := State(k, 1, v);
      Ready(argv, s) && |argv[k]| > 2 && Next(c, argv, s) == NextLong(c, argv, s)
    ensures argv[k][2..] == c.longopts[i].name + rest && IndexOf(argv[k][2..], '=') == |c.longopts[i].name|
    ensures FindLong(c.longopts, argv[k][2..][..|c.longopts[i].name|]) == i
  {
    hide FindLong, IndexOf, NextLong, NextShort;
    var name := c.longopts[i].name;
    assert argv[k][2..] == name + rest;
    NameEnds(name, rest);
    assert (name + rest)[..|name|] == name;
  }

  lemma LongRead(c: Config, argv: seq<string>, k: nat, i: nat, arg: Option<string>, rest: string, v: Vars)
      returns (t: State)
    requires k < |argv| && Named(c, i) && argv[k] == "--" + c.longopts[i].name + rest
    requires match arg {
      case None => rest == "" && c.longopts[i].hasArg != Required
      case Some(a) =>
        (rest == "=" + a && c.longopts[i].hasArg != NoArgument)
        || (rest == "" && c.longopts[i].hasArg == Required && k + 1 < |argv| && argv[k + 1] == a) }
    ensures KnownItems(c, [Long(i, arg)]) && Reports(c, argv, State(k, 1, v), [Long(i, arg)], t)
    ensures t.optind == (if arg.Some? && rest == "" then k + 2 else k + 1) && t.pos == 1
  {
    hide FindLong, IndexOf, Next;
    LongNext(c, argv, k, i, rest, v);
    var name := c.longopts[i].name;
    if rest != "" {
      assert (name + rest)[|name| + 1..] == rest[1..] == arg.value;
    }
    t := Next(c, argv, State(k, 1, v)).1;
    ReportsOne(c, argv, State(k, 1, v), Long(i, arg));
  }

  lemma WordRead(c: Config, argv: seq<string>, k: nat, w: Word, v: Vars) returns (t: State)
    requires Proper(c, w) && k + |Render(c, w)| <= |argv| && argv[k..k + |Render(c, w)|] == Render(c, w)
    ensures KnownItems(c, Items(w)) && Reports(c, argv, State(k, 1, v), Items(w), t)
    ensures t.optind == k + |Render(c, w)| && t.pos == 1
  {
    hide Next, Reports, PlainLetter, FindLong;
    assert argv[k] == Render(c, w)[0];
    if |Render(c, w)| == 2 {
      assert argv[k + 1] == argv[k..k + 2][1] == Render(c, w)[1];
    }
    match w
    case Group(letters) =>
      assert argv[k][1] == letters[0] && argv[k][1..] == letters;
      assert argv[k][1..|letters| + 1] == letters;
      t := FlagsRead(c, argv, k, 1, |letters| + 1, v);
    case Attached(letters, x, arg) =>
      assert argv[k] != "-" + letters + [x] by { assert |argv[k]| > |"-" + letters + [x]|; }
      t := GroupWithArgument(c, argv, k, letters, x, arg, v);
    case Separate(letters, x, arg) =>
      t := GroupWithArgument(c, argv, k, letters, x, arg, v);
    case LongAlone(i) =>
      assert argv[k] == "--" + c.longopts[i].name + "";
      t := LongRead(c, argv, k, i, None, "", v);
    case LongEqual(i, arg) =>
      assert argv[k] == "--" + c.longopts[i].name + ("=" + arg);
      t := LongRead(c, argv, k, i, Some(arg), "=" + arg, v);
    case LongSeparate(i, arg) =>
      assert argv[k] == "--" + c.longopts[i].name + "";
      t := LongRead(c, argv, k, i, Some(arg), "", v);
  }

  // ---------- Reading a whole command line ----------

  ghost predicate AllProper(c: Config, words: seq<Word>)
  {
    forall k :: 0 <= k < |words| ==> Proper(c, words[k])
  }

  function RenderAll(c: Config, words: seq<Word>): seq<string>
    requires AllProper(c, words)
  {
    if words == [] then [] else Render(c, words[0]) + RenderAll(c, words[1..])
  }

  function AllItems(words: seq<Word>): seq<Item>
  {
    if words == [] then [] else Items(words[0]) + AllItems(words[1..])
  }

  /** Where the options end: no element left, an operand, or "--". */
  predicate Ends(rest: seq<string>)
  {
    rest == [] || IsOperand(rest[0]) || rest[0] == "--"
  }

  lemma {:induction false} WordsRead(c: Config, argv: seq<string>, k: nat, words: seq<Word>, rest: seq<string>,
                                     v: Vars) returns (t: State)
    requires AllProper(c, words) && k <= |argv| && argv[k..] == RenderAll(c, words) + rest
    ensures KnownItems(c, AllItems(words)) && Reports(c, argv, State(k, 1, v), AllItems(words), t)
    ensures t.optind == |argv| - |rest| && t.pos == 1
    decreases |words|
  {
    hide Next, Proper, Render, Items, Reported;
    if words == [] {
      t := State(k, 1, v);
    } else {
      hide Reports;
      var first, more := Render(c, words[0]), RenderAll(c, words[1..]);
      CutFirst(argv, k, first, more, rest);
      var u := WordRead(c, argv, k, words[0], v);
      assert u == State(k + |first|, 1, u.vars);
      t := WordsRead(c, argv, k + |first|, words[1..], rest, u.vars);
      ReportsChain(c, argv, State(k, 1, v), Items(words[0]), u, AllItems(words[1..]), t);
    }
  }

  lemma CutFirst(argv: seq<string>, k: nat, first: seq<string>, more: seq<string>, rest: seq<string>)
    requires k <= |argv| && argv[k..] == first + more + rest
    ensures k + |first| <= |argv| && argv[k..k + |first|] == first && argv[k + |first|..] == more + rest
  {
    assert argv[k..][..|first|] == first && argv[k..][|first|..] == more + rest;
    assert argv[k..k + |first|] == argv[k..][..|first|];
    assert argv[k + |first|..] == argv[k..][|first|..];
  }

  /** Options written in any of these ways come back in order, and then the calls stop, with optind
      at the first operand: behind a "--" if there is one. */
  lemma ReadsBack(c: Config, program: string, words: seq<Word>, rest: seq<string>) returns (t: State)
    requires AllProper(c, words) && Ends(rest)
    ensures var argv := [program] + RenderAll(c, words) + rest;
      && KnownItems(c, AllItems(words))
      && Reports(c, argv, State(1, 1, Vars(None, 0, None, map[])), AllItems(words), t)
      && Ready(argv, t) && Next(c, argv, t).0 == END && Next(c, argv, t).1.optind <= |argv|
      && argv[Next(c, argv, t).1.optind..] == if rest != [] && rest[0] == "--" then rest[1..] else rest
  {
    hide Proper, Reports, NextShort, NextLong;
    var argv := [program] + RenderAll(c, words) + rest;
    assert argv[1..] == RenderAll(c, words) + rest;
    t := WordsRead(c, argv, 1, words, rest, Vars(None, 0, None, map[]));
    assert argv[t.optind..] == rest;
    if rest != [] {
      assert argv[t.optind] == argv[t.optind..][0] == rest[0];
      assert argv[t.optind + 1..] == argv[t.optind..][1..];
    }
  }

  /** The letter is followed by two colons: its argument may be missing. */
  predicate MayTakeArgument(c: Config, x: char)
  {
    var i := IndexOf(c.optstring, x);
    IsLetter(c, x) && i + 2 < |c.optstring| && c.optstring[i + 1] == ':' && c.optstring[i + 2] == ':'
  }

  /** What two colons ask for: the text attached to the letter is its argument; without any it has none. */
  function OptionalMeaning(argv: seq<string>, s: State): (int, State)
    requires s.optind < |argv| && s.pos < |argv[s.optind]|
  {
    var word := argv[s.optind];
    var x := word[s.pos];
    var optarg := if s.pos + 1 < |word| then Some(word[s.pos + 1..]) else None;
    (x as int, State(s.optind + 1, 1, s.vars.(optopt := x as int, optarg := optarg)))
  }

  /** What one colon asks for when nothing is attached: the next element, without which it is an error. */
  function TakenNext(c: Config, argv: seq<string>, s: State): (int, State)
    requires s.optind < |argv| && s.pos < |argv[s.optind]| && c.optstring != ""
  {
    var x := argv[s.optind][s.pos];
    var v := s.vars.(optopt := x as int);
    if s.optind + 1 < |argv| then (x as int, State(s.optind + 2, 1, v.(optarg := Some(argv[s.optind + 1]))))
    else (if c.optstring[0] == ':' then MISSING else UNKNOWN, State(s.optind + 1, 1, v))
  }

  /** The code reads two colons as one. That makes no difference if and only if text is attached, or the
      letter is a '?' at the end of the line, whose missing argument is reported by the same character.
      Otherwise the next element is taken, even when it is an operand, and at the end of the line that
      is an error. */
  lemma TwoColonsExactly(c: Config, argv: seq<string>, s: State)
    requires Ready(argv, s) && s.optind < |argv| && IsGroup(argv[s.optind])
    requires MayTakeArgument(c, argv[s.optind][s.pos])
    ensures var x := argv[s.optind][s.pos];
      Next(c, argv, s) == OptionalMeaning(argv, s) <==>
        s.pos + 1 < |argv[s.optind]|
        || (x == '?' && c.optstring[0] != ':' && s.optind + 1 == |argv| && s.vars.optarg == None)
    ensures s.pos + 1 == |argv[s.optind]| ==> Next(c, argv, s) == TakenNext(c, argv, s)
  {
    hide IndexOf, Next;
    ShortNext(c, argv, s.optind, s.pos, s.vars);
    assert s == State(s.optind, s.pos, s.vars);
  }

  // ---------- What one call reports ----------

  /** Without an element, at an operand and behind a "--" the calls end; only the "--" is passed. */
  lemma EndReports(c: Config, argv: seq<string>, s: State)
    requires Ready(argv, s)
    ensures s.optind >= |argv| ==> Next(c, argv, s) == (-1, s)
    ensures s.optind < |argv| && (argv[s.optind] == "" || argv[s.optind][0] != '-' || argv[s.optind] == "-") ==>
      Next(c, argv, s) == (-1, s)
    ensures s.optind < |argv| && argv[s.optind] == "--" ==> Next(c, argv, s) == (-1, State(s.optind + 1, s.pos, s.vars))
  {
  }

  lemma PlaceOf(s: string, x: char, i: nat)
    requires i < |s| && s[i] == x && x !in s[..i]
    ensures IndexOf(s, x) == i
  {
    forall k | 0 <= k < i ensures s[k] != x {
      assert s[..i][k] == s[k];
    }
  }

  /** A letter that is not in the option string, or a colon, is answered by '?'. */
  lemma UnknownLetter(c: Config, argv: seq<string>, s: State)
    requires Ready(argv, s) && s.optind < |argv| && IsGroup(argv[s.optind])
    requires argv[s.optind][s.pos] == ':' || argv[s.optind][s.pos] !in c.optstring
    ensures var word := argv[s.optind]; var v := s.vars.(optopt := word[s.pos] as int);
      Next(c, argv, s) ==
        ('?' as int, if s.pos + 1 == |word| then State(s.optind + 1, 1, v) else State(s.optind, s.pos + 1, v))
  {
    hide Next;
    ShortNext(c, argv, s.optind, s.pos, s.vars);
    assert s == State(s.optind, s.pos, s.vars);
  }

  /** A letter at place i of the option string is returned. Without a colon behind it there it has no argument;
      with one, its argument is the rest of the element, else the next element, and without either it is
      answered by ':' if the option string begins with a colon, and by '?' if not. */
  lemma LetterReports(c: Config, argv: seq<string>, s: State, x: char, i: nat)
    requires Ready(argv, s) && s.optind < |argv| && IsGroup(argv[s.optind]) && x == argv[s.optind][s.pos]
    requires i < |c.optstring| && c.optstring[i] == x != ':' && x !in c.optstring[..i]
    ensures var word := argv[s.optind]; var v := s.vars.(optopt := x as int);
      Next(c, argv, s) ==
        if i + 1 == |c.optstring| || c.optstring[i + 1] != ':' then
          (x as int, State(if s.pos + 1 == |word| then s.optind + 1 else s.optind,
                           if s.pos + 1 == |word| then 1 else s.pos + 1, v.(optarg := None)))
        else if s.pos + 1 < |word| then (x as int, State(s.optind + 1, 1, v.(optarg := Some(word[s.pos + 1..]))))
        else if s.optind + 1 < |argv| then (x as int, State(s.optind + 2, 1, v.(optarg := Some(argv[s.optind + 1]))))
        else (if c.optstring[0] == ':' then ':' as int else '?' as int, State(s.optind + 1, 1, v))
  {
    hide Next, IndexOf;
    PlaceOf(c.optstring, x, i);
    ShortNext(c, argv, s.optind, s.pos, s.vars);
    assert s == State(s.optind, s.pos, s.vars);
  }

  /** The element spells a long option, with text behind a '=' or without. */
  ghost predicate Spells(word: string, name: string, text: Option<string>)
  {
    '=' !in name && word == match text case None => "--" + name case Some(x) => "--" + name + "=" + x
  }

  lemma SpelledParts(word: string, name: string, text: Option<string>)
    requires Spells(word, name, text)
    ensures |word| >= 2 && word[..2] == "--"
    ensures var arg := word[2..]; var len := IndexOf(arg, '=');
      len == |name| && arg[..len] == name && (len < |arg| <==> text.Some?)
      && (text.Some? ==> arg[len + 1..] == text.value)
  {
    var arg := word[2..];
    match text {
      case None =>
        assert arg == name && arg[..|name|] == name;
      case Some(x) =>
        assert arg == name + "=" + x && arg[..|name|] == name && arg[|name|] == '=';
        PlaceOf(arg, '=', |name|);
    }
  }

  lemma SpelledNext(c: Config, argv: seq<string>, s: State, name: string, text: Option<string>)
    requires Ready(argv, s) && s.optind < |argv| && Spells(argv[s.optind], name, text) && |argv[s.optind]| > 2
    ensures Next(c, argv, s) == NextLong(c, argv, s)
  {
    hide NextLong, NextShort, IndexOf;
    SpelledParts(argv[s.optind], name, text);
    assert argv[s.optind][..2][0] == '-' && argv[s.optind][..2][1] == '-';
  }

  /** A name that no long option has is answered by '?', and optopt is 0. */
  lemma UnknownLong(c: Config, argv: seq<string>, s: State, name: string, text: Option<string>)
    requires Ready(argv, s) && s.optind < |argv| && Spells(argv[s.optind], name, text) && |argv[s.optind]| > 2
    requires forall k :: 0 <= k < |c.longopts| ==> c.longopts[k].name != name
    ensures Next(c, argv, s) == ('?' as int, State(s.optind + 1, s.pos, s.vars.(optopt := 0)))
  {
    hide Next, IndexOf;
    SpelledNext(c, argv, s, name, text);
    SpelledParts(argv[s.optind], name, text);
    NotFound(c.longopts, name);
  }

  /** The first long option of the name, number i. One that takes no argument ignores a text; one that may takes
      the text only; one that must takes the next element when there is no text, and without one it is
      answered by '?'. Otherwise the result is its value, or 0 if the value goes to a flag. */
  lemma LongReports(c: Config, argv: seq<string>, s: State, name: string, text: Option<string>, i: nat)
    requires Ready(argv, s) && s.optind < |argv| && Spells(argv[s.optind], name, text) && |argv[s.optind]| > 2
    requires i < |c.longopts| && c.longopts[i].name == name && forall k :: 0 <= k < i ==> c.longopts[k].name != name
    ensures var o := c.longopts[i];
      var v := if c.wantIndex then s.vars.(longindex := Some(i)) else s.vars;
      var taken := o.hasArg == Required && text.None?;
      Next(c, argv, s) ==
        if taken && s.optind + 1 == |argv| then ('?' as int, State(s.optind + 1, s.pos, v))
        else
          var optarg := if o.hasArg == NoArgument then None else if taken then Some(argv[s.optind + 1]) else text;
          var w := v.(optarg := optarg);
          (if o.flag.None? then o.val else 0,
           State(if taken then s.optind + 2 else s.optind + 1, s.pos,
                 if o.flag.None? then w else w.(flags := w.flags[o.flag.value := o.val])))
  {
    hide Next, IndexOf;
    SpelledNext(c, argv, s, name, text);
    SpelledParts(argv[s.optind], name, text);
    FoundAt(c.longopts, name, i);
  }
}
