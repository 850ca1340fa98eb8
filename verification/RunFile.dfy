/** The self-extracting .run file: a shell header, then the payload, and the reader of its header.
    A file is a string of characters below 256. The fixed text of the header is a parameter. */
module RunFile {
  import opened Common

  const PLACEHOLDER: string := "__PLACEHOLDER__"

  // ---------- Text ----------

  function CountLines(s: string): nat
  {
    if s == [] then 0 else (if s[0] == '\n' then 1 else 0) + CountLines(s[1..])
  }

  /** What `tail -n +(k + 1)` prints: everything behind the k-th newline. */
  function DropLines(s: string, k: nat): string
  {
    if k == 0 || s == [] then s
    else if s[0] == '\n' then DropLines(s[1..], k - 1)
    else DropLines(s[1..], k)
  }

  lemma {:induction false} DropCounted(a: string, b: string)
    requires a == [] || a[|a| - 1] == '\n'
    ensures DropLines(a + b, CountLines(a)) == b
  {
    if a == [] {
      assert a + b == b;
    } else {
      assert (a + b)[1..] == a[1..] + b;
      if |a| > 1 {
        assert a[1..][|a| - 2] == '\n';
        LastLineCounts(a[1..]);
      }
      DropCounted(a[1..], b);
    }
  }

  lemma {:induction false} LastLineCounts(a: string)
    requires a != [] && a[|a| - 1] == '\n'
    ensures CountLines(a) >= 1
  {
    if |a| > 1 {
      LastLineCounts(a[1..]);
    }
  }

  lemma {:induction false} CountAppend(a: string, b: string)
    ensures CountLines(a + b) == CountLines(a) + CountLines(b)
  {
    if a == [] {
      assert a + b == b;
    } else {
      assert (a + b)[1..] == a[1..] + b;
      CountAppend(a[1..], b);
    }
  }

  lemma {:induction false} NoLines(s: string)
    requires '\n' !in s
    ensures CountLines(s) == 0
  {
    if s != [] {
      assert s[0] in s;
      NoLines(s[1..]);
    }
  }

  /** s.replace(PLACEHOLDER, digits) */
  function Substitute(s: string, digits: string): string
  {
    if s == [] then []
    else if PLACEHOLDER <= s then digits + Substitute(s[|PLACEHOLDER|..], digits)
    else [s[0]] + Substitute(s[1..], digits)
  }

  /** The placeholder occurs in s. */
  predicate Holds(s: string)
  {
    s != [] && (PLACEHOLDER <= s || Holds(s[1..]))
  }

  lemma {:induction false} SubstituteNothing(s: string, digits: string)
    requires !Holds(s)
    ensures Substitute(s, digits) == s
  {
    if s != [] {
      SubstituteNothing(s[1..], digits);
    }
  }

  lemma {:induction false} SubstituteShrinks(s: string, digits: string)
    requires |digits| < |PLACEHOLDER|
    ensures |Substitute(s, digits)| <= |s|
    ensures Holds(s) ==> |Substitute(s, digits)| < |s|
    decreases |s|
  {
    if s != [] {
      if PLACEHOLDER <= s {
        SubstituteShrinks(s[|PLACEHOLDER|..], digits);
      } else {
        SubstituteShrinks(s[1..], digits);
      }
    }
  }

  /** A name survives the substitution exactly when the placeholder does not occur in it. */
  lemma SubstituteKeeps(s: string, digits: string)
    requires |digits| < |PLACEHOLDER|
    ensures Substitute(s, digits) == s <==> !Holds(s)
  {
    SubstituteShrinks(s, digits);
    if !Holds(s) {
      SubstituteNothing(s, digits);
    }
  }

  lemma PlaceholderIsOneLine()
    ensures CountLines(PLACEHOLDER) == 0
  {
    NoLines(PLACEHOLDER);
  }

  lemma {:induction false} SubstituteCounts(s: string, digits: string)
    requires '\n' !in digits
    ensures CountLines(Substitute(s, digits)) == CountLines(s)
    decreases |s|
  {
    if s != [] {
      if PLACEHOLDER <= s {
        var rest := s[|PLACEHOLDER|..];
        assert s == PLACEHOLDER + rest;
        SubstituteCounts(rest, digits);
        CountAppend(digits, Substitute(rest, digits));
        CountAppend(PLACEHOLDER, rest);
        NoLines(digits);
        PlaceholderIsOneLine();
      } else {
        SubstituteCounts(s[1..], digits);
        assert ([s[0]] + Substitute(s[1..], digits))[1..] == Substitute(s[1..], digits);
      }
    }
  }

  /** The decimal digits of n. */
  function Digits(n: nat): (r: string)
    ensures r != [] && forall i :: 0 <= i < |r| ==> '0' <= r[i] <= '9'
  {
    if n < 10 then ['0' + n as char] else Digits(n / 10) + ['0' + (n % 10) as char]
  }

  predicate IsSpace(c: char)
  {
    c == ' ' || 9 <= (c as int) <= 13 || 28 <= (c as int) <= 31
  }

  function StripLeft(s: string): string
  {
    if s != [] && IsSpace(s[0]) then StripLeft(s[1..]) else s
  }

  function StripRight(s: string): string
  {
    if s != [] && IsSpace(s[|s| - 1]) then StripRight(s[..|s| - 1]) else s
  }

  function Strip(s: string): string
  {
    StripRight(StripLeft(s))
  }

  /** Digits, between which single underscores may stand. */
  function ParseDigits(s: string): Option<nat>
  {
    if s == [] || !('0' <= s[|s| - 1] <= '9') then None
    else
      var digit := (s[|s| - 1] - '0') as nat;
      if |s| == 1 then Some(digit)
      else
        match ParseDigits(if s[|s| - 2] == '_' then s[..|s| - 2] else s[..|s| - 1])
        case None => None
        case Some(high) => Some(high * 10 + digit)
  }

  function Signed(negative: bool, n: Option<nat>): Option<int>
  {
    match n
    case None => None
    case Some(m) => Some(if negative then -(m as int) else m)
  }

  /** What int() skips around a number: fewer characters than strip() does. */
  predicate IsBlank(c: char)
  {
    c == ' ' || 9 <= (c as int) <= 13
  }

  function TrimLeft(s: string): string
  {
    if s != [] && IsBlank(s[0]) then TrimLeft(s[1..]) else s
  }

  function TrimRight(s: string): string
  {
    if s != [] && IsBlank(s[|s| - 1]) then TrimRight(s[..|s| - 1]) else s
  }

  /** int() of an ASCII string: blanks around it, a sign, and digits; None when it raises. */
  function ParseInt(s: string): Option<int>
  {
    var t := TrimRight(TrimLeft(s));
    if t != [] && t[0] == '-' then Signed(true, ParseDigits(t[1..]))
    else if t != [] && t[0] == '+' then Signed(false, ParseDigits(t[1..]))
    else Signed(false, ParseDigits(t))
  }

  lemma {:induction false} DigitsParse(n: nat)
    ensures ParseDigits(Digits(n)) == Some(n)
  {
    if n >= 10 {
      DigitsParse(n / 10);
      var s := Digits(n);
      assert s[..|s| - 1] == Digits(n / 10);
    }
  }

  lemma IntOfDigits(n: nat)
    ensures ParseInt(Digits(n)) == Some(n)
  {
    var s := Digits(n);
    assert TrimLeft(s) == s && TrimRight(s) == s;
    DigitsParse(n);
  }

  // ---------- What strip() and int() do ----------

  /** The white space that strip() takes off: tab to carriage return, the four separators, and the blank. */
  ghost predicate White(c: char)
  {
    (c as int) in {9, 10, 11, 12, 13, 28, 29, 30, 31, 32}
  }

  /** What is left begins and ends with something else, and only white space has gone. */
  lemma StripExactly(s: string) returns (a: nat, b: nat)
    ensures a <= b <= |s| && Strip(s) == s[a..b]
    ensures (forall i :: 0 <= i < a ==> White(s[i])) && (forall i :: b <= i < |s| ==> White(s[i]))
    ensures a < b ==> !White(s[a]) && !White(s[b - 1])
  {
    a := LeftEnd(s);
    var t := StripLeft(s);
    var n := RightEnd(t);
    b := a + n;
    assert t[..n] == s[a..b];
    forall i | b <= i < |s| ensures White(s[i]) {
      assert s[i] == t[i - a];
    }
  }

  lemma {:induction false} LeftEnd(s: string) returns (a: nat)
    ensures a <= |s| && StripLeft(s) == s[a..] && (a < |s| ==> !White(s[a])) && forall i :: 0 <= i < a ==> White(s[i])
  {
    if s != [] && IsSpace(s[0]) {
      a := LeftEnd(s[1..]);
      a := a + 1;
    } else {
      a := 0;
    }
  }

  lemma {:induction false} RightEnd(s: string) returns (b: nat)
    ensures b <= |s| && StripRight(s) == s[..b] && (b > 0 ==> !White(s[b - 1]))
    ensures forall i :: b <= i < |s| ==> White(s[i])
  {
    if s != [] && IsSpace(s[|s| - 1]) {
      b := RightEnd(s[..|s| - 1]);
    } else {
      b := |s|;
    }
  }

  /** What int() takes off: tab to carriage return, and the blank. */
  ghost predicate Blank(c: char)
  {
    (c as int) in {9, 10, 11, 12, 13, 32}
  }

  lemma {:induction false} TrimPrefix(p: string, t: string)
    requires (forall i :: 0 <= i < |p| ==> Blank(p[i])) && (t != [] ==> !Blank(t[0]))
    ensures TrimLeft(p + t) == t
  {
    if p == [] {
      assert p + t == t;
    } else {
      assert (p + t)[1..] == p[1..] + t;
      TrimPrefix(p[1..], t);
    }
  }

  lemma {:induction false} TrimSuffix(t: string, q: string)
    requires (forall i :: 0 <= i < |q| ==> Blank(q[i])) && (t != [] ==> !Blank(t[|t| - 1]))
    ensures TrimRight(t + q) == t
  {
    if q == [] {
      assert t + q == t;
    } else {
      assert (t + q)[..|t + q| - 1] == t + q[..|q| - 1];
      TrimSuffix(t, q[..|q| - 1]);
    }
  }

  ghost predicate IsDigit(c: char)
  {
    48 <= c as int <= 57
  }

  /** Digits, with single underscores between them. */
  ghost predicate IsNumeral(s: string)
  {
    && s != [] && IsDigit(s[0]) && IsDigit(s[|s| - 1])
    && forall i :: 0 < i < |s| - 1 ==> InNumeral(s, i)
  }

  /** A digit, or an underscore between digits. */
  ghost predicate InNumeral(s: string, i: nat)
    requires 0 < i < |s| - 1
  {
    IsDigit(s[i]) || (s[i] as int == 95 && IsDigit(s[i - 1]) && IsDigit(s[i + 1]))
  }

  /** The decimal value of the digits. */
  ghost function Value(s: string): nat
  {
    if s == [] then 0
    else
      var high, c := Value(s[..|s| - 1]), s[|s| - 1];
      if IsDigit(c) then high * 10 + (c as int - 48) else high
  }

  lemma {:induction false} ParseDigitsExactly(s: string)
    ensures ParseDigits(s) == if IsNumeral(s) then Some(Value(s)) else None
    decreases |s|
  {
    if |s| > 1 && IsDigit(s[|s| - 1]) {
      var t := s[..|s| - 1];
      if s[|s| - 2] == '_' {
        var u := s[..|s| - 2];
        ParseDigitsExactly(u);
        assert t[..|t| - 1] == u && Value(t) == Value(u);
        NumeralSkips(s, u);
      } else {
        ParseDigitsExactly(t);
        NumeralGrows(s, t);
      }
    }
  }

  lemma NumeralSkips(s: string, u: string)
    requires |s| > 1 && u == s[..|s| - 2] && s[|s| - 2] == '_' && IsDigit(s[|s| - 1])
    ensures IsNumeral(s) <==> IsNumeral(u)
  {
    var n := |s| - 2;
    if IsNumeral(s) {
      if n > 0 {
        assert InNumeral(s, n);
      }
      forall i | 0 < i < |u| - 1 ensures InNumeral(u, i) {
        assert InNumeral(s, i);
      }
    }
    if IsNumeral(u) {
      forall i | 0 < i < |s| - 1 ensures InNumeral(s, i) {
        if i < n - 1 {
          assert InNumeral(u, i);
        }
      }
    }
  }

  lemma NumeralGrows(s: string, t: string)
    requires |s| > 1 && t == s[..|s| - 1] && s[|s| - 2] != '_' && IsDigit(s[|s| - 1])
    ensures IsNumeral(s) <==> IsNumeral(t)
  {
    var n := |s| - 2;
    if IsNumeral(s) {
      if n > 0 {
        assert InNumeral(s, n);
      }
      forall i | 0 < i < |t| - 1 ensures InNumeral(t, i) {
        assert InNumeral(s, i);
      }
    }
    if IsNumeral(t) {
      forall i | 0 < i < |s| - 1 ensures InNumeral(s, i) {
        if i < n {
          assert InNumeral(t, i);
        }
      }
    }
  }

  /** int() takes blanks, a sign, a numeral and blanks, and nothing else; s is without the blanks. */
  lemma IntExactly(p: string, s: string, q: string)
    requires (forall i :: 0 <= i < |p| ==> Blank(p[i])) && (forall i :: 0 <= i < |q| ==> Blank(q[i]))
    requires s != [] ==> !Blank(s[0]) && !Blank(s[|s| - 1])
    ensures ParseInt(p + s + q) ==
      if s != [] && s[0] as int == 45 then (if IsNumeral(s[1..]) then Some(-(Value(s[1..]) as int)) else None)
      else if s != [] && s[0] as int == 43 then (if IsNumeral(s[1..]) then Some(Value(s[1..])) else None)
      else if IsNumeral(s) then Some(Value(s)) else None
  {
    hide ParseDigits, IsNumeral, Value, TrimLeft, TrimRight;
    assert p + s + q == p + (s + q);
    if s == [] {
      TrimPrefix(p + q, s);
      assert p + q + s == p + s + q;
      TrimSuffix(s, []);
      assert s + [] == s;
    } else {
      TrimPrefix(p, s + q);
      TrimSuffix(s, q);
      ParseDigitsExactly(s[1..]);
    }
    ParseDigitsExactly(s);
  }

  // ---------- The header ----------

  const SKIP_KEY: string := "SKIP="
  const BUNDLE_KEY: string := "BUNDLE=\""

  /** The fixed text: the first line, what stands around the names, a line of comment, and the commands. */
  datatype Template = Template(
    shell: string, title: string, run: string, runEnd: string, extract: string, extractEnd: string,
    defaults: string, commands: seq<string>)

  /** A line the reader passes over. */
  predicate PlainLine(line: string)
  {
    line != [] && '\n' !in line && !IsSpace(line[0]) && (line[0] as int) < 128 && line[0] != 'S' && line[0] != 'B'
  }

  /** A line or a text in front of a name. */
  predicate Opens(s: string)
  {
    PlainLine(s) && s[|s| - 1] !in PLACEHOLDER && !Holds(s[..|s| - 1])
  }

  /** A text behind a name. */
  predicate Closes(s: string)
  {
    '\n' !in s && (s == [] || (s[0] !in PLACEHOLDER && !Holds(s[1..])))
  }

  predicate Fixed(line: string)
  {
    PlainLine(line) && !Holds(line)
  }

  const COMMANDS: nat := 19

  /** What writer and reader need of the fixed text: lines that the reader passes over, without the
      placeholder, which does not run on into a name either. */
  predicate Fits(t: Template)
  {
    && Fixed(t.shell) && Opens(t.title) && Opens(t.run) && Closes(t.runEnd) && Opens(t.extract) && Closes(t.extractEnd)
    && Fixed(t.defaults) && |t.commands| == COMMANDS && forall i :: 0 <= i < COMMANDS ==> Fixed(t.commands[i])
  }

  /** The header, with the line number as a string. */
  function HeaderLines(t: Template, display: string, filename: string, bundle: string, number: string): (r: seq<string>)
    ensures |r| == 7 + |t.commands| && r[7..] == t.commands
  {
    [t.shell,
     t.title + display,
     t.run + filename + t.runEnd,
     t.extract + filename + t.extractEnd,
     t.defaults,
     BUNDLE_KEY + bundle + "\"",
     SKIP_KEY + number] + t.commands
  }

  function Join(lines: seq<string>): (r: string)
    ensures lines != [] ==> r != [] && r[|r| - 1] == '\n'
  {
    if lines == [] then [] else lines[0] + "\n" + Join(lines[1..])
  }

  lemma JoinCount(lines: seq<string>)
    requires lines != []
    ensures CountLines(Join(lines)) == CountLines(lines[0]) + 1 + CountLines(Join(lines[1..]))
  {
    CountAppend(lines[0] + "\n", Join(lines[1..]));
    CountAppend(lines[0], "\n");
    assert CountLines("\n") == 1 + CountLines([]);
  }

  /** With the fixed text of the original the header begins like this. */
  lemma HeaderReads(t: Template, display: string, filename: string, bundle: string, number: string)
    requires t.shell == "#!/bin/sh" && t.title == "# Mogrix self-extracting bundle: " && t.run == "# Run:  sh "
    requires t.runEnd == " [install_dir]" && t.extract == "# Extract only:  sh "
    requires t.extractEnd == " --extract-only [dir]" && t.defaults == "# install_dir defaults to current directory"
    ensures Join(HeaderLines(t, display, filename, bundle, number)) ==
      "#!/bin/sh\n" + ("# Mogrix self-extracting bundle: " + display + "\n"
      + ("# Run:  sh " + filename + " [install_dir]\n"
      + ("# Extract only:  sh " + filename + " --extract-only [dir]\n"
      + ("# install_dir defaults to current directory\n"
      + ("BUNDLE=\"" + bundle + "\"\n" + ("SKIP=" + number + "\n" + Join(t.commands)))))))
  {
    var lines := HeaderLines(t, display, filename, bundle, number);
    forall k: nat | k < 7 {
      JoinNext(lines, k);
    }
    hide Join;
    assert lines[0..] == lines && lines[7..] == t.commands;
    assert lines[2] + "\n" == "# Run:  sh " + filename + " [install_dir]\n";
    assert lines[3] + "\n" == "# Extract only:  sh " + filename + " --extract-only [dir]\n";
    assert lines[4] + "\n" == "# install_dir defaults to current directory\n";
    assert lines[5] + "\n" == "BUNDLE=\"" + bundle + "\"\n";
    assert Join(lines[6..]) == "SKIP=" + number + "\n" + Join(lines[7..]);
    assert Join(lines[5..]) == lines[5] + "\n" + Join(lines[6..]);
    assert Join(lines[4..]) == lines[4] + "\n" + Join(lines[5..]);
    assert Join(lines[3..]) == lines[3] + "\n" + Join(lines[4..]);
    assert Join(lines[2..]) == lines[2] + "\n" + Join(lines[3..]);
    assert Join(lines[1..]) == lines[1] + "\n" + Join(lines[2..]);
    assert Join(lines[0..]) == lines[0] + "\n" + Join(lines[1..]);
  }

  lemma JoinNext(lines: seq<string>, k: nat)
    requires k < |lines|
    ensures Join(lines[k..]) == lines[k] + "\n" + Join(lines[k + 1..])
  {
    assert lines[k..][1..] == lines[k + 1..];
  }

  /** The header with the placeholder still in it, of which the original counts the lines. */
  function Draft(t: Template, display: string, filename: string, bundle: string): string
  {
    Join(HeaderLines(t, display, filename, bundle, PLACEHOLDER))
  }

  /** The header as it is written: the placeholder is replaced everywhere, also inside the names. */
  function Written(t: Template, display: string, filename: string, bundle: string): string
  {
    var draft := Draft(t, display, filename, bundle);
    Substitute(draft, Digits(CountLines(draft) + 1))
  }

  // ---------- The replacement in the whole header ----------

  lemma {:induction false} SubstituteSplits(a: string, c: char, b: string, digits: string)
    requires c !in PLACEHOLDER
    ensures Substitute(a + [c] + b, digits) == Substitute(a, digits) + [c] + Substitute(b, digits)
    decreases |a|
  {
    var s := a + [c] + b;
    if a == [] {
      assert s[0] == c && s[1..] == b;
      assert PLACEHOLDER[0] != c;
      assert !(PLACEHOLDER <= s);
    } else if PLACEHOLDER <= a {
      assert s[|PLACEHOLDER|..] == a[|PLACEHOLDER|..] + [c] + b;
      SubstituteSplits(a[|PLACEHOLDER|..], c, b, digits);
    } else {
      assert |a| < |PLACEHOLDER| ==> s[|a|] != PLACEHOLDER[|a|];
      assert a == s[..|a|];
      assert !(PLACEHOLDER <= s);
      assert s[1..] == a[1..] + [c] + b;
      SubstituteSplits(a[1..], c, b, digits);
    }
  }

  /** A name between fixed texts: only the name changes. */
  lemma SubstituteFramed(before: string, name: string, after: string, digits: string)
    requires before != [] && before[|before| - 1] !in PLACEHOLDER && !Holds(before[..|before| - 1])
    requires after == [] || (after[0] !in PLACEHOLDER && !Holds(after[1..]))
    ensures Substitute(before + name + after, digits) == before + Substitute(name, digits) + after
  {
    hide Holds, Substitute;
    var front, c := before[..|before| - 1], before[|before| - 1];
    assert before == front + [c];
    SubstituteNothing(front, digits);
    SubstituteSplits(front, c, name, digits);
    if after == [] {
      assert before + name + after == front + [c] + name;
    } else {
      SubstituteNothing(after[1..], digits);
      SubstituteSplits(before + name, after[0], after[1..], digits);
      assert before + name + after == (before + name) + [after[0]] + after[1..];
      assert before + name == front + [c] + name;
    }
  }

  lemma {:induction false} SubstituteJoin(a: seq<string>, b: seq<string>, digits: string)
    requires |a| == |b| && forall i :: 0 <= i < |a| ==> Substitute(a[i], digits) == b[i]
    ensures Substitute(Join(a), digits) == Join(b)
  {
    if a != [] {
      assert '\n' !in PLACEHOLDER;
      SubstituteSplits(a[0], '\n', Join(a[1..]), digits);
      assert Join(a) == a[0] + ['\n'] + Join(a[1..]);
      SubstituteJoin(a[1..], b[1..], digits);
    }
  }

  lemma SubstituteNumber(digits: string)
    ensures Substitute(SKIP_KEY + PLACEHOLDER, digits) == SKIP_KEY + digits
  {
    SubstituteSplits("SKIP", '=', PLACEHOLDER, digits);
    SubstituteNothing("SKIP", digits);
    assert SKIP_KEY + PLACEHOLDER == "SKIP" + ['='] + PLACEHOLDER;
    assert PLACEHOLDER[|PLACEHOLDER|..] == [];
    assert Substitute(PLACEHOLDER, digits) == digits + [];
  }

  lemma SubstituteBundle(bundle: string, digits: string)
    ensures Substitute(BUNDLE_KEY + bundle + "\"", digits) == BUNDLE_KEY + Substitute(bundle, digits) + "\""
  {
    var key := BUNDLE_KEY[..|BUNDLE_KEY| - 1];
    assert forall i :: 0 <= i < |key| ==> key[i] != '_';
    NoUnderscore(key);
    assert BUNDLE_KEY[|BUNDLE_KEY| - 1] == '\"' && '\"' !in PLACEHOLDER && "\""[1..] == [] && !Holds([]);
    hide Substitute, Holds, PLACEHOLDER;
    SubstituteFramed(BUNDLE_KEY, bundle, "\"", digits);
  }

  lemma {:induction false} NoUnderscore(s: string)
    requires forall i :: 0 <= i < |s| ==> s[i] != '_'
    ensures !Holds(s)
  {
    if s != [] {
      assert PLACEHOLDER[0] == '_';
      NoUnderscore(s[1..]);
    }
  }

  /** The names stand between characters that the placeholder does not contain, so replacing it in the
      whole header is replacing it in each name and in the line that is to hold the number. */
  lemma ReplacesInNames(t: Template, display: string, filename: string, bundle: string, digits: string)
    requires Fits(t)
    ensures Substitute(Draft(t, display, filename, bundle), digits)
         == Join(HeaderLines(t, Substitute(display, digits), Substitute(filename, digits), Substitute(bundle, digits),
             digits))
  {
    hide Substitute, Holds, Join, PLACEHOLDER, BUNDLE_KEY, SKIP_KEY;
    var a := HeaderLines(t, display, filename, bundle, PLACEHOLDER);
    var b := HeaderLines(t, Substitute(display, digits), Substitute(filename, digits), Substitute(bundle, digits),
        digits);
    SubstituteNothing(t.shell, digits);
    SubstituteNothing(t.defaults, digits);
    SubstituteFramed(t.title, display, "", digits);
    assert t.title + display + "" == a[1] && t.title + Substitute(display, digits) + "" == b[1];
    SubstituteFramed(t.run, filename, t.runEnd, digits);
    SubstituteFramed(t.extract, filename, t.extractEnd, digits);
    SubstituteBundle(bundle, digits);
    SubstituteNumber(digits);
    forall i | 0 <= i < |a| ensures Substitute(a[i], digits) == b[i] {
      if i >= 7 {
        assert a[i] == t.commands[i - 7] && b[i] == t.commands[i - 7] && Fixed(t.commands[i - 7]);
        SubstituteNothing(t.commands[i - 7], digits);
      }
    }
    SubstituteJoin(a, b, digits);
  }

  // ---------- Writing ----------

  predicate IsAscii(s: string)
  {
    forall i :: 0 <= i < |s| ==> (s[i] as int) < 128
  }

  method CountNewlines(s: string) returns (n: nat)
    ensures n == CountLines(s)
  {
    n := 0;
    var i := 0;
    while i < |s|
      invariant i <= |s| && n + CountLines(s[i..]) == CountLines(s)
    {
      if s[i] == '\n' {
        n := n + 1;
      }
      i := i + 1;
    }
  }

  const CHUNK: nat := 65536

  /** What is in the file afterwards, and whether encoding the header raised. The file is opened before,
      so it is empty then. */
  method CreateSelfExtracting(t: Template, display: string, filename: string, bundle: string, payload: string)
    returns (file: string, raised: bool)
    ensures raised <==> !IsAscii(Written(t, display, filename, bundle))
    ensures file == if raised then "" else Written(t, display, filename, bundle) + payload
  {
    hide Substitute, CountLines, HeaderLines, Digits;
    var draft := Draft(t, display, filename, bundle);
    var lineCount := CountNewlines(draft);
    var script := Substitute(draft, Digits(lineCount + 1));
    file := "";
    if !IsAscii(script) {
      return file, true;
    }
    file := script;
    var at := 0;
    while at < |payload|
      invariant at <= |payload| && file == script + payload[..at]
    {
      var end := if at + CHUNK < |payload| then at + CHUNK else |payload|;
      assert payload[..end] == payload[..at] + payload[at..end];
      file, at := file + payload[at..end], end;
    }
    assert payload[..|payload|] == payload;
    raised := false;
  }

  /** The header has as many lines as its draft, and it ends with one. */
  lemma WrittenLines(t: Template, display: string, filename: string, bundle: string)
    ensures var draft, script := Draft(t, display, filename, bundle), Written(t, display, filename, bundle);
      CountLines(script) == CountLines(draft) && script != [] && script[|script| - 1] == '\n'
  {
    hide HeaderLines, CountLines;
    var draft := Draft(t, display, filename, bundle);
    var digits := Digits(CountLines(draft) + 1);
    SubstituteCounts(draft, digits);
    assert draft == draft[..|draft| - 1] + ['\n'] + [];
    SubstituteSplits(draft[..|draft| - 1], '\n', [], digits);
  }

  /** Skipping to the line that the header names yields exactly the payload, whatever the names and the
      fixed text are. */
  lemma PayloadExtracts(t: Template, display: string, filename: string, bundle: string, payload: string)
    ensures DropLines(Written(t, display, filename, bundle) + payload,
      CountLines(Draft(t, display, filename, bundle))) == payload
  {
    hide Written, Draft;
    WrittenLines(t, display, filename, bundle);
    DropCounted(Written(t, display, filename, bundle), payload);
  }

  // ---------- Reading ----------

  /** The next line with its newline. */
  function FirstLine(s: string): (r: string)
    ensures r <= s && (s != [] ==> r != [])
  {
    if s == [] then [] else if s[0] == '\n' then [s[0]] else [s[0]] + FirstLine(s[1..])
  }

  /** raw.decode("ascii", errors="ignore") */
  function Decode(raw: string): string
  {
    if raw == [] then [] else (if (raw[0] as int) < 128 then [raw[0]] else []) + Decode(raw[1..])
  }

  /** Exactly the bytes from 128 on are left out. */
  lemma {:induction false} DecodeAppend(a: string, b: string)
    ensures Decode(a + b) == Decode(a) + Decode(b)
  {
    if a == [] {
      assert a + b == b;
    } else {
      assert (a + b)[1..] == a[1..] + b;
      DecodeAppend(a[1..], b);
    }
  }

  lemma DecodeOne(c: char)
    ensures Decode([c]) == if c as int >= 128 then [] else [c]
  {
  }

  /** The part of s before the first c. */
  function Before(s: string, c: char): string
  {
    if s == [] || s[0] == c then [] else [s[0]] + Before(s[1..], c)
  }

  lemma {:induction false} BeforeExactly(s: string, c: char, i: nat)
    requires i <= |s| && c !in s[..i] && (i < |s| ==> s[i] == c)
    ensures Before(s, c) == s[..i]
  {
    if i > 0 {
      assert s[..i][0] == s[0];
      assert s[1..][..i - 1] == s[..i][1..];
      BeforeExactly(s[1..], c, i - 1);
    }
  }

  datatype Reading = Reading(skip: Option<int>, bundle: Option<string>)

  /** The line as the reader sees it. */
  function Text(raw: string): string
  {
    Strip(Decode(raw))
  }

  predicate IsSkipLine(raw: string)
  {
    SKIP_KEY <= Text(raw)
  }

  predicate IsBundleLine(raw: string)
  {
    BUNDLE_KEY <= Text(raw)
  }

  /** The number in a SKIP line; None when it cannot be read. */
  function NumberIn(raw: string): Option<int>
    requires IsSkipLine(raw)
  {
    ParseInt(Before(Text(raw)[|SKIP_KEY|..], '='))
  }

  function NameIn(raw: string): string
    requires IsBundleLine(raw)
  {
    Before(Text(raw)[|BUNDLE_KEY|..], '\"')
  }

  /** The two kinds of lines that count, by how their text begins. */
  lemma KeysExactly(raw: string)
    ensures var s := Text(raw);
      && (IsSkipLine(raw) <==> |s| >= 5 && s[..5] == ['S', 'K', 'I', 'P', '='])
      && (IsBundleLine(raw) <==> |s| >= 8 && s[..8] == ['B', 'U', 'N', 'D', 'L', 'E', '=', '\"'])
  {
  }

  /** What one line of the file contributes; None when the number cannot be read. */
  function Look(raw: string, r: Reading): Option<Reading>
  {
    if IsSkipLine(raw) then
      match NumberIn(raw)
      case None => None
      case Some(n) => Some(r.(skip := Some(n)))
    else if IsBundleLine(raw) then Some(r.(bundle := Some(NameIn(raw))))
    else Some(r)
  }

  /** Look at up to n lines. */
  function ReadLines(file: string, n: nat, r: Reading): Option<Reading>
    decreases n
  {
    if n == 0 || file == [] then Some(r)
    else
      match Look(FirstLine(file), r)
      case None => None
      case Some(next) => ReadLines(file[|FirstLine(file)|..], n - 1, next)
  }

  const LIMIT: nat := 30

  /** The reader: the line number and the bundle name, or None when it raises. */
  method ExtractRunFile(file: string) returns (found: Option<(int, string)>)
    ensures found == match ReadLines(file, LIMIT, Reading(None, None))
                     case None => None
                     case Some(r) => if r.skip.Some? && r.bundle.Some? then Some((r.skip.value, r.bundle.value))
                         else None
  {
    hide Look, FirstLine;
    var r, rest, n := Reading(None, None), file, LIMIT;
    while n > 0 && rest != []
      invariant ReadLines(file, LIMIT, Reading(None, None)) == ReadLines(rest, n, r)
      decreases n
    {
      var raw := FirstLine(rest);
      var next := Look(raw, r);
      if next.None? {
        assert ReadLines(rest, n, r).None?;
        return None;
      }
      r, rest, n := next.value, rest[|raw|..], n - 1;
    }
    if r.skip.None? || r.bundle.None? {
      return None;
    }
    found := Some((r.skip.value, r.bundle.value));
  }

  // ---------- Reading what was written ----------

  lemma {:induction false} FirstLineOf(line: string, rest: string)
    requires '\n' !in line
    ensures FirstLine(line + "\n" + rest) == line + "\n"
  {
    var s := line + "\n" + rest;
    if line != [] {
      assert line[0] in line;
      assert s[1..] == line[1..] + "\n" + rest;
      FirstLineOf(line[1..], rest);
    }
  }

  lemma {:induction false} DecodeAscii(s: string)
    requires IsAscii(s)
    ensures Decode(s) == s
  {
    if s != [] {
      DecodeAscii(s[1..]);
    }
  }

  /** A line that begins with a visible character and ends with one loses just its newline. */
  lemma StripLine(line: string)
    requires line != [] && !IsSpace(line[0]) && !IsSpace(line[|line| - 1])
    ensures Strip(line + "\n") == line
  {
    var s := line + "\n";
    assert StripLeft(s) == s;
    assert s[|s| - 1] == '\n' && ('\n' as int) == 10;
    assert s[..|s| - 1] == line;
    assert StripRight(s) == StripRight(line);
  }

  lemma {:induction false} StripKeepsFirst(s: string)
    requires s != [] && !IsSpace(s[0])
    ensures StripRight(s) != [] && StripRight(s)[0] == s[0]
    decreases |s|
  {
    if IsSpace(s[|s| - 1]) {
      StripKeepsFirst(s[..|s| - 1]);
    }
  }

  lemma LookPlain(line: string, r: Reading)
    requires PlainLine(line)
    ensures Look(line + "\n", r) == Some(r)
  {
    var d := Decode(line + "\n");
    assert d[0] == line[0];
    assert StripLeft(d) == d;
    StripKeepsFirst(d);
  }

  lemma ReadOne(line: string, rest: string, n: nat, r: Reading)
    requires '\n' !in line && n > 0
    ensures ReadLines(line + "\n" + rest, n, r) ==
      match Look(line + "\n", r) case None => None case Some(next) => ReadLines(rest, n - 1, next)
  {
    FirstLineOf(line, rest);
    assert (line + "\n" + rest)[|line + "\n"|..] == rest;
  }

  lemma OnePlain(lines: seq<string>)
    requires lines != [] && forall i :: 0 <= i < |lines| ==> PlainLine(lines[i])
    ensures '\n' !in lines[0] && PlainLine(lines[0])
  {
  }

  lemma {:induction false} ReadPlain(lines: seq<string>, rest: string, n: nat, r: Reading)
    requires (forall i :: 0 <= i < |lines| ==> PlainLine(lines[i])) && |lines| <= n
    ensures ReadLines(Join(lines) + rest, n, r) == ReadLines(rest, n - |lines|, r)
    decreases |lines|
  {
    hide Look, ReadLines, PlainLine, FirstLine;
    if lines == [] {
      assert Join(lines) + rest == rest;
    } else {
      OnePlain(lines);
      LookPlain(lines[0], r);
      assert Join(lines) + rest == lines[0] + "\n" + (Join(lines[1..]) + rest);
      ReadOne(lines[0], Join(lines[1..]) + rest, n, r);
      ReadPlain(lines[1..], rest, n - 1, r);
    }
  }

  /** Names without newlines: a header of 26 lines. */
  ghost predicate OneLineNames(display: string, filename: string, bundle: string)
  {
    '\n' !in display && '\n' !in filename && '\n' !in bundle
  }

  lemma {:induction false} JoinedLines(lines: seq<string>)
    requires forall i :: 0 <= i < |lines| ==> '\n' !in lines[i]
    ensures CountLines(Join(lines)) == |lines|
  {
    if lines != [] {
      JoinCount(lines);
      NoLines(lines[0]);
      JoinedLines(lines[1..]);
    }
  }

  lemma LinesOf(t: Template, display: string, filename: string, bundle: string, number: string)
    requires Fits(t) && OneLineNames(display, filename, bundle) && '\n' !in number
    ensures forall line :: line in HeaderLines(t, display, filename, bundle, number) ==> '\n' !in line
    ensures forall i :: 0 <= i < 5 ==> PlainLine(HeaderLines(t, display, filename, bundle, number)[i])
  {
    hide Holds;
    var lines := HeaderLines(t, display, filename, bundle, number);
    assert '\n' !in BUNDLE_KEY && '\n' !in SKIP_KEY;
    assert PlainLine(lines[0]) && PlainLine(lines[1]) && PlainLine(lines[2]) && PlainLine(lines[3])
        && PlainLine(lines[4]);
    assert '\n' !in lines[5] && '\n' !in lines[6];
    forall line | line in lines ensures '\n' !in line {
      var i :| 0 <= i < |lines| && lines[i] == line;
      if i >= 7 {
        assert lines[i] == t.commands[i - 7] && Fixed(t.commands[i - 7]);
      }
    }
  }

  /** With names of one line each the header has 26 lines. */
  lemma DraftHas26Lines(t: Template, display: string, filename: string, bundle: string)
    requires Fits(t) && OneLineNames(display, filename, bundle)
    ensures CountLines(Draft(t, display, filename, bundle)) == 26 && Digits(27) == "27"
  {
    assert '\n' !in PLACEHOLDER && Digits(2) == "2";
    hide HeaderLines, Join, CountLines, PlainLine;
    LinesOf(t, display, filename, bundle, PLACEHOLDER);
    JoinedLines(HeaderLines(t, display, filename, bundle, PLACEHOLDER));
  }

  lemma {:induction false} SubstituteOneLine(s: string, digits: string)
    requires '\n' !in s && '\n' !in digits
    ensures '\n' !in Substitute(s, digits)
  {
    SubstituteCounts(s, digits);
    NoLines(s);
    CountsNone(Substitute(s, digits));
  }

  lemma {:induction false} CountsNone(s: string)
    requires CountLines(s) == 0
    ensures '\n' !in s
  {
    if s != [] {
      CountsNone(s[1..]);
    }
  }

  /** A further quote behind the text changes nothing. */
  lemma {:induction false} BeforeQuote(s: string, c: char)
    ensures Before(s + [c], c) == Before(s, c)
  {
    if s != [] {
      assert (s + [c])[1..] == s[1..] + [c];
      BeforeQuote(s[1..], c);
    }
  }

  lemma {:induction false} BeforeNothing(s: string, c: char)
    ensures c !in Before(s, c)
    ensures Before(s, c) == s <==> c !in s
  {
    if s != [] {
      assert s[0] in s;
      assert s == [s[0]] + s[1..];
      BeforeNothing(s[1..], c);
    }
  }

  lemma LookBundle(bundle: string, r: Reading)
    requires IsAscii(bundle)
    ensures Look(BUNDLE_KEY + bundle + "\"" + "\n", r) == Some(r.(bundle := Some(Before(bundle, '\"'))))
  {
    hide Before, Decode, Strip;
    var line := BUNDLE_KEY + bundle + "\"";
    assert IsAscii(line + "\n");
    DecodeAscii(line + "\n");
    StripLine(line);
    assert line[|BUNDLE_KEY|..] == bundle + ['\"'];
    BeforeQuote(bundle, '\"');
  }

  lemma LookNumber(n: nat, r: Reading)
    ensures Look(SKIP_KEY + Digits(n) + "\n", r) == Some(r.(skip := Some(n)))
  {
    hide Before, Decode, Strip, ParseInt, Digits;
    var line := SKIP_KEY + Digits(n);
    assert IsAscii(line + "\n");
    DecodeAscii(line + "\n");
    StripLine(line);
    assert line[|SKIP_KEY|..] == Digits(n);
    BeforeNothing(Digits(n), '=');
    IntOfDigits(n);
  }

  // ---------- The reader on a written file ----------

  lemma JoinAppend(a: seq<string>, b: seq<string>)
    ensures Join(a + b) == Join(a) + Join(b)
  {
    if a == [] {
      assert a + b == b;
    } else {
      assert (a + b)[1..] == a[1..] + b;
      JoinAppend(a[1..], b);
    }
  }

  lemma {:induction false} SubstituteAscii(s: string, digits: string)
    requires IsAscii(s) && IsAscii(digits)
    ensures IsAscii(Substitute(s, digits))
    decreases |s|
  {
    if s != [] {
      if PLACEHOLDER <= s {
        SubstituteAscii(s[|PLACEHOLDER|..], digits);
      } else {
        SubstituteAscii(s[1..], digits);
      }
    }
  }

  lemma {:induction false} SubstituteBrings(s: string, digits: string, c: char)
    requires c !in s && c !in digits
    ensures c !in Substitute(s, digits)
    decreases |s|
  {
    if s != [] {
      if PLACEHOLDER <= s {
        SubstituteBrings(s[|PLACEHOLDER|..], digits, c);
      } else {
        SubstituteBrings(s[1..], digits, c);
      }
    }
  }

  lemma JoinFrom(lines: seq<string>, i: nat)
    requires i < |lines|
    ensures Join(lines[i..]) == lines[i] + "\n" + Join(lines[i + 1..])
  {
    assert lines[i..][1..] == lines[i + 1..];
  }

  lemma Regroup(a: string, b: string, c: string, d: string, e: string)
    ensures a + (b + "\n" + (c + "\n" + d)) + e == a + (b + "\n" + (c + "\n" + (d + e)))
  {
    assert (c + "\n" + d) + e == c + "\n" + (d + e);
    assert (b + "\n" + (c + "\n" + d)) + e == b + "\n" + (c + "\n" + d + e);
  }

  lemma CutHeader(lines: seq<string>, payload: string)
    requires |lines| >= 7
    ensures Join(lines) + payload
         == Join(lines[..5]) + (lines[5] + "\n" + (lines[6] + "\n" + (Join(lines[7..]) + payload)))
  {
    hide Join;
    assert lines == lines[..5] + lines[5..];
    JoinAppend(lines[..5], lines[5..]);
    JoinFrom(lines, 5);
    JoinFrom(lines, 6);
    Regroup(Join(lines[..5]), lines[5], lines[6], Join(lines[7..]), payload);
  }

  lemma ReadHeader(lines: seq<string>, commands: seq<string>, bundle: string, payload: string)
    requires |lines| == 26 && (forall i :: 0 <= i < 5 ==> PlainLine(lines[i])) && lines[7..] == commands
    requires |commands| == COMMANDS && forall i :: 0 <= i < COMMANDS ==> PlainLine(commands[i])
    requires lines[5] == BUNDLE_KEY + bundle + "\"" && lines[6] == SKIP_KEY + Digits(27)
    requires '\n' !in lines[5] && '\n' !in lines[6] && IsAscii(bundle)
    ensures ReadLines(Join(lines) + payload, LIMIT, Reading(None, None))
         == ReadLines(payload, 4, Reading(Some(27), Some(Before(bundle, '\"'))))
  {
    hide ReadLines, Look, Join, Before, PlainLine, Digits, BUNDLE_KEY, SKIP_KEY, IsAscii;
    CutHeader(lines, payload);
    var rest7 := Join(commands) + payload;
    var rest6 := lines[6] + "\n" + rest7;
    var rest5 := lines[5] + "\n" + rest6;
    var named := Reading(None, Some(Before(bundle, '\"')));
    ReadPlain(lines[..5], rest5, LIMIT, Reading(None, None));
    ReadOne(lines[5], rest6, 25, Reading(None, None));
    LookBundle(bundle, Reading(None, None));
    ReadOne(lines[6], rest7, 24, named);
    LookNumber(27, named);
    ReadPlain(commands, payload, 23, named.(skip := Some(27)));
  }

  /** Behind the header the reader knows line number 27 and the bundle name up to its first quote,
      and it goes on to look at four lines of the payload. */
  lemma ReaderPassesHeader(t: Template, display: string, filename: string, bundle: string, payload: string)
    requires Fits(t) && OneLineNames(display, filename, bundle) && IsAscii(bundle)
    ensures var name := Before(Substitute(bundle, "27"), '\"');
      ReadLines(Written(t, display, filename, bundle) + payload, LIMIT, Reading(None, None))
      == ReadLines(payload, 4, Reading(Some(27), Some(name)))
  {
    DraftHas26Lines(t, display, filename, bundle);
    hide ReadLines, Look, Join, Substitute, Before, PlainLine, CountLines, Draft, Holds;
    var d, f, b := Substitute(display, "27"), Substitute(filename, "27"), Substitute(bundle, "27");
    ReplacesInNames(t, display, filename, bundle, "27");
    SubstituteOneLine(display, "27");
    SubstituteOneLine(filename, "27");
    SubstituteOneLine(bundle, "27");
    SubstituteAscii(bundle, "27");
    var lines := HeaderLines(t, d, f, b, "27");
    LinesOf(t, d, f, b, "27");
    assert lines[5] in lines && lines[6] in lines;
    assert forall i :: 0 <= i < COMMANDS ==> Fixed(t.commands[i]);
    ReadHeader(lines, t.commands, b, payload);
  }

  /** Some line among the first n is a SKIP line. */
  predicate SkipLater(file: string, n: nat)
  {
    n > 0 && file != [] && (IsSkipLine(FirstLine(file)) || SkipLater(file[|FirstLine(file)|..], n - 1))
  }

  predicate BundleLater(file: string, n: nat)
  {
    n > 0 && file != [] && (IsBundleLine(FirstLine(file)) || BundleLater(file[|FirstLine(file)|..], n - 1))
  }

  /** Every SKIP line among the first n has a number that can be read, the last of them, if there is one,
      the number k, and the last BUNDLE line, if there is one, the given name. */
  predicate Repeats(file: string, n: nat, k: int, name: string)
  {
    n == 0 || file == []
    || (var line, rest := FirstLine(file), file[|FirstLine(file)|..];
        && Repeats(rest, n - 1, k, name)
        && (IsSkipLine(line) ==> NumberIn(line).Some? && (NumberIn(line) == Some(k) || SkipLater(rest, n - 1)))
        && (IsBundleLine(line) ==> NameIn(line) == name || BundleLater(rest, n - 1)))
  }

  lemma OneKeyOnly(raw: string)
    ensures !(IsSkipLine(raw) && IsBundleLine(raw))
  {
    assert SKIP_KEY[0] != BUNDLE_KEY[0];
  }

  /** When the reader ends with number k and the given name. */
  lemma {:induction false} ReadsExactly(file: string, n: nat, r: Reading, k: int, name: string)
    ensures ReadLines(file, n, r) == Some(Reading(Some(k), Some(name))) <==>
      && Repeats(file, n, k, name)
      && (r.skip == Some(k) || SkipLater(file, n))
      && (r.bundle == Some(name) || BundleLater(file, n))
    decreases n
  {
    hide IsSkipLine, IsBundleLine, NumberIn, NameIn, FirstLine;
    if n > 0 && file != [] {
      var line := FirstLine(file);
      OneKeyOnly(line);
      var next := Look(line, r);
      if next.Some? {
        ReadsExactly(file[|line|..], n - 1, next.value, k, name);
      }
    }
  }

  /** The name that is read is the name that was written exactly when it has neither a quote nor the
      placeholder in it. */
  lemma NameComesBack(bundle: string)
    ensures Before(Substitute(bundle, "27"), '\"') == bundle <==> '\"' !in bundle && !Holds(bundle)
  {
    var s := Substitute(bundle, "27");
    BeforeNothing(s, '\"');
    if '\"' !in bundle {
      SubstituteBrings(bundle, "27", '\"');
      SubstituteKeeps(bundle, "27");
    }
  }

  /** The reader recovers the line number and the bundle name if and only if the first four lines of the
      payload repeat them where they look like lines of the header, and the name has no quote and no
      placeholder in it or is repeated there. Skipping to that line yields the payload in any case. */
  lemma ReaderRecovers(t: Template, display: string, filename: string, bundle: string, payload: string)
    requires Fits(t) && OneLineNames(display, filename, bundle) && IsAscii(bundle)
    ensures var file := Written(t, display, filename, bundle) + payload;
      && (ReadLines(file, LIMIT, Reading(None, None)) == Some(Reading(Some(27), Some(bundle))) <==>
            Repeats(payload, 4, 27, bundle) && (('\"' !in bundle && !Holds(bundle)) || BundleLater(payload, 4)))
      && DropLines(file, 27 - 1) == payload
  {
    hide ReadLines, Written, Draft, Substitute, Before, Digits, Repeats, BundleLater, Holds, CountLines, DropLines;
    DraftHas26Lines(t, display, filename, bundle);
    var name := Before(Substitute(bundle, "27"), '\"');
    ReaderPassesHeader(t, display, filename, bundle, payload);
    ReadsExactly(payload, 4, Reading(Some(27), Some(name)), 27, bundle);
    NameComesBack(bundle);
    PayloadExtracts(t, display, filename, bundle, payload);
  }

  /** For a payload that begins with a SKIP line of another number it does not: the reader looks at 30
      lines, the header has only 26. */
  lemma EarlyKeyMisleads(t: Template, display: string, filename: string, bundle: string)
    requires Fits(t) && OneLineNames(display, filename, bundle) && IsAscii(bundle)
    ensures var file := Written(t, display, filename, bundle) + "SKIP=1\n";
      exists name :: ReadLines(file, LIMIT, Reading(None, None)) == Some(Reading(Some(1), Some(name)))
  {
    hide Written, Substitute, Before, ReadLines;
    ReaderPassesHeader(t, display, filename, bundle, "SKIP=1\n");
    var name := Before(Substitute(bundle, "27"), '\"');
    OneKeyMisleads(Reading(Some(27), Some(name)));
  }

  lemma OneKeyMisleads(r: Reading)
    ensures ReadLines("SKIP=1\n", 4, r) == Some(r.(skip := Some(1)))
  {
    assert SKIP_KEY + Digits(1) == "SKIP=1";
    hide ReadLines, Look;
    LookNumber(1, r);
    assert "SKIP=1\n" == "SKIP=1" + "\n" + "";
    ReadOne("SKIP=1", "", 4, r);
    ReadEmpty(3, r.(skip := Some(1)));
  }

  lemma ReadEmpty(n: nat, r: Reading)
    ensures ReadLines("", n, r) == Some(r)
  {
  }

  /** There are such texts. */
  lemma SomeTextFits(t: Template)
    requires t == Template("#", "# ", "# ", " ", "# ", "", "#", seq(COMMANDS, _ => "ls"))
    ensures Fits(t)
  {
    assert !Holds("#") && !Holds([]);
    assert "# "[..1] == "#" && " "[1..] == [];
    assert !Holds("ls") by { assert "ls"[1..] == "s" && "s"[1..] == []; }
  }
}
