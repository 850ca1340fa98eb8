/** Finding the library of a bundle that a NEEDED soname stands for: by its exact name, or by a name
    of which the soname is a shorter version. */
module Sonames {
  import opened Common

  /** The last place of a dot, or the length. */
  function LastDot(s: string): (r: nat)
    ensures r <= |s| && (r < |s| ==> s[r] == '.')
    ensures r < |s| ==> forall i :: r < i < |s| ==> s[i] != '.'
    ensures r == |s| ==> '.' !in s
  {
    if s == [] then 0
    else if s[|s| - 1] == '.' then |s| - 1
    else
      var r := LastDot(s[..|s| - 1]);
      if r == |s| - 1 then |s| else r
  }

  /** soname is the name with one or more components of its version cut off. */
  predicate CutOf(soname: string, name: string)
  {
    0 < |soname| < |name| && soname <= name && name[|soname|] == '.' && HasSo(soname)
  }

  /** The first of the names that the soname is cut from, or their number. */
  function FirstCut(names: seq<string>, soname: string): (r: nat)
    ensures r <= |names| && (r < |names| ==> CutOf(soname, names[r]))
    ensures forall i :: 0 <= i < r ==> !CutOf(soname, names[i])
  {
    if names == [] || CutOf(soname, names[0]) then 0 else 1 + FirstCut(names[1..], soname)
  }

  /** The library that the soname stands for: the one of that name, else the first in order whose name
      it is cut from, else none. */
  function Stands(names: seq<string>, soname: string): Option<string>
  {
    if soname in names then Some(soname)
    else if FirstCut(names, soname) < |names| then Some(names[FirstCut(names, soname)])
    else None
  }

  function Get(m: map<string, string>, k: string): Option<string>
  {
    if k in m then Some(m[k]) else None
  }

  ghost predicate Indexes(m: map<string, string>, names: seq<string>)
  {
    forall s :: Get(m, s) == Stands(names, s)
  }

  lemma {:induction false} HasSoGrows(s: string, t: string)
    requires HasSo(s)
    ensures HasSo(s + t)
  {
    if s[..3] == ".so" {
      assert (s + t)[..3] == s[..3];
    } else {
      assert (s + t)[1..] == s[1..] + t;
      HasSoGrows(s[1..], t);
    }
  }

  /** What is cut from name is also cut from each of its prefixes that are longer. */
  lemma ShorterCut(s: string, name: string, prefix: string)
    requires CutOf(s, name) && prefix <= name && |s| < |prefix|
    ensures s <= prefix && prefix[|s|] == '.' && HasSo(prefix)
  {
    assert prefix == s + prefix[|s|..];
    HasSoGrows(s, prefix[|s|..]);
  }

  /** Register the name and its shorter versions; a name that is registered already keeps its library
      unless this is its exact name. */
  method AddName(m: map<string, string>, library: string) returns (m': map<string, string>)
    ensures forall s :: Get(m', s) == if s == library then Some(library)
                                      else if s !in m && CutOf(s, library) then Some(library)
                                      else Get(m, s)
  {
    hide HasSo;
    m' := m[library := library];
    var name := library;
    while HasSo(name)
      invariant name <= library
      invariant forall s :: Get(m', s) == if s == library then Some(library)
                                          else if s !in m && CutOf(s, library) && |s| >= |name| then Some(library)
                                          else Get(m, s)
      decreases |name|
    {
      var dot := LastDot(name);
      forall s | CutOf(s, library) && |s| < |name| ensures |s| <= dot && dot < |name| {
        ShorterCut(s, library, name);
        assert name[|s|] in name;
      }
      if dot == |name| || dot == 0 {
        break;
      }
      var prefix := name[..dot];
      forall s | CutOf(s, library) && dot <= |s| < |name| ensures s == prefix {
        assert s == library[..dot] == prefix;
      }
      if HasSo(prefix) {
        if prefix !in m' {
          m' := m'[prefix := library];
        }
      }
      name := prefix;
    }
    forall s | CutOf(s, library) ensures |s| >= |name| {
      if |s| < |name| {
        ShorterCut(s, library, name);
      }
    }
  }

  lemma FirstCutAppend(names: seq<string>, name: string, s: string)
    ensures FirstCut(names + [name], s) ==
      if FirstCut(names, s) < |names| then FirstCut(names, s) else if CutOf(s, name) then |names| else |names| + 1
  {
    var r := FirstCut(names + [name], s);
    assert forall i :: 0 <= i < |names| ==> (names + [name])[i] == names[i];
    assert (names + [name])[|names|] == name;
  }

  method IndexNames(names: seq<string>) returns (byName: map<string, string>)
    ensures Indexes(byName, names)
  {
    hide CutOf, FirstCut;
    byName := map[];
    NothingIndexed();
    for k := 0 to |names|
      invariant Indexes(byName, names[..k])
    {
      assert names[..k + 1] == names[..k] + [names[k]];
      ghost var before := byName;
      byName := AddName(byName, names[k]);
      forall s ensures Get(byName, s) == Stands(names[..k + 1], s) {
        assert Get(before, s) == Stands(names[..k], s);
        FirstCutAppend(names[..k], names[k], s);
      }
    }
    assert names[..|names|] == names;
  }

  lemma NothingIndexed()
    ensures Indexes(map[], [])
  {
  }
}
