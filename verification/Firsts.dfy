/** The first occurrence of each element of a sequence. */
module Firsts {

  /** The elements of s in the order in which they first occur. */
  function Of<T(==)>(s: seq<T>): seq<T>
  {
    if s == [] then []
    else
      var r := Of(s[..|s| - 1]);
      if s[|s| - 1] in r then r else r + [s[|s| - 1]]
  }

  /** The elements of s outside v. */
  function NotIn<T(==)>(s: seq<T>, v: set<T>): seq<T>
  {
    if s == [] then [] else NotIn(s[..|s| - 1], v) + if s[|s| - 1] in v then [] else [s[|s| - 1]]
  }

  lemma {:induction false} OfElements<T(!new)>(s: seq<T>)
    ensures forall x :: x in Of(s) <==> x in s
  {
    if s != [] {
      OfElements(s[..|s| - 1]);
      assert s == s[..|s| - 1] + [s[|s| - 1]];
    }
  }

  lemma OfSnoc<T(!new)>(s: seq<T>, x: T)
    ensures Of(s + [x]) == if x in s then Of(s) else Of(s) + [x]
  {
    OfElements(s);
    assert (s + [x])[..|s + [x]| - 1] == s;
  }

  lemma NotInSnoc<T(!new)>(s: seq<T>, x: T, v: set<T>)
    ensures NotIn(s + [x], v) == if x in v then NotIn(s, v) else NotIn(s, v) + [x]
  {
    assert (s + [x])[..|s + [x]| - 1] == s;
  }

  /** What is already there adds nothing. */
  lemma {:induction false} OfNotIn<T(!new)>(a: seq<T>, b: seq<T>, v: set<T>)
    requires forall x :: x in v ==> x in a
    ensures Of(a + NotIn(b, v)) == Of(a + b)
  {
    if b != [] {
      var n := |b| - 1;
      OfNotIn(a, b[..n], v);
      assert a + b == (a + b[..n]) + [b[n]];
      OfSnoc(a + b[..n], b[n]);
      if b[n] !in v {
        assert a + NotIn(b, v) == (a + NotIn(b[..n], v)) + [b[n]];
        OfSnoc(a + NotIn(b[..n], v), b[n]);
        SameElements(a + b[..n], a + NotIn(b[..n], v));
      } else {
        assert NotIn(b, v) == NotIn(b[..n], v);
      }
    }
  }

  lemma SameElements<T(!new)>(a: seq<T>, b: seq<T>)
    requires Of(a) == Of(b)
    ensures forall x :: x in a <==> x in b
  {
    OfElements(a);
    OfElements(b);
  }

  lemma {:induction false} OfAppend<T(!new)>(a: seq<T>, b: seq<T>, c: seq<T>)
    requires Of(a) == Of(b)
    ensures Of(a + c) == Of(b + c)
  {
    if c == [] {
      assert a + c == a && b + c == b;
    } else {
      var n := |c| - 1;
      OfAppend(a, b, c[..n]);
      SameElements(a + c[..n], b + c[..n]);
      assert a + c == (a + c[..n]) + [c[n]] && b + c == (b + c[..n]) + [c[n]];
      OfSnoc(a + c[..n], c[n]);
      OfSnoc(b + c[..n], c[n]);
    }
  }

  lemma {:induction false} OfDistinct<T(!new)>(s: seq<T>)
    requires forall i, j :: 0 <= i < j < |s| ==> s[i] != s[j]
    ensures Of(s) == s
  {
    if s != [] {
      OfDistinct(s[..|s| - 1]);
      OfElements(s[..|s| - 1]);
      assert s == s[..|s| - 1] + [s[|s| - 1]];
    }
  }

  /** Moving on to x, with f behind the rest. */
  lemma OfNext<T(!new)>(start: seq<T>, order: seq<T>, x: T, rest: seq<T>, f: seq<T>, v: set<T>)
    requires Of(start) == Of(order + ([x] + rest)) && forall y :: y in v ==> y in order || y == x
    ensures Of(start + f) == Of(order + [x] + (rest + NotIn(f, v)))
  {
    hide Of, NotIn;
    var more := order + [x] + rest;
    assert order + ([x] + rest) == more;
    OfAppend(start, more, f);
    assert forall y :: y in v ==> y in more;
    OfNotIn(more, f, v);
    assert order + [x] + (rest + NotIn(f, v)) == more + NotIn(f, v);
  }

  /** An element that occurred before can be left out. */
  lemma OfSkip<T(!new)>(a: seq<T>, x: T, c: seq<T>)
    requires x in a
    ensures Of(a + [x] + c) == Of(a + c)
  {
    OfSnoc(a, x);
    OfAppend(a + [x], a, c);
  }

  /** Each element has one place, and more elements behind leave it there. */
  lemma {:induction false} OfIsDistinct<T(!new)>(s: seq<T>)
    ensures forall i, j :: 0 <= i < j < |Of(s)| ==> Of(s)[i] != Of(s)[j]
  {
    if s != [] {
      OfIsDistinct(s[..|s| - 1]);
    }
  }

  lemma {:induction false} OfGrows<T(!new)>(s: seq<T>, more: seq<T>)
    ensures Of(s) <= Of(s + more)
  {
    if more == [] {
      assert s + more == s;
    } else {
      var n := |more| - 1;
      OfGrows(s, more[..n]);
      assert s + more == (s + more[..n]) + [more[n]];
      OfSnoc(s + more[..n], more[n]);
    }
  }

  /** Up to an element that occurs in s, more elements behind s change nothing. */
  lemma OfUpTo<T(!new)>(s: seq<T>, more: seq<T>, k: nat)
    requires k < |Of(s + more)| && Of(s + more)[k] in s
    ensures Of(s + more)[..k + 1] <= Of(s)
  {
    hide Of;
    OfGrows(s, more);
    OfElements(s);
    OfIsDistinct(s + more);
    var i :| 0 <= i < |Of(s)| && Of(s)[i] == Of(s + more)[k];
    assert Of(s + more)[i] == Of(s)[i];
  }
}
