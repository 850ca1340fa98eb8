/** Python's sorted() on lists and sets, and its order on strings. */
module Sorting {

  ghost predicate StrictTotal<T(!new)>(less: (T, T) -> bool)
  {
    && (forall x :: !less(x, x))
    && (forall x, y :: x != y ==> less(x, y) || less(y, x))
    && (forall x, y, z :: less(x, y) && less(y, z) ==> less(x, z))
  }

  /** In strictly ascending order, hence without repetitions. */
  ghost predicate Ascending<T>(less: (T, T) -> bool, q: seq<T>)
  {
    forall i, j :: 0 <= i < j < |q| ==> less(q[i], q[j])
  }

  /** q lists the elements of s in ascending order, without repetitions. */
  ghost predicate Lists<T(!new)>(less: (T, T) -> bool, q: seq<T>, s: set<T>)
  {
    Ascending(less, q) && forall x :: x in q <==> x in s
  }

  lemma ListsTail<T(!new)>(less: (T, T) -> bool, q: seq<T>, s: set<T>)
    requires StrictTotal(less) && Lists(less, q, s) && q != []
    ensures q[0] in s && Lists(less, q[1..], s - {q[0]})
    ensures forall x :: x in s && x != q[0] ==> less(q[0], x)
  {
    assert q[0] in q;
    forall x ensures x in q[1..] <==> x in s && x != q[0] {
      if x in q && x != q[0] {
        var i :| 0 <= i < |q| && q[i] == x;
        assert q[1..][i - 1] == x;
      }
      if x in q[1..] {
        var i :| 0 <= i < |q[1..]| && q[1..][i] == x;
        assert less(q[0], q[i + 1]);
      }
    }
    forall x | x in s && x != q[0] ensures less(q[0], x) {
      var i :| 0 <= i < |q| && q[i] == x;
    }
  }

  /** A set has only one listing. */
  lemma {:induction false} OneListing<T(!new)>(less: (T, T) -> bool, a: seq<T>, b: seq<T>, s: set<T>)
    requires StrictTotal(less) && Lists(less, a, s) && Lists(less, b, s)
    ensures a == b
  {
    if a != [] {
      ListsTail(less, a, s);
    }
    if b != [] {
      ListsTail(less, b, s);
    }
    if a != [] && b != [] {
      assert a[0] == b[0];
      OneListing(less, a[1..], b[1..], s - {a[0]});
      assert a == [a[0]] + a[1..] && b == [b[0]] + b[1..];
    }
  }

  lemma NewAt<T(!new)>(less: (T, T) -> bool, q: seq<T>, k: nat)
    requires StrictTotal(less) && Ascending(less, q) && k < |q|
    ensures q[k] !in q[..k]
  {
  }

  method Insert<T(==, !new)>(less: (T, T) -> bool, q: seq<T>, x: T) returns (r: seq<T>)
    requires StrictTotal(less) && Ascending(less, q) && x !in q
    ensures Ascending(less, r) && forall y :: y in r <==> y in q || y == x
    ensures |r| == |q| + 1
  {
    var i := 0;
    while i < |q| && less(q[i], x)
      invariant 0 <= i <= |q|
      invariant forall j :: 0 <= j < i ==> less(q[j], x)
    {
      i := i + 1;
    }
    r := q[..i] + [x] + q[i..];
    assert q == q[..i] + q[i..];
    if i < |q| {
      assert less(x, q[i]);
    }
  }

  method Sorted<T(==, !new)>(less: (T, T) -> bool, s: set<T>) returns (r: seq<T>)
    requires StrictTotal(less)
    ensures Lists(less, r, s)
  {
    r := [];
    var rest := s;
    while rest != {}
      invariant rest <= s
      invariant Lists(less, r, s - rest)
    {
      var x :| x in rest;
      assert x !in r;
      r := Insert(less, r, x);
      rest := rest - {x};
    }
  }

  // ---------- Strings ----------

  /** Comparison by code point at the first difference; a proper prefix comes first. */
  predicate Before(a: string, b: string)
  {
    if b == [] then false
    else if a == [] then true
    else if a[0] != b[0] then a[0] < b[0]
    else Before(a[1..], b[1..])
  }

  /** a and b differ first at place i, where a has the smaller character. */
  ghost predicate LessAt(a: string, b: string, i: nat)
  {
    i < |a| && i < |b| && a[..i] == b[..i] && a[i] < b[i]
  }

  /** The order of the dictionary: a stands before b if and only if it is a proper beginning of b or has the
      smaller character at the first place where they differ. */
  lemma {:induction false} BeforeExactly(a: string, b: string)
    ensures Before(a, b) <==> a < b || exists i: nat :: LessAt(a, b, i)
  {
    if a != [] && b != [] && a[0] == b[0] {
      var c, d := a[1..], b[1..];
      BeforeExactly(c, d);
      assert a == [a[0]] + c && b == [b[0]] + d;
      if i: nat :| LessAt(c, d, i) {
        assert a[..i + 1] == [a[0]] + c[..i] && b[..i + 1] == [b[0]] + d[..i];
        assert LessAt(a, b, i + 1);
      }
      if i: nat :| LessAt(a, b, i) {
        assert c[..i - 1] == a[..i][1..] && d[..i - 1] == b[..i][1..];
        assert LessAt(c, d, i - 1);
      }
      if c < d {
        assert b[..|a|] == [a[0]] + d[..|c|];
      }
    } else if a != [] && b != [] && a[0] < b[0] {
      assert LessAt(a, b, 0);
    } else {
      forall i: nat | LessAt(a, b, i) && i > 0 {
        SameStart(a, b, i);
      }
    }
  }

  lemma SameStart(a: string, b: string, i: nat)
    requires LessAt(a, b, i) && i > 0
    ensures a[0] == b[0]
  {
    assert a[..i][0] == b[..i][0];
  }

  lemma {:induction false} BeforeIsTotal(a: string, b: string)
    ensures !Before(a, a)
    ensures a != b ==> Before(a, b) || Before(b, a)
  {
    if a != [] {
      BeforeIsTotal(a[1..], if b == [] then [] else b[1..]);
      if b != [] && a[0] == b[0] && a[1..] == b[1..] {
        assert a == [a[0]] + a[1..] && b == [b[0]] + b[1..];
      }
    }
  }

  lemma {:induction false} BeforeIsTransitive(a: string, b: string, c: string)
    requires Before(a, b) && Before(b, c)
    ensures Before(a, c)
  {
    if a != [] && a[0] == b[0] == c[0] {
      BeforeIsTransitive(a[1..], b[1..], c[1..]);
    }
  }

  lemma BeforeIsStrictTotal()
    ensures StrictTotal(Before)
  {
    forall a, b: string ensures !Before(a, a) && (a != b ==> Before(a, b) || Before(b, a)) {
      BeforeIsTotal(a, b);
    }
    forall a, b, c: string | Before(a, b) && Before(b, c) ensures Before(a, c) {
      BeforeIsTransitive(a, b, c);
    }
  }

  // ---------- Natural numbers ----------

  predicate Less(a: nat, b: nat)
  {
    a < b
  }

  lemma LessIsStrictTotal()
    ensures StrictTotal(Less)
  {
  }
}
