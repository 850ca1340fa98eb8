/** Small things that several modules share. */
module Common {

  datatype Option<T> = None | Some(value: T)

  ghost function Elements<T(!new)>(q: seq<T>): (r: set<T>)
    ensures forall x :: x in r <==> x in q
  {
    set x | x in q
  }

  /** ".so" occurs in the name. */
  predicate HasSo(name: string)
  {
    |name| >= 3 && (name[..3] == ".so" || HasSo(name[1..]))
  }

  /** The three characters follow each other somewhere. */
  lemma {:induction false} HasSoExactly(name: string)
    ensures HasSo(name) <==>
      exists i :: 0 <= i < |name| - 2 && name[i] == '.' && name[i + 1] == 's' && name[i + 2] == 'o'
  {
    if |name| >= 3 {
      HasSoExactly(name[1..]);
      assert name[..3] == ".so" <==> name[0] == '.' && name[1] == 's' && name[2] == 'o';
      if i :| 0 < i < |name| - 2 && name[i] == '.' && name[i + 1] == 's' && name[i + 2] == 'o' {
        assert name[1..][i - 1] == '.' && name[1..][i] == 's' && name[1..][i + 1] == 'o';
      }
      if i :| 0 <= i < |name| - 3 && name[1..][i] == '.' && name[1..][i + 1] == 's' && name[1..][i + 2] == 'o' {
        assert name[i + 1] == '.' && name[i + 2] == 's' && name[i + 3] == 'o';
      }
    }
  }
}
