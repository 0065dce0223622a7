/** What several parts of the model need of lists. */
module Sequences {

  function Elements<T>(xs: seq<T>): set<T> {
    set x | x in xs
  }

  predicate NoDuplicates<T(==)>(xs: seq<T>) {
    forall i, j :: 0 <= i < j < |xs| ==> xs[i] != xs[j]
  }

  /** A list has as many members as entries if and only if nothing repeats. */
  lemma {:induction false} ElementsCount<T>(xs: seq<T>)
    ensures |Elements(xs)| <= |xs|
    ensures |Elements(xs)| == |xs| <==> NoDuplicates(xs)
  {
    if xs != [] {
      var n := |xs| - 1;
      var init, x := xs[..n], xs[n];
      ElementsCount(init);
      assert xs == init + [x];
      assert Elements(xs) == Elements(init) + {x};
      if x in init {
        assert Elements(xs) == Elements(init);
        assert exists i :: 0 <= i < n && xs[i] == x;
      } else {
        assert |Elements(xs)| == |Elements(init)| + 1;
      }
    }
  }

  lemma PartsAgree<T>(a: seq<T>, b: seq<T>, a': seq<T>, b': seq<T>)
    requires |a| == |a'|
    ensures a + b == a' + b' <==> a == a' && b == b'
  {
    if a + b == a' + b' {
      assert a == (a + b)[..|a|] && b == (a + b)[|a|..];
      assert a' == (a' + b')[..|a|] && b' == (a' + b')[|a|..];
    }
  }
}
