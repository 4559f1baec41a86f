/** Sequence helpers shared by the grid, goal, sentence and search models:
    the `std::reverse` that the solver applies to position runs and word
    lists, and the element set and pairwise distinctness of a sequence. */
module Seqs {

  /** The elements of `s` in the opposite order. */
  function Reverse<T>(s: seq<T>): (r: seq<T>)
    ensures |r| == |s|
    ensures forall i :: 0 <= i < |s| ==> r[i] == s[|s| - 1 - i]
  {
    if s == [] then [] else Reverse(s[1..]) + [s[0]]
  }

  /** Reversing twice gives back the original sequence. */
  lemma ReverseReverse<T>(s: seq<T>)
    ensures Reverse(Reverse(s)) == s
  {
    var r := Reverse(Reverse(s));
    assert |r| == |s|;
    forall i | 0 <= i < |s| ensures r[i] == s[i] {
      assert r[i] == Reverse(s)[|s| - 1 - i];
    }
  }

  /** No element occurs twice (no two words share a cell; no state is
      queued twice). */
  predicate Distinct<T(==)>(s: seq<T>) {
    forall i, j :: 0 <= i < j < |s| ==> s[i] != s[j]
  }

  /** The set of elements of `s`. */
  function Elems<T>(s: seq<T>): set<T> {
    set x | x in s
  }

  /** Appending distinct elements none of which occurs in `a` keeps the
      sequence free of repeats. */
  lemma DistinctAppend<T>(a: seq<T>, b: seq<T>)
    requires Distinct(a) && Distinct(b)
    requires forall x :: x in b ==> x !in Elems(a)
    ensures Distinct(a + b)
    ensures Elems(a + b) == Elems(a) + Elems(b)
  {
    var c := a + b;
    forall i, j | 0 <= i < j < |c| ensures c[i] != c[j] {
      if i < |a| && |a| <= j {
        assert c[j] == b[j - |a|] && c[i] == a[i];
        assert c[i] in Elems(a);
      }
    }
  }
}
