/** Facts about sequences used as lists of distinct items. */
module Seqs {

  /** The set of items of a list. */
  function Elems<T>(s: seq<T>): set<T>
  {
    set x | x in s
  }

  /** No item occurs twice. */
  predicate Distinct<T(==)>(s: seq<T>)
  {
    forall i, j :: 0 <= i < j < |s| ==> s[i] != s[j]
  }

  lemma ElemsAppend<T>(s: seq<T>, x: T)
    ensures Elems(s + [x]) == Elems(s) + {x}
  {
    forall y | y in Elems(s + [x])
      ensures y in Elems(s) + {x}
    {
      var i :| 0 <= i < |s + [x]| && (s + [x])[i] == y;
      if i < |s| {
        assert s[i] == y;
      }
    }
    forall y | y in Elems(s)
      ensures y in Elems(s + [x])
    {
      var i :| 0 <= i < |s| && s[i] == y;
      assert (s + [x])[i] == y;
    }
    assert (s + [x])[|s|] == x;
  }

  lemma DistinctAppend<T>(s: seq<T>, x: T)
    requires Distinct(s) && x !in s
    ensures Distinct(s + [x]) && Elems(s + [x]) == Elems(s) + {x}
  {
  }

  /** A list of distinct items has as many items as its set. */
  lemma {:induction false} DistinctCard<T>(s: seq<T>)
    requires Distinct(s)
    ensures |Elems(s)| == |s|
  {
    if s != [] {
      var t := s[..|s| - 1];
      assert Distinct(t);
      DistinctCard(t);
      assert Elems(s) == Elems(t) + {s[|s| - 1]};
      assert s[|s| - 1] !in Elems(t);
    }
  }

  /** A list of distinct items drawn from a finite set is no longer than the set. */
  lemma DistinctBound<T>(s: seq<T>, S: set<T>)
    requires Distinct(s) && Elems(s) <= S
    ensures |s| <= |S|
  {
    DistinctCard(s);
    SubsetCard(Elems(s), S);
  }

  lemma {:induction false} SubsetCard<T>(A: set<T>, B: set<T>)
    requires A <= B
    ensures |A| <= |B|
  {
    if A != {} {
      var x :| x in A;
      SubsetCard(A - {x}, B - {x});
    }
  }

  /** An element of a non-empty set. */
  lemma Witness<T>(S: set<T>) returns (x: T)
    requires S != {}
    ensures x in S
  {
    x :| x in S;
  }
}
