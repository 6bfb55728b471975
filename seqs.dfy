/** Sequence helpers shared by the model: the JavaScript array idioms the
    application uses (`find`, `findIndex`, `filter(..).length`, `reduce` to
    a sum, "push when not yet present") written as recursive functions,
    with the facts about them that the rest of the model relies on. */
module Seqs {

  datatype Option<T> = None | Some(value: T)

  /** `s.filter(n => n === x).length` */
  function Count<T(==)>(s: seq<T>, x: T): nat
  {
    if |s| == 0 then 0 else Count(s[..|s| - 1], x) + (if s[|s| - 1] == x then 1 else 0)
  }

  /** `s.findIndex(n => n === x)`: the first index holding x, or -1. */
  function FindIndex<T(==)>(s: seq<T>, x: T): (r: int)
    ensures -1 <= r < |s|
    ensures r == -1 <==> x !in s
    ensures r != -1 ==> s[r] == x && forall k :: 0 <= k < r ==> s[k] != x
  {
    if |s| == 0 then -1
    else if s[0] == x then 0
    else
      var k := FindIndex(s[1..], x);
      if k == -1 then -1 else k + 1
  }

  /** The distinct elements of s in order of first occurrence: what a
      `reduce` that pushes an element only when it is not yet present builds. */
  function Distinct<T(==)>(s: seq<T>): seq<T>
  {
    if |s| == 0 then []
    else
      var d := Distinct(s[..|s| - 1]);
      if s[|s| - 1] in d then d else d + [s[|s| - 1]]
  }

  ghost predicate NoDuplicates<T>(s: seq<T>)
  {
    forall i, j :: 0 <= i < j < |s| ==> s[i] != s[j]
  }

  /** An element not yet present can be appended without a duplicate. */
  lemma NoDuplicatesAppend<T>(s: seq<T>, x: T)
    requires NoDuplicates(s) && x !in s
    ensures NoDuplicates(s + [x])
  {
    forall i, j | 0 <= i < j < |s + [x]| ensures (s + [x])[i] != (s + [x])[j] {
      if j == |s| {
        assert s[i] in s;
      }
    }
  }

  /** Sum of integers, folded from the left as `reduce((a, c) => a + c, 0)`. */
  function Sum(s: seq<int>): int
  {
    if |s| == 0 then 0 else Sum(s[..|s| - 1]) + s[|s| - 1]
  }

  /** Sum of reals, folded from the left. */
  function SumReal(s: seq<real>): real
  {
    if |s| == 0 then 0.0 else SumReal(s[..|s| - 1]) + s[|s| - 1]
  }

  /** Sum over the elements x of d of the number of occurrences of x in s. */
  function SumCounts<T(==)>(d: seq<T>, s: seq<T>): nat
  {
    if |d| == 0 then 0 else SumCounts(d[..|d| - 1], s) + Count(s, d[|d| - 1])
  }

  lemma {:induction false} CountAppend<T>(s: seq<T>, a: T, x: T)
    ensures Count(s + [a], x) == Count(s, x) + (if a == x then 1 else 0)
  {
    assert (s + [a])[..|s + [a]| - 1] == s;
  }

  lemma {:induction false} CountZero<T>(s: seq<T>, x: T)
    ensures Count(s, x) == 0 <==> x !in s
  {
    if |s| > 0 {
      CountZero(s[..|s| - 1], x);
      assert s == s[..|s| - 1] + [s[|s| - 1]];
    }
  }

  /** Distinct keeps exactly the elements of s, each once. */
  lemma {:induction false} DistinctProperties<T>(s: seq<T>)
    ensures NoDuplicates(Distinct(s))
    ensures forall x :: x in Distinct(s) <==> x in s
  {
    if |s| > 0 {
      var init := s[..|s| - 1];
      DistinctProperties(init);
      assert s == init + [s[|s| - 1]];
    }
  }

  /** Distinct lists the elements in order of their first occurrence in s. */
  lemma {:induction false} DistinctOrder<T>(s: seq<T>)
    ensures forall i, j :: 0 <= i < j < |Distinct(s)| ==>
      FindIndex(s, Distinct(s)[i]) < FindIndex(s, Distinct(s)[j])
  {
    if |s| > 0 {
      var init, a := s[..|s| - 1], s[|s| - 1];
      DistinctOrder(init);
      DistinctProperties(init);
      var d := Distinct(init);
      assert s == init + [a];
      forall x | x in init ensures FindIndex(s, x) == FindIndex(init, x) {
        FindIndexPrefix(init, [a], x);
      }
      if a !in d {
        assert FindIndex(s, a) == |init| by { FindIndexLast(init, a); }
        forall i, j | 0 <= i < j < |Distinct(s)|
          ensures FindIndex(s, Distinct(s)[i]) < FindIndex(s, Distinct(s)[j])
        {
          assert Distinct(s) == d + [a];
          if j < |d| {
            assert Distinct(s)[i] == d[i] && Distinct(s)[j] == d[j];
          } else {
            assert Distinct(s)[i] == d[i] && d[i] in d;
          }
        }
      }
    }
  }

  /** A sequence without duplicates is its own list of distinct elements. */
  lemma {:induction false} DistinctOfUnique<T>(s: seq<T>)
    requires NoDuplicates(s)
    ensures Distinct(s) == s
  {
    if |s| > 0 {
      var init := s[..|s| - 1];
      assert NoDuplicates(init);
      DistinctOfUnique(init);
      assert s == init + [s[|s| - 1]];
    }
  }

  /** Taking the distinct elements of a prefix first changes nothing. */
  lemma {:induction false} DistinctAppendDistinct<T>(a: seq<T>, b: seq<T>)
    ensures Distinct(a + b) == Distinct(Distinct(a) + b)
  {
    if |b| == 0 {
      DistinctProperties(a);
      DistinctOfUnique(Distinct(a));
      assert a + b == a && Distinct(a) + b == Distinct(a);
    } else {
      var init := b[..|b| - 1];
      DistinctAppendDistinct(a, init);
      assert (a + b)[..|a + b| - 1] == a + init;
      assert (Distinct(a) + b)[..|Distinct(a) + b| - 1] == Distinct(a) + init;
    }
  }

  /** Past a different first element the index is one more than in the tail. */
  lemma FindIndexTail<T>(s: seq<T>, x: T)
    requires |s| > 0 && s[0] != x && x in s[1..]
    ensures FindIndex(s, x) == FindIndex(s[1..], x) + 1
  {
  }

  lemma {:induction false} FindIndexPrefix<T>(s: seq<T>, t: seq<T>, x: T)
    requires x in s
    ensures FindIndex(s + t, x) == FindIndex(s, x)
  {
    if s[0] != x {
      assert (s + t)[1..] == s[1..] + t;
      FindIndexPrefix(s[1..], t, x);
    }
  }

  lemma {:induction false} FindIndexLast<T>(s: seq<T>, a: T)
    requires a !in s
    ensures FindIndex(s + [a], a) == |s|
  {
    if |s| > 0 {
      assert (s + [a])[1..] == s[1..] + [a];
      FindIndexLast(s[1..], a);
    }
  }

  lemma {:induction false} SumCountsAppend<T>(d: seq<T>, s: seq<T>, a: T)
    requires NoDuplicates(d)
    ensures SumCounts(d, s + [a]) == SumCounts(d, s) + (if a in d then 1 else 0)
  {
    if |d| > 0 {
      var init := d[..|d| - 1];
      assert NoDuplicates(init);
      SumCountsAppend(init, s, a);
      CountAppend(s, a, d[|d| - 1]);
      assert d == init + [d[|d| - 1]];
      assert a in d <==> a in init || a == d[|d| - 1];
      assert a == d[|d| - 1] ==> a !in init;
    }
  }

  /** Counting every distinct element accounts for every element once. */
  lemma {:induction false} SumCountsOfDistinct<T>(s: seq<T>)
    ensures SumCounts(Distinct(s), s) == |s|
  {
    if |s| > 0 {
      var init, a := s[..|s| - 1], s[|s| - 1];
      assert s == init + [a];
      SumCountsOfDistinct(init);
      DistinctProperties(init);
      var d := Distinct(init);
      SumCountsAppend(d, init, a);
      if a !in d {
        CountAppend(init, a, a);
        CountZero(init, a);
        assert (d + [a])[..|d + [a]| - 1] == d;
      }
    }
  }

  lemma {:induction false} SumAppend(s: seq<int>, t: seq<int>)
    ensures Sum(s + t) == Sum(s) + Sum(t)
  {
    if |t| > 0 {
      SumAppend(s, t[..|t| - 1]);
      assert s + t[..|t| - 1] == (s + t)[..|s + t| - 1];
    } else {
      assert s + t == s;
    }
  }

  lemma {:induction false} SumRealAppend(s: seq<real>, t: seq<real>)
    ensures SumReal(s + t) == SumReal(s) + SumReal(t)
  {
    if |t| > 0 {
      SumRealAppend(s, t[..|t| - 1]);
      assert s + t[..|t| - 1] == (s + t)[..|s + t| - 1];
    } else {
      assert s + t == s;
    }
  }

  lemma {:induction false} SumNonNegative(s: seq<int>)
    requires forall i :: 0 <= i < |s| ==> 0 <= s[i]
    ensures 0 <= Sum(s)
  {
    if |s| > 0 {
      SumNonNegative(s[..|s| - 1]);
    }
  }
}
