/** The stacked bar under the cell: `calculateCoordinates` orders the slice
    entries by value, largest first, in place, and then writes onto every
    entry the horizontal extent `[x1, x2)` of its segment of a bar
    `Width` pixels wide. */
module PercentageChart {
  import opened Seqs

  /** The width of the bar in pixels. */
  const Width: real := 600.0

  /** A slice of the bar: a group-mapping entry with its share `value` of
      the nodes, and the segment coordinates once they have been computed. */
  datatype ChartEntry = ChartEntry(
    group: int,
    color: string,
    component: string,
    value: real,
    legend: string,
    x1: Option<real>,
    x2: Option<real>)

  /** `entries.map(m => m.value)` */
  function ValuesOf(s: seq<ChartEntry>): (r: seq<real>)
    ensures |r| == |s|
    ensures forall i :: 0 <= i < |s| ==> r[i] == s[i].value
  {
    seq(|s|, i requires 0 <= i < |s| => s[i].value)
  }

  /** Ordered as the sort comparator orders: non-increasing value. */
  ghost predicate SortedByValueDesc(s: seq<ChartEntry>)
  {
    forall i, j :: 0 <= i < j < |s| ==> s[i].value >= s[j].value
  }

  ghost predicate NonIncreasing(s: seq<real>)
  {
    forall i, j :: 0 <= i < j < |s| ==> s[i] >= s[j]
  }

  /** The left edge of the segment of entry i: the width times the sum of
      the values of the entries before it. */
  function LeftEdge(s: seq<ChartEntry>, i: nat): real
    requires i <= |s|
  {
    SumReal(ValuesOf(s[..i])) * Width
  }

  /** Every entry with its segment: x1 is the left edge and x2 = x1 plus the
      value times the width. Only x1 and x2 change. */
  function Coordinates(s: seq<ChartEntry>): (r: seq<ChartEntry>)
    ensures |r| == |s|
    ensures forall i :: 0 <= i < |s| ==> r[i] == s[i].(x1 := r[i].x1, x2 := r[i].x2)
  {
    seq(|s|, i requires 0 <= i < |s| =>
      s[i].(x1 := Some(LeftEdge(s, i)), x2 := Some(LeftEdge(s, i) + s[i].value * Width)))
  }

  /** Moves a[i] left past every smaller value, so that a[..i + 1] is
      ordered once a[..i] is; the elements past i stay where they are. */
  method InsertDesc(a: array<ChartEntry>, i: nat)
    requires i < a.Length
    requires SortedByValueDesc(a[..i])
    modifies a
    ensures SortedByValueDesc(a[..i + 1])
    ensures multiset(a[..]) == multiset(old(a[..]))
    ensures a[i + 1..] == old(a[i + 1..])
  {
    var j := i;
    SortedAroundStart(a[..], i);
    while j > 0 && a[j - 1].value < a[j].value
      invariant 0 <= j <= i
      invariant SortedAround(a[..], j, i)
      invariant multiset(a[..]) == multiset(old(a[..]))
      invariant a[i + 1..] == old(a[i + 1..])
      decreases j
    {
      ghost var before := a[..];
      a[j - 1], a[j] := a[j], a[j - 1];
      SwapKeepsSortedAround(before, a[..], j, i);
      j := j - 1;
    }
    SortedAroundDone(a[..], j, i);
  }

  /** The first i + 1 entries are in descending order except that the entry
      at j may still be larger than those before it. */
  ghost predicate SortedAround(s: seq<ChartEntry>, j: nat, i: nat)
    requires j <= i < |s|
  {
    && (forall k, l :: 0 <= k < l <= i && l != j ==> s[k].value >= s[l].value)
    && (forall k, l :: 0 <= k < j < l <= i ==> s[k].value >= s[l].value)
  }

  /** Before the first swap the only candidate exception is the new entry. */
  lemma SortedAroundStart(s: seq<ChartEntry>, i: nat)
    requires i < |s| && SortedByValueDesc(s[..i])
    ensures SortedAround(s, i, i)
  {
    forall k, l | 0 <= k < l <= i && l != i ensures s[k].value >= s[l].value {
      assert s[k] == s[..i][k] && s[l] == s[..i][l];
    }
  }

  /** Once the entry at j is no larger than its left neighbour the prefix is
      in descending order. */
  lemma SortedAroundDone(s: seq<ChartEntry>, j: nat, i: nat)
    requires j <= i < |s| && SortedAround(s, j, i)
    requires j == 0 || s[j - 1].value >= s[j].value
    ensures SortedByValueDesc(s[..i + 1])
  {
    var p := s[..i + 1];
    forall k, l | 0 <= k < l < |p| ensures p[k].value >= p[l].value {
      if l == j && k < j - 1 {
        assert s[k].value >= s[j - 1].value;
      }
    }
  }

  /** Swapping the entry at j with a smaller left neighbour moves the
      exception one place left. */
  lemma SwapKeepsSortedAround(s: seq<ChartEntry>, t: seq<ChartEntry>, j: nat, i: nat)
    requires 0 < j <= i < |s| && |t| == |s|
    requires SortedAround(s, j, i) && s[j - 1].value < s[j].value
    requires t[j - 1] == s[j] && t[j] == s[j - 1]
    requires forall k :: 0 <= k < |s| && k != j - 1 && k != j ==> t[k] == s[k]
    ensures SortedAround(t, j - 1, i)
  {
  }

  /** `data.sort(...)` with the descending comparator, by insertion. An
      entry moves left only past a strictly smaller value, so entries of
      equal value keep their relative order. */
  method SortByValueDesc(a: array<ChartEntry>)
    modifies a
    ensures SortedByValueDesc(a[..])
    ensures multiset(a[..]) == multiset(old(a[..]))
  {
    var i := 0;
    while i < a.Length
      invariant 0 <= i <= a.Length
      invariant SortedByValueDesc(a[..i])
      invariant multiset(a[..]) == multiset(old(a[..]))
    {
      InsertDesc(a, i);
      i := i + 1;
    }
    assert a[..] == a[..a.Length];
  }

  /** The `map` pass: writes x1 and x2 onto every entry, in place. */
  method AssignCoordinates(a: array<ChartEntry>)
    modifies a
    ensures a[..] == Coordinates(old(a[..]))
  {
    ghost var s := a[..];
    var i := 0;
    while i < a.Length
      invariant 0 <= i <= a.Length
      invariant forall k :: 0 <= k < i ==> a[k] == Coordinates(s)[k]
      invariant forall k :: i <= k < a.Length ==> a[k] == s[k]
    {
      LeftEdgeSameValues(a[..], s, i);
      var x1 := LeftEdge(a[..], i);
      a[i] := a[i].(x1 := Some(x1), x2 := Some(x1 + a[i].value * Width));
      i := i + 1;
    }
    assert a[..] == Coordinates(s);
  }

  /** The left edge of entry i depends only on the values before i. */
  lemma LeftEdgeSameValues(s: seq<ChartEntry>, t: seq<ChartEntry>, i: nat)
    requires i <= |s| && i <= |t|
    requires forall k :: 0 <= k < i ==> s[k].value == t[k].value
    ensures LeftEdge(s, i) == LeftEdge(t, i)
  {
    assert ValuesOf(s[..i]) == ValuesOf(t[..i]);
  }

  /** `calculateCoordinates(data)`: the array is reordered, largest value
      first, and every entry gets its segment; the array itself is returned. */
  method CalculateCoordinates(a: array<ChartEntry>) returns (r: seq<ChartEntry>, ghost sorted: seq<ChartEntry>)
    modifies a
    ensures SortedByValueDesc(sorted)
    ensures multiset(sorted) == multiset(old(a[..]))
    ensures a[..] == Coordinates(sorted)
    ensures r == a[..]
  {
    SortByValueDesc(a);
    sorted := a[..];
    AssignCoordinates(a);
    r := a[..];
  }

  /** The first segment starts at the left end of the bar. */
  lemma CoordinatesStartAtZero(s: seq<ChartEntry>)
    requires |s| > 0
    ensures Coordinates(s)[0].x1 == Some(0.0)
  {
    assert ValuesOf(s[..0]) == [];
  }

  /** Adding one more value to the prefix. */
  lemma LeftEdgeNext(s: seq<ChartEntry>, i: nat)
    requires i < |s|
    ensures LeftEdge(s, i + 1) == LeftEdge(s, i) + s[i].value * Width
  {
    assert ValuesOf(s[..i + 1]) == ValuesOf(s[..i]) + [s[i].value];
    SumRealAppend(ValuesOf(s[..i]), [s[i].value]);
    assert SumReal([s[i].value]) == s[i].value by {
      assert [s[i].value][..0] == [];
    }
  }

  /** Segments are adjacent: each one ends where the next one starts. */
  lemma CoordinatesAdjacent(s: seq<ChartEntry>, i: nat)
    requires i + 1 < |s|
    ensures Coordinates(s)[i].x2 == Coordinates(s)[i + 1].x1
  {
    LeftEdgeNext(s, i);
  }

  /** Each segment is as wide as its value times the bar width. */
  lemma CoordinatesWidth(s: seq<ChartEntry>, i: nat)
    requires i < |s|
    ensures Coordinates(s)[i].x1.Some? && Coordinates(s)[i].x2.Some?
    ensures Coordinates(s)[i].x2.value - Coordinates(s)[i].x1.value == s[i].value * Width
  {
  }

  /** The last segment ends at the width times the sum of all values, so at
      the right end of the bar when the values sum to 1. */
  lemma CoordinatesEnd(s: seq<ChartEntry>)
    requires |s| > 0
    ensures Coordinates(s)[|s| - 1].x2 == Some(SumReal(ValuesOf(s)) * Width)
    ensures SumReal(ValuesOf(s)) == 1.0 ==> Coordinates(s)[|s| - 1].x2 == Some(Width)
  {
    LeftEdgeNext(s, |s| - 1);
    assert s[..|s|] == s;
  }

  /** The coordinates depend on the values alone, in their order. */
  lemma CoordinatesOfValues(s: seq<ChartEntry>, t: seq<ChartEntry>)
    requires ValuesOf(s) == ValuesOf(t)
    ensures ValuesOf(Coordinates(s)) == ValuesOf(Coordinates(t))
    ensures forall i :: 0 <= i < |s| ==>
      Coordinates(s)[i].x1 == Coordinates(t)[i].x1 && Coordinates(s)[i].x2 == Coordinates(t)[i].x2
  {
    forall i | 0 <= i < |s|
      ensures LeftEdge(s, i) == LeftEdge(t, i)
    {
      assert ValuesOf(s[..i]) == ValuesOf(s)[..i];
      assert ValuesOf(t[..i]) == ValuesOf(t)[..i];
    }
  }

  /** Computing the coordinates again on entries that already carry them
      changes nothing. */
  lemma CoordinatesIdempotent(s: seq<ChartEntry>)
    ensures Coordinates(Coordinates(s)) == Coordinates(s)
  {
    assert ValuesOf(Coordinates(s)) == ValuesOf(s);
    CoordinatesOfValues(Coordinates(s), s);
  }

  /** Permuted sequences have permuted values. */
  lemma {:induction false} MultisetValues(s: seq<ChartEntry>, t: seq<ChartEntry>)
    requires multiset(s) == multiset(t)
    ensures multiset(ValuesOf(s)) == multiset(ValuesOf(t))
    decreases |s|
  {
    if |s| == 0 {
      assert |t| == 0;
    } else {
      var j := IndexIn(t, s[0]);
      var t' := t[..j] + t[j + 1..];
      RemoveMatching(s, t, j);
      MultisetValues(s[1..], t');
      ValuesRemoveAt(t, j);
      ValuesRemoveHead(s);
      SameRemainder(ValuesOf(s), ValuesOf(t), ValuesOf(s[1..]), ValuesOf(t'), s[0].value);
    }
  }

  lemma IndexIn<T>(t: seq<T>, x: T) returns (j: nat)
    requires x in multiset(t)
    ensures j < |t| && t[j] == x
  {
    assert x in t;
    j :| 0 <= j < |t| && t[j] == x;
  }

  /** Taking out the element at j takes one copy of it out of the multiset. */
  lemma RemoveAt<T>(t: seq<T>, j: nat)
    requires j < |t|
    ensures multiset(t) == multiset{t[j]} + multiset(t[..j] + t[j + 1..])
  {
    assert t == t[..j] + [t[j]] + t[j + 1..];
  }

  /** Taking the same element out of two permutations of each other. */
  lemma RemoveMatching<T>(s: seq<T>, t: seq<T>, j: nat)
    requires |s| > 0 && j < |t| && t[j] == s[0]
    requires multiset(s) == multiset(t)
    ensures multiset(s[1..]) == multiset(t[..j] + t[j + 1..])
  {
    RemoveAt(t, j);
    RemoveAt(s, 0);
    assert s[..0] + s[1..] == s[1..];
    MultisetCancel(multiset(t[..j] + t[j + 1..]), multiset(s[1..]), s[0]);
  }

  lemma SameRemainder(vs: seq<real>, vt: seq<real>, rs: seq<real>, rt: seq<real>, x: real)
    requires multiset(rs) == multiset(rt)
    requires multiset(vs) == multiset{x} + multiset(rs)
    requires multiset(vt) == multiset{x} + multiset(rt)
    ensures multiset(vs) == multiset(vt)
  {
  }

  lemma ValuesRemoveHead(s: seq<ChartEntry>)
    requires |s| > 0
    ensures multiset(ValuesOf(s)) == multiset{s[0].value} + multiset(ValuesOf(s[1..]))
  {
    assert ValuesOf(s) == [s[0].value] + ValuesOf(s[1..]);
  }

  /** Taking out the entry at j takes one copy of its value out. */
  lemma ValuesRemoveAt(t: seq<ChartEntry>, j: nat)
    requires j < |t|
    ensures multiset(ValuesOf(t)) == multiset{t[j].value} + multiset(ValuesOf(t[..j] + t[j + 1..]))
  {
    assert ValuesOf(t[..j] + t[j + 1..]) == ValuesOf(t)[..j] + ValuesOf(t)[j + 1..];
    RemoveAt(ValuesOf(t), j);
  }

  /** Two ordered arrangements of the same values are the same sequence. */
  lemma {:induction false} SortedUnique(x: seq<real>, y: seq<real>)
    requires NonIncreasing(x) && NonIncreasing(y)
    requires multiset(x) == multiset(y)
    ensures x == y
    decreases |x|
  {
    assert |y| == |multiset(y)| == |multiset(x)| == |x|;
    if |x| > 0 {
      SameHead(x, y);
      assert multiset(x) == multiset{x[0]} + multiset(x[1..]) by { assert x == [x[0]] + x[1..]; }
      assert multiset(y) == multiset{y[0]} + multiset(y[1..]) by { assert y == [y[0]] + y[1..]; }
      NonIncreasingTail(x);
      NonIncreasingTail(y);
      MultisetCancel(multiset(x[1..]), multiset(y[1..]), x[0]);
      SortedUnique(x[1..], y[1..]);
      assert x == [x[0]] + x[1..] && y == [y[0]] + y[1..];
    }
  }

  lemma MultisetCancel<T>(m: multiset<T>, n: multiset<T>, x: T)
    requires multiset{x} + m == multiset{x} + n
    ensures m == n
  {
    forall e ensures m[e] == n[e] {
      assert (multiset{x} + m)[e] == (multiset{x} + n)[e];
    }
  }

  lemma NonIncreasingTail(x: seq<real>)
    requires |x| > 0 && NonIncreasing(x)
    ensures NonIncreasing(x[1..])
  {
    forall i, j | 0 <= i < j < |x[1..]| ensures x[1..][i] >= x[1..][j] {
      assert x[1..][i] == x[i + 1] && x[1..][j] == x[j + 1];
    }
  }

  /** The first element of an ordered arrangement is its largest. */
  lemma SameHead(x: seq<real>, y: seq<real>)
    requires |x| > 0 && |y| > 0
    requires NonIncreasing(x) && NonIncreasing(y)
    requires multiset(x) == multiset(y)
    ensures x[0] == y[0]
  {
    assert x[0] in multiset(y) && y[0] in multiset(x);
    var i :| 0 <= i < |y| && y[i] == x[0];
    var j :| 0 <= j < |x| && x[j] == y[0];
    assert j == 0 || x[0] >= x[j];
    assert i == 0 || y[0] >= y[i];
  }

  /** Running the layout again on its own output, in any reordering the
      sort may produce, gives the same values and segments position by
      position: the chart is drawn the same on each call. */
  lemma RerunSameSegments(s: seq<ChartEntry>, t: seq<ChartEntry>)
    requires SortedByValueDesc(s)
    requires SortedByValueDesc(t) && multiset(t) == multiset(Coordinates(s))
    ensures ValuesOf(Coordinates(t)) == ValuesOf(Coordinates(s))
    ensures forall i :: 0 <= i < |t| ==>
      Coordinates(t)[i].x1 == Coordinates(s)[i].x1 && Coordinates(t)[i].x2 == Coordinates(s)[i].x2
  {
    MultisetValues(t, Coordinates(s));
    assert ValuesOf(Coordinates(s)) == ValuesOf(s);
    SortedUnique(ValuesOf(t), ValuesOf(s));
    CoordinatesOfValues(t, s);
  }
}
