/** The `ColorSchemeSelector` component: the legend statistics behind each
    colour scheme (shares of each location or type, degree buckets, pathway
    neighbourhoods) and the colour each node is given.

    Colours from the palette are strings; the shades of the connectivity
    scheme are counted as the number of times the base colour was lightened,
    since the colour library itself is not part of this model. */
module ColorSchemeSelector {
  import opened Seqs
  import opened JsString
  import opened Data

  // ---------------------------------------------------------------------
  // Connectivity: node degrees (lines 41-50)
  // ---------------------------------------------------------------------

  /** Lines 41-45: the source and target id of every link, link by link. */
  function ConnectedNodes(links: seq<GraphLink>): (r: seq<string>)
    ensures |r| == 2 * |links|
  {
    if |links| == 0 then []
    else ConnectedNodes(links[..|links| - 1]) + [links[|links| - 1].source, links[|links| - 1].target]
  }

  /** Link i contributes its source at 2i and its target at 2i + 1. */
  lemma {:induction false} ConnectedNodesAt(links: seq<GraphLink>, i: nat)
    requires i < |links|
    ensures ConnectedNodes(links)[2 * i] == links[i].source
    ensures ConnectedNodes(links)[2 * i + 1] == links[i].target
  {
    if i < |links| - 1 {
      ConnectedNodesAt(links[..|links| - 1], i);
    }
  }

  /** Independent count of the link ends carrying an id: one for a link it
      starts, one for a link it ends (two for a loop). */
  function EndpointCount(links: seq<GraphLink>, id: string): nat
  {
    if |links| == 0 then 0
    else
      var l := links[|links| - 1];
      EndpointCount(links[..|links| - 1], id) + (if l.source == id then 1 else 0) + (if l.target == id then 1 else 0)
  }

  /** Every id's number of occurrences among the connected nodes is the
      number of link ends it sits at. */
  lemma {:induction false} ConnectedNodesCount(links: seq<GraphLink>, id: string)
    ensures Count(ConnectedNodes(links), id) == EndpointCount(links, id)
  {
    if |links| > 0 {
      var init, l := links[..|links| - 1], links[|links| - 1];
      ConnectedNodesCount(init, id);
      var p := ConnectedNodes(init);
      assert ConnectedNodes(links) == (p + [l.source]) + [l.target];
      CountAppend(p + [l.source], l.target, id);
      CountAppend(p, l.source, id);
    }
  }

  /** The `connectionsByNode` object: its keys in insertion order and the
      value stored under each. */
  datatype DegreeTable = DegreeTable(keys: seq<string>, degree: map<string, nat>)

  /** Lines 46-50, over the first n connected nodes: a node is stored, with
      its number of occurrences, at the index where it first occurs. */
  function ConnectionsUpTo(cn: seq<string>, n: nat): DegreeTable
    requires n <= |cn|
  {
    if n == 0 then DegreeTable([], map[])
    else
      var t := ConnectionsUpTo(cn, n - 1);
      var node := cn[n - 1];
      if FindIndex(cn, node) == n - 1 then DegreeTable(t.keys + [node], t.degree[node := Count(cn, node)])
      else t
  }

  /** `connectionsByNode` */
  function ConnectionsByNode(cn: seq<string>): DegreeTable
  {
    ConnectionsUpTo(cn, |cn|)
  }

  /** A node is first met at index n - 1 exactly when it is not among the
      nodes before it. */
  lemma FirstAtLast(cn: seq<string>, n: nat)
    requires 0 < n <= |cn|
    ensures FindIndex(cn, cn[n - 1]) == n - 1 <==> cn[n - 1] !in cn[..n - 1]
  {
    var r := FindIndex(cn, cn[n - 1]);
    if cn[n - 1] in cn[..n - 1] {
      var k :| 0 <= k < n - 1 && cn[..n - 1][k] == cn[n - 1];
      assert cn[k] == cn[n - 1];
    }
  }

  /** The table lists the distinct nodes in order of first occurrence. */
  lemma {:induction false} ConnectionsUpToKeys(cn: seq<string>, n: nat)
    requires n <= |cn|
    ensures ConnectionsUpTo(cn, n).keys == Distinct(cn[..n])
  {
    if n > 0 {
      var node, p := cn[n - 1], cn[..n - 1];
      ConnectionsUpToKeys(cn, n - 1);
      FirstAtLast(cn, n);
      DistinctProperties(p);
      assert cn[..n][..n - 1] == p && cn[..n][n - 1] == node;
    }
  }

  /** The table holds exactly the first n nodes, each with its number of
      occurrences in all of cn. */
  lemma {:induction false} ConnectionsUpToDegree(cn: seq<string>, n: nat)
    requires n <= |cn|
    ensures forall x :: x in ConnectionsUpTo(cn, n).degree <==> x in cn[..n]
    ensures forall x :: x in ConnectionsUpTo(cn, n).degree ==> ConnectionsUpTo(cn, n).degree[x] == Count(cn, x)
  {
    if n > 0 {
      var node, p := cn[n - 1], cn[..n - 1];
      ConnectionsUpToDegree(cn, n - 1);
      FirstAtLast(cn, n);
      assert cn[..n] == p + [node];
      assert forall x :: x in cn[..n] <==> x in p || x == node;
    }
  }

  /** Both of the above for the whole sequence. */
  lemma ConnectionsByNodeContents(cn: seq<string>)
    ensures ConnectionsByNode(cn).keys == Distinct(cn)
    ensures forall x :: x in ConnectionsByNode(cn).degree <==> x in cn
    ensures forall x :: x in ConnectionsByNode(cn).degree ==> ConnectionsByNode(cn).degree[x] == Count(cn, x)
  {
    ConnectionsUpToKeys(cn, |cn|);
    ConnectionsUpToDegree(cn, |cn|);
    assert cn[..|cn|] == cn;
  }

  /** `Object.values(connectionsByNode)`, in key order. */
  function Values(t: DegreeTable): (r: seq<nat>)
    requires forall k :: 0 <= k < |t.keys| ==> t.keys[k] in t.degree
    ensures |r| == |t.keys| && forall k :: 0 <= k < |t.keys| ==> r[k] == t.degree[t.keys[k]]
  {
    seq(|t.keys|, k requires 0 <= k < |t.keys| => t.degree[t.keys[k]])
  }

  /** The degree table of a set of links. */
  function Degrees(links: seq<GraphLink>): DegreeTable
  {
    ConnectionsByNode(ConnectedNodes(links))
  }

  /** The degree values passed on to the bucketing. */
  function DegreeValues(links: seq<GraphLink>): (r: seq<nat>)
  {
    var t := Degrees(links);
    ConnectionsByNodeContents(ConnectedNodes(links));
    DistinctProperties(ConnectedNodes(links));
    Values(t)
  }

  /** Each id of a link end appears once in the table, with its degree: the
      number of link ends it sits at; no other id appears. */
  lemma DegreesAreEndpointCounts(links: seq<GraphLink>)
    ensures Degrees(links).keys == Distinct(ConnectedNodes(links))
    ensures forall id :: id in Degrees(links).degree <==> EndpointCount(links, id) > 0
    ensures forall id :: id in Degrees(links).degree ==> Degrees(links).degree[id] == EndpointCount(links, id)
  {
    var cn := ConnectedNodes(links);
    ConnectionsByNodeContents(cn);
    forall id ensures Count(cn, id) == EndpointCount(links, id) && (Count(cn, id) == 0 <==> id !in cn) {
      ConnectedNodesCount(links, id);
      CountZero(cn, id);
    }
  }

  /** The number of occurrences in s of each element of d. */
  function CountsOf(d: seq<string>, s: seq<string>): (r: seq<int>)
    ensures |r| == |d| && forall k :: 0 <= k < |d| ==> r[k] == Count(s, d[k])
  {
    seq(|d|, k requires 0 <= k < |d| => Count(s, d[k]))
  }

  lemma {:induction false} SumOfCounts(d: seq<string>, s: seq<string>)
    ensures Sum(CountsOf(d, s)) == SumCounts(d, s)
  {
    if |d| > 0 {
      var init := d[..|d| - 1];
      SumOfCounts(init, s);
      assert CountsOf(d, s)[..|d| - 1] == CountsOf(init, s);
    }
  }

  /** Every link contributes two ends, so the degrees add up to twice the
      number of links. */
  lemma DegreesSumToTwiceLinks(links: seq<GraphLink>)
    ensures Sum(DegreeValues(links)) == 2 * |links|
  {
    var cn := ConnectedNodes(links);
    var t := Degrees(links);
    ConnectionsByNodeContents(cn);
    DistinctProperties(cn);
    SumOfCounts(t.keys, cn);
    var q := CountsOf(t.keys, cn);
    forall k | 0 <= k < |t.keys| ensures DegreeValues(links)[k] == q[k] {
      assert t.keys[k] in cn;
    }
    assert DegreeValues(links) == q;
    SumCountsOfDistinct(cn);
  }

  // ---------------------------------------------------------------------
  // Degree buckets (lines 177-206)
  // ---------------------------------------------------------------------

  /** `Math.min(...values)` */
  function MinOf(s: seq<nat>): (m: nat)
    requires |s| > 0
    ensures m in s && forall i :: 0 <= i < |s| ==> m <= s[i]
  {
    if |s| == 1 then s[0]
    else
      var m := MinOf(s[..|s| - 1]);
      if s[|s| - 1] < m then s[|s| - 1] else m
  }

  /** `Math.max(...values)` */
  function MaxOf(s: seq<nat>): (m: nat)
    requires |s| > 0
    ensures m in s && forall i :: 0 <= i < |s| ==> s[i] <= m
  {
    if |s| == 1 then s[0]
    else
      var m := MaxOf(s[..|s| - 1]);
      if s[|s| - 1] > m then s[|s| - 1] else m
  }

  /** Lines 182-189: the bucket width is the range itself below 3, half of
      it rounded up below 10, and a fifth of it rounded up from 10 on. */
  function Step(range: nat): (step: nat)
    ensures range < 3 ==> step == range
    ensures 3 <= range < 10 ==> 2 * step - 2 < range <= 2 * step
    ensures 10 <= range ==> 5 * step - 5 < range <= 5 * step
    ensures 1 <= range ==> 1 <= step <= range
  {
    if range < 3 then range
    else if range < 10 then (range + 1) / 2
    else (range + 4) / 5
  }

  /** The bucketing finishes: no values at all (`Math.min` of nothing is
      Infinity and the loop does not run), or values that are not all equal.
      When they are all equal the step is 0 and the loop of line 191 never
      ends. */
  predicate RangeDefined(values: seq<nat>)
  {
    |values| == 0 || MinOf(values) < MaxOf(values)
  }

  /** A single step of 0 leaves the loop guard of line 191 true: the loop
      over a range of 0 does not end. */
  lemma ZeroRangeDoesNotEnd(values: seq<nat>, i: nat)
    requires |values| > 0 && MinOf(values) == MaxOf(values)
    requires i == MinOf(values)
    ensures Step(MaxOf(values) - MinOf(values)) == 0
    ensures i + Step(MaxOf(values) - MinOf(values)) <= MaxOf(values)
  {
  }

  function DigitChar(d: nat): char
    requires d < 10
  {
    "0123456789"[d]
  }

  /** A number as a template literal writes it, in decimal. */
  function NatToString(n: nat): string
    decreases n
  {
    if n < 10 then [DigitChar(n)] else NatToString(n / 10) + [DigitChar(n % 10)]
  }

  /** Line 195: `${i}-${i + step + 1} ${caption}` */
  function BucketLabel(i: nat, step: nat, caption: string): string
  {
    NatToString(i) + "-" + NatToString(i + step + 1) + " " + caption
  }

  /** A bucket as pushed by the loop of lines 191-197. */
  datatype RangeEntry = RangeEntry(min: nat, max: nat, legend: string)

  /** Lines 191-197 from bucket start i on: a bucket [i, i + step) is pushed
      for as long as it ends at or before hi. */
  function Pushed(i: nat, step: nat, hi: nat, caption: string): seq<RangeEntry>
    requires 0 < step && i <= hi
    decreases hi - i
  {
    if i + step <= hi then [RangeEntry(i, i + step, BucketLabel(i, step, caption))] + Pushed(i + step, step, hi, caption)
    else []
  }

  /** Buckets one step wide, each starting where the one before it ends. */
  ghost predicate Stepped(r: seq<RangeEntry>, step: nat)
  {
    && (forall k :: 0 <= k < |r| ==> r[k].max == r[k].min + step)
    && (forall j, k :: 0 <= j && k == j + 1 && k < |r| ==> r[k].min == r[j].max)
  }

  /** The buckets follow each other from i on; the last one ends at or
      before hi, and one more would not. */
  lemma PushedChain(i: nat, step: nat, hi: nat, caption: string)
    requires 0 < step && i <= hi
    ensures Stepped(Pushed(i, step, hi, caption), step)
    ensures |Pushed(i, step, hi, caption)| == 0 <==> hi < i + step
    ensures |Pushed(i, step, hi, caption)| > 0 ==>
      && Pushed(i, step, hi, caption)[0].min == i
      && Pushed(i, step, hi, caption)[|Pushed(i, step, hi, caption)| - 1].max <= hi
      && hi < Pushed(i, step, hi, caption)[|Pushed(i, step, hi, caption)| - 1].max + step
  {
    PushedStepped(i, step, hi, caption);
    PushedBounds(i, step, hi, caption);
  }

  /** Consecutive buckets share their boundary and each spans one step. */
  lemma {:induction false} PushedStepped(i: nat, step: nat, hi: nat, caption: string)
    requires 0 < step && i <= hi
    ensures Stepped(Pushed(i, step, hi, caption), step)
    decreases hi - i
  {
    if i + step <= hi {
      var rest := Pushed(i + step, step, hi, caption);
      PushedStepped(i + step, step, hi, caption);
      var r := Pushed(i, step, hi, caption);
      assert r[0] == RangeEntry(i, i + step, BucketLabel(i, step, caption)) && r[1..] == rest;
      forall k | 0 <= k < |r| - 1 ensures r[k + 1].min == r[k].max {
        if k > 0 {
          assert r[k + 1] == rest[k] && r[k] == rest[k - 1];
        } else if |rest| > 0 {
          PushedBounds(i + step, step, hi, caption);
        }
      }
      forall k | 0 <= k < |r| ensures r[k].max == r[k].min + step {
        if k > 0 {
          assert r[k] == rest[k - 1];
        }
      }
    }
  }

  /** The buckets start at i, and the last one ends within one step of hi. */
  lemma {:induction false} PushedBounds(i: nat, step: nat, hi: nat, caption: string)
    requires 0 < step && i <= hi
    ensures |Pushed(i, step, hi, caption)| == 0 <==> hi < i + step
    ensures |Pushed(i, step, hi, caption)| > 0 ==>
      && Pushed(i, step, hi, caption)[0].min == i
      && Pushed(i, step, hi, caption)[|Pushed(i, step, hi, caption)| - 1].max <= hi
      && hi < Pushed(i, step, hi, caption)[|Pushed(i, step, hi, caption)| - 1].max + step
    decreases hi - i
  {
    if i + step <= hi {
      var rest := Pushed(i + step, step, hi, caption);
      PushedBounds(i + step, step, hi, caption);
      var r := Pushed(i, step, hi, caption);
      assert r[0] == RangeEntry(i, i + step, BucketLabel(i, step, caption)) && r[1..] == rest;
      if |rest| > 0 {
        assert r[|r| - 1] == rest[|rest| - 1];
      }
    }
  }

  /** Each bucket is labelled by its start and its end plus one. */
  lemma {:induction false} PushedLegend(i: nat, step: nat, hi: nat, caption: string)
    requires 0 < step && i <= hi
    ensures forall k :: 0 <= k < |Pushed(i, step, hi, caption)| ==>
      Pushed(i, step, hi, caption)[k].legend == BucketLabel(Pushed(i, step, hi, caption)[k].min, step, caption)
    decreases hi - i
  {
    if i + step <= hi {
      var rest := Pushed(i + step, step, hi, caption);
      PushedLegend(i + step, step, hi, caption);
      var r := Pushed(i, step, hi, caption);
      assert r[0] == RangeEntry(i, i + step, BucketLabel(i, step, caption)) && r[1..] == rest;
      assert forall k :: 1 <= k < |r| ==> r[k] == rest[k - 1];
    }
  }

  /** Bucket k starts k steps after i. */
  lemma {:induction false} PushedStart(i: nat, step: nat, hi: nat, caption: string, k: nat)
    requires 0 < step && i <= hi && k < |Pushed(i, step, hi, caption)|
    ensures Pushed(i, step, hi, caption)[k].min == i + k * step
  {
    PushedChain(i, step, hi, caption);
    if k > 0 {
      PushedStart(i, step, hi, caption, k - 1);
      MulPredecessor(k, step);
    }
  }

  /** n buckets of one step fit from i to hi, and n + 1 do not. */
  lemma PushedLength(i: nat, step: nat, hi: nat, caption: string)
    requires 0 < step && i <= hi
    ensures i + |Pushed(i, step, hi, caption)| * step <= hi < i + |Pushed(i, step, hi, caption)| * step + step
  {
    var n := |Pushed(i, step, hi, caption)|;
    PushedChain(i, step, hi, caption);
    if n > 0 {
      PushedStart(i, step, hi, caption, n - 1);
      MulPredecessor(n, step);
    }
  }

  lemma MulPredecessor(n: nat, step: nat)
    requires n > 0
    ensures (n - 1) * step + step == n * step
  {
  }

  lemma MulAtLeast(a: nat, b: nat, c: nat)
    requires a <= b
    ensures a * c <= b * c
  {
  }

  /** For a range of at least 1 there are one to five buckets. */
  lemma PushedCount(lo: nat, hi: nat, caption: string)
    requires lo < hi
    ensures 1 <= |Pushed(lo, Step(hi - lo), hi, caption)| <= 5
  {
    var step := Step(hi - lo);
    var n := |Pushed(lo, step, hi, caption)|;
    PushedChain(lo, step, hi, caption);
    PushedLength(lo, step, hi, caption);
    if n > 5 {
      MulAtLeast(6, n, step);
      assert false;
    }
  }

  /** The bucket as the map of lines 198-205 leaves it. */
  datatype RangeShare = RangeShare(min: nat, max: nat, legend: string, value: real)

  /** `values.filter(v => v >= a && v < b).reduce((a, c) => a + c, 0)` */
  function SumIn(s: seq<nat>, a: int, b: int): nat
  {
    if |s| == 0 then 0
    else SumIn(s[..|s| - 1], a, b) + (if a <= s[|s| - 1] < b then s[|s| - 1] else 0)
  }

  /** Lines 198-205: the last bucket's bound becomes lastMax, and every bucket
      gets the sum of the values inside it over the sum of all values. */
  function Finish(values: seq<nat>, entries: seq<RangeEntry>, lastMax: nat): (r: seq<RangeShare>)
    requires Sum(values) > 0
    ensures |r| == |entries|
  {
    seq(|entries|, k requires 0 <= k < |entries| =>
      ShareOf(values, entries[k], if k == |entries| - 1 then lastMax else entries[k].max))
  }

  /** Lines 200-203: a bucket ending at mx, valued by the sum of the values
      inside it over the sum of all values. */
  function ShareOf(values: seq<nat>, e: RangeEntry, mx: nat): RangeShare
    requires Sum(values) > 0
  {
    RangeShare(e.min, mx, e.legend, SumIn(values, e.min, mx) as real / Sum(values) as real)
  }

  /** A sum of naturals is at least each of its terms. */
  lemma {:induction false} SumAtLeastMember(s: seq<nat>, x: nat)
    requires x in s
    ensures x <= Sum(s)
  {
    var init := s[..|s| - 1];
    SumNonNegative(init);
    if s[|s| - 1] != x {
      assert x in init;
      SumAtLeastMember(init, x);
    }
  }

  /** Line 199: the last bucket's bound, widened by one. */
  function WidenedLast(entries: seq<RangeEntry>): nat
  {
    if |entries| == 0 then 0 else entries[|entries| - 1].max + 1
  }

  /** `calculateRelativePercentagesForRange` as written: the last bucket's
      bound is widened by one. */
  function RangeShares(values: seq<nat>, caption: string): seq<RangeShare>
    requires RangeDefined(values)
  {
    if |values| == 0 then [] else SharesBetween(values, MinOf(values), MaxOf(values), caption)
  }

  /** The buckets from lo up to hi, with the last one widened by one. */
  function SharesBetween(values: seq<nat>, lo: nat, hi: nat, caption: string): seq<RangeShare>
    requires lo < hi && hi in values
  {
    SumAtLeastMember(values, hi);
    Finish(values, Pushed(lo, Step(hi - lo), hi, caption), WidenedLast(Pushed(lo, Step(hi - lo), hi, caption)))
  }

  /** RangeShares for non-empty values, with its bounds and step named. */
  lemma RangeSharesUnfold(values: seq<nat>, caption: string, lo: nat, hi: nat, step: nat)
    requires |values| > 0 && RangeDefined(values)
    requires lo == MinOf(values) && hi == MaxOf(values) && step == Step(hi - lo)
    ensures 0 < step && lo < hi && 0 < Sum(values)
    ensures RangeShares(values, caption) == Finish(values, Pushed(lo, step, hi, caption), WidenedLast(Pushed(lo, step, hi, caption)))
  {
    SumAtLeastMember(values, hi);
    assert RangeShares(values, caption) == SharesBetween(values, lo, hi, caption);
    SharesBetweenStep(values, lo, hi, caption, step);
  }

  lemma SharesBetweenStep(values: seq<nat>, lo: nat, hi: nat, caption: string, step: nat)
    requires lo < hi && hi in values && step == Step(hi - lo) && 0 < Sum(values)
    ensures SharesBetween(values, lo, hi, caption) == Finish(values, Pushed(lo, step, hi, caption), WidenedLast(Pushed(lo, step, hi, caption)))
  {
  }

  /** Lines 191-197: the loop pushing the buckets. */
  method PushBuckets(lo: nat, step: nat, hi: nat, caption: string) returns (entries: seq<RangeEntry>)
    requires 0 < step && lo <= hi
    ensures entries == Pushed(lo, step, hi, caption)
  {
    entries := [];
    var i := lo;
    while i + step <= hi
      invariant lo <= i <= hi
      invariant entries + Pushed(i, step, hi, caption) == Pushed(lo, step, hi, caption)
      decreases hi - i
    {
      var e := RangeEntry(i, i + step, BucketLabel(i, step, caption));
      assert Pushed(i, step, hi, caption) == [e] + Pushed(i + step, step, hi, caption);
      assert (entries + [e]) + Pushed(i + step, step, hi, caption) == entries + Pushed(i, step, hi, caption);
      entries := entries + [e];
      i := i + step;
    }
  }

  /** Lines 177-206. */
  method CalculateRelativePercentagesForRange(values: seq<nat>, caption: string) returns (r: seq<RangeShare>)
    requires RangeDefined(values)
    ensures r == RangeShares(values, caption)
  {
    if |values| == 0 {
      return [];
    }
    var lo, hi := MinOf(values), MaxOf(values);
    var step := Step(hi - lo);
    RangeSharesUnfold(values, caption, lo, hi, step);
    var entries := PushBuckets(lo, step, hi, caption);
    r := ValueBuckets(values, entries);
  }

  /** The `map` over the pushed buckets: each is valued by its contents,
      and the last one's bound is widened by one. */
  method ValueBuckets(values: seq<nat>, entries: seq<RangeEntry>) returns (r: seq<RangeShare>)
    requires Sum(values) > 0
    ensures r == Finish(values, entries, WidenedLast(entries))
  {
    ghost var f := Finish(values, entries, WidenedLast(entries));
    r := [];
    var k := 0;
    while k < |entries|
      invariant 0 <= k <= |entries| && |r| == k
      invariant forall j :: 0 <= j < k ==> r[j] == f[j]
    {
      var e := entries[k];
      var mx := if k == |entries| - 1 then e.max + 1 else e.max;
      r := r + [ShareOf(values, e, mx)];
      k := k + 1;
    }
  }

  /** Bucket k contains the degree c. */
  predicate Contains(b: RangeShare, c: int)
  {
    b.min <= c < b.max
  }

  /** Each bucket begins where the one before it ends, and none is reversed. */
  ghost predicate Consecutive(r: seq<RangeShare>)
  {
    && (forall k :: 0 <= k < |r| ==> r[k].min <= r[k].max)
    && (forall j, k :: 0 <= j && k == j + 1 && k < |r| ==> r[j].max == r[k].min)
  }

  /** Every bucket is valued by the values inside it over the sum of all. */
  ghost predicate Valued(values: seq<nat>, r: seq<RangeShare>)
  {
    Sum(values) > 0 &&
    forall k :: 0 <= k < |r| ==> r[k].value == SumIn(values, r[k].min, r[k].max) as real / Sum(values) as real
  }

  /** The values of the buckets, in order. */
  function ShareValues(r: seq<RangeShare>): (v: seq<real>)
    ensures |v| == |r| && forall k :: 0 <= k < |r| ==> v[k] == r[k].value
  {
    seq(|r|, k requires 0 <= k < |r| => r[k].value)
  }

  /** The finished buckets keep the pushed ones' bounds and labels, except
      that the last one ends at lastMax, and are valued by their contents. */
  lemma FinishValued(values: seq<nat>, entries: seq<RangeEntry>, lastMax: nat)
    requires Sum(values) > 0
    ensures Valued(values, Finish(values, entries, lastMax))
  {
  }

  lemma FinishElements(values: seq<nat>, entries: seq<RangeEntry>, lastMax: nat)
    requires Sum(values) > 0
    ensures forall k :: 0 <= k < |entries| ==>
      && Finish(values, entries, lastMax)[k].min == entries[k].min
      && Finish(values, entries, lastMax)[k].legend == entries[k].legend
      && Finish(values, entries, lastMax)[k].max == (if k == |entries| - 1 then lastMax else entries[k].max)
  {
  }

  /** Pushed buckets one step wide and following each other stay so once
      finished, provided the last one is not narrowed. */
  lemma FinishConsecutive(values: seq<nat>, entries: seq<RangeEntry>, step: nat, lastMax: nat)
    requires Sum(values) > 0 && Stepped(entries, step) && |entries| > 0
    requires entries[|entries| - 1].max <= lastMax
    ensures Consecutive(Finish(values, entries, lastMax))
    ensures forall k :: 0 <= k < |entries| - 1 ==> Finish(values, entries, lastMax)[k].max == Finish(values, entries, lastMax)[k].min + step
  {
    FinishElements(values, entries, lastMax);
  }

  /** There are one to five buckets as written. */
  lemma RangeSharesCount(values: seq<nat>, caption: string, lo: nat, hi: nat, step: nat)
    requires |values| > 0 && RangeDefined(values)
    requires lo == MinOf(values) && hi == MaxOf(values) && step == Step(hi - lo)
    ensures 1 <= |RangeShares(values, caption)| <= 5
  {
    RangeSharesUnfold(values, caption, lo, hi, step);
    PushedCount(lo, hi, caption);
  }

  /** The first bucket starts at the smallest value and bucket k starts k
      steps later. */
  lemma RangeSharesStarts(values: seq<nat>, caption: string, lo: nat, hi: nat, step: nat)
    requires |values| > 0 && RangeDefined(values)
    requires lo == MinOf(values) && hi == MaxOf(values) && step == Step(hi - lo)
    ensures forall k :: 0 <= k < |RangeShares(values, caption)| ==> RangeShares(values, caption)[k].min == lo + k * step
  {
    RangeSharesUnfold(values, caption, lo, hi, step);
    var entries := Pushed(lo, step, hi, caption);
    FinishElements(values, entries, WidenedLast(entries));
    forall k | 0 <= k < |entries| ensures entries[k].min == lo + k * step {
      PushedStart(lo, step, hi, caption, k);
    }
  }

  /** Each bucket is labelled by its bounds as pushed and the caption. */
  lemma RangeSharesLegends(values: seq<nat>, caption: string, lo: nat, hi: nat, step: nat)
    requires |values| > 0 && RangeDefined(values)
    requires lo == MinOf(values) && hi == MaxOf(values) && step == Step(hi - lo)
    ensures forall k :: 0 <= k < |RangeShares(values, caption)| ==>
      RangeShares(values, caption)[k].legend == BucketLabel(RangeShares(values, caption)[k].min, step, caption)
  {
    RangeSharesUnfold(values, caption, lo, hi, step);
    var entries := Pushed(lo, step, hi, caption);
    PushedLegend(lo, step, hi, caption);
    FinishElements(values, entries, WidenedLast(entries));
  }

  /** The buckets as written follow each other and are one step wide,
      except the last. */
  lemma RangeSharesConsecutive(values: seq<nat>, caption: string, lo: nat, hi: nat, step: nat)
    requires |values| > 0 && RangeDefined(values)
    requires lo == MinOf(values) && hi == MaxOf(values) && step == Step(hi - lo)
    ensures Consecutive(RangeShares(values, caption))
    ensures forall k :: 0 <= k < |RangeShares(values, caption)| - 1 ==>
      RangeShares(values, caption)[k].max == RangeShares(values, caption)[k].min + step
  {
    RangeSharesUnfold(values, caption, lo, hi, step);
    var entries := Pushed(lo, step, hi, caption);
    PushedChain(lo, step, hi, caption);
    FinishConsecutive(values, entries, step, WidenedLast(entries));
  }

  /** The last bucket as written is one step and one wide, so it ends one
      past the last bound pushed. */
  lemma RangeSharesLastWidth(values: seq<nat>, caption: string, lo: nat, hi: nat, step: nat, r: seq<RangeShare>)
    requires |values| > 0 && RangeDefined(values)
    requires lo == MinOf(values) && hi == MaxOf(values) && step == Step(hi - lo)
    requires r == RangeShares(values, caption)
    ensures |r| > 0 && r[|r| - 1].max == r[|r| - 1].min + step + 1
  {
    RangeSharesUnfold(values, caption, lo, hi, step);
    var entries := Pushed(lo, step, hi, caption);
    PushedCount(lo, hi, caption);
    PushedChain(lo, step, hi, caption);
    FinishElements(values, entries, WidenedLast(entries));
  }

  /** Every bucket as written is valued by the values inside it. */
  lemma RangeSharesValued(values: seq<nat>, caption: string, lo: nat, hi: nat, step: nat)
    requires |values| > 0 && RangeDefined(values)
    requires lo == MinOf(values) && hi == MaxOf(values) && step == Step(hi - lo)
    ensures Valued(values, RangeShares(values, caption))
  {
    RangeSharesUnfold(values, caption, lo, hi, step);
    var entries := Pushed(lo, step, hi, caption);
    FinishValued(values, entries, WidenedLast(entries));
  }

  /** Consecutive buckets do not overlap: an earlier one ends before a later
      one begins. */
  lemma {:induction false} ConsecutiveOrdered(r: seq<RangeShare>, j: nat, k: nat)
    requires Consecutive(r) && j < k < |r|
    ensures r[j].max <= r[k].min
    decreases k - j
  {
    if j + 1 < k {
      ConsecutiveOrdered(r, j + 1, k);
    }
  }

  /** At most one of a run of consecutive buckets contains a degree. */
  lemma AtMostOneBucket(r: seq<RangeShare>, c: int, j: nat, k: nat)
    requires Consecutive(r) && j < |r| && k < |r|
    requires Contains(r[j], c) && Contains(r[k], c)
    ensures j == k
  {
    if j < k {
      ConsecutiveOrdered(r, j, k);
    } else if k < j {
      ConsecutiveOrdered(r, k, j);
    }
  }

  /** A run of consecutive buckets covers everything from its first bound
      to its last one. */
  lemma {:induction false} ConsecutiveCovers(r: seq<RangeShare>, c: int) returns (k: nat)
    requires Consecutive(r) && |r| > 0 && r[0].min <= c < r[|r| - 1].max
    ensures k < |r| && Contains(r[k], c)
  {
    if r[|r| - 1].min <= c {
      k := |r| - 1;
    } else {
      var init := r[..|r| - 1];
      assert init[|init| - 1].max == r[|r| - 1].min;
      k := ConsecutiveCovers(init, c);
      assert init[k] == r[k];
    }
  }

  lemma {:induction false} SumInSplit(s: seq<nat>, a: int, b: int, c: int)
    requires a <= b <= c
    ensures SumIn(s, a, b) + SumIn(s, b, c) == SumIn(s, a, c)
  {
    if |s| > 0 {
      SumInSplit(s[..|s| - 1], a, b, c);
    }
  }

  lemma {:induction false} SumInAtMost(s: seq<nat>, a: int, b: int)
    ensures SumIn(s, a, b) <= Sum(s)
  {
    if |s| > 0 {
      SumInAtMost(s[..|s| - 1], a, b);
    }
  }

  lemma {:induction false} SumInAll(s: seq<nat>, a: int, b: int)
    requires forall i :: 0 <= i < |s| ==> a <= s[i] < b
    ensures SumIn(s, a, b) == Sum(s)
  {
    if |s| > 0 {
      SumInAll(s[..|s| - 1], a, b);
    }
  }

  lemma DivAdd(x: real, y: real, t: real)
    requires t > 0.0
    ensures x / t + y / t == (x + y) / t
  {
  }

  /** The values of consecutive buckets add up to the share of everything
      between the first bound and the last. */
  lemma {:induction false} SharesTelescope(values: seq<nat>, r: seq<RangeShare>)
    requires Consecutive(r) && Valued(values, r) && |r| > 0
    ensures SumReal(ShareValues(r)) == SumIn(values, r[0].min, r[|r| - 1].max) as real / Sum(values) as real
  {
    var T := Sum(values) as real;
    if |r| > 1 {
      var init := r[..|r| - 1];
      SharesTelescope(values, init);
      assert ShareValues(r)[..|r| - 1] == ShareValues(init);
      var a, b, c := r[0].min, r[|r| - 2].max, r[|r| - 1].max;
      assert b == r[|r| - 1].min;
      ConsecutiveOrdered(r, 0, |r| - 1);
      SumInSplit(values, a, b, c);
      DivAdd(SumIn(values, a, b) as real, SumIn(values, b, c) as real, T);
    } else {
      assert ShareValues(r)[..0] == [];
    }
  }

  lemma DivAtMostOne(x: real, t: real)
    requires 0.0 < t && x <= t
    ensures x / t <= 1.0
  {
  }

  /** Consecutive buckets valued by their contents share out at most all
      of the values. */
  lemma ConsecutiveSharesAtMostOne(values: seq<nat>, r: seq<RangeShare>)
    requires Consecutive(r) && Valued(values, r) && |r| > 0
    ensures SumReal(ShareValues(r)) <= 1.0
  {
    SharesTelescope(values, r);
    SumInAtMost(values, r[0].min, r[|r| - 1].max);
    DivAtMostOne(SumIn(values, r[0].min, r[|r| - 1].max) as real, Sum(values) as real);
  }

  /** The bucket values add up to at most 1. */
  lemma RangeSharesAtMostOne(values: seq<nat>, caption: string)
    requires RangeDefined(values)
    ensures SumReal(ShareValues(RangeShares(values, caption))) <= 1.0
  {
    if |values| > 0 {
      var lo, hi := MinOf(values), MaxOf(values);
      var step := Step(hi - lo);
      RangeSharesCount(values, caption, lo, hi, step);
      RangeSharesConsecutive(values, caption, lo, hi, step);
      RangeSharesValued(values, caption, lo, hi, step);
      ConsecutiveSharesAtMostOne(values, RangeShares(values, caption));
    } else {
      assert ShareValues([]) == [];
    }
  }

  // ---------------------------------------------------------------------
  // Coverage of the largest degree
  // ---------------------------------------------------------------------

  /** The last pushed bucket ends n steps after i. */
  lemma PushedEnd(i: nat, step: nat, hi: nat, caption: string)
    requires 0 < step && i <= hi && |Pushed(i, step, hi, caption)| > 0
    ensures Pushed(i, step, hi, caption)[|Pushed(i, step, hi, caption)| - 1].max == i + |Pushed(i, step, hi, caption)| * step
  {
    var n := |Pushed(i, step, hi, caption)|;
    PushedChain(i, step, hi, caption);
    PushedStart(i, step, hi, caption, n - 1);
    MulPredecessor(n, step);
  }

  /** A run of consecutive buckets from at most c on contains c exactly when
      c lies below the last bound. */
  lemma ConsecutiveContainsIff(r: seq<RangeShare>, c: int)
    requires Consecutive(r) && |r| > 0 && r[0].min <= c
    ensures (exists k :: 0 <= k < |r| && Contains(r[k], c)) <==> c < r[|r| - 1].max
  {
    if c < r[|r| - 1].max {
      var k := ConsecutiveCovers(r, c);
    } else {
      forall k | 0 <= k < |r| ensures !Contains(r[k], c) {
        if k < |r| - 1 {
          ConsecutiveOrdered(r, k, |r| - 1);
        }
      }
    }
  }

  lemma MulSucc(n: nat, step: nat)
    ensures (n + 1) * step == n * step + step
  {
  }

  /** A number n steps and a remainder below one step is that remainder
      modulo the step. */
  lemma ModOfRemainder(a: nat, n: nat, step: nat, rem: nat)
    requires 0 <= rem < step && a == n * step + rem
    ensures a % step == rem
  {
    var q, m := a / step, a % step;
    assert a == q * step + m;
    if q > n {
      MulAtLeast(n + 1, q, step);
      MulSucc(n, step);
      assert false;
    } else if q < n {
      MulAtLeast(q + 1, n, step);
      MulSucc(q, step);
      assert false;
    }
  }

  /** The buckets as written end one past lo + n * step, where n is the
      number of whole steps from lo up to hi. */
  lemma RangeSharesLastEnd(values: seq<nat>, caption: string, lo: nat, hi: nat, step: nat, r: seq<RangeShare>)
    requires |values| > 0 && RangeDefined(values)
    requires lo == MinOf(values) && hi == MaxOf(values) && step == Step(hi - lo)
    requires r == RangeShares(values, caption)
    ensures |r| > 0 && r[|r| - 1].max == lo + |r| * step + 1
    ensures lo + |r| * step <= hi < lo + |r| * step + step
  {
    RangeSharesUnfold(values, caption, lo, hi, step);
    var entries := Pushed(lo, step, hi, caption);
    PushedCount(lo, hi, caption);
    PushedEnd(lo, step, hi, caption);
    PushedLength(lo, step, hi, caption);
    FinishElements(values, entries, WidenedLast(entries));
  }

  /** Consecutive buckets from lo ending one past lo + n * step, where
      n whole steps from lo reach no further than hi: hi is in a bucket
      exactly when it is a whole number of steps from lo. */
  lemma ConsecutiveContainsStepped(r: seq<RangeShare>, lo: nat, hi: nat, step: nat)
    requires Consecutive(r) && |r| > 0 && r[0].min == lo && 0 < step
    requires r[|r| - 1].max == lo + |r| * step + 1
    requires lo + |r| * step <= hi < lo + |r| * step + step
    ensures (exists k :: 0 <= k < |r| && Contains(r[k], hi)) <==> (hi - lo) % step == 0
  {
    ConsecutiveContainsIff(r, hi);
    ModOfRemainder(hi - lo, |r|, step, hi - lo - |r| * step);
  }

  /** As written, the largest value falls into a bucket only when the range
      is a whole number of steps; otherwise no bucket contains it. */
  lemma RangeSharesCoverMax(values: seq<nat>, caption: string, lo: nat, hi: nat, step: nat)
    requires |values| > 0 && RangeDefined(values)
    requires lo == MinOf(values) && hi == MaxOf(values) && step == Step(hi - lo)
    ensures var r := RangeShares(values, caption);
      (exists k :: 0 <= k < |r| && Contains(r[k], hi)) <==> (hi - lo) % step == 0
  {
    var r := RangeShares(values, caption);
    RangeSharesUnfold(values, caption, lo, hi, step);
    RangeSharesLastEnd(values, caption, lo, hi, step, r);
    RangeSharesStarts(values, caption, lo, hi, step);
    RangeSharesConsecutive(values, caption, lo, hi, step);
    ConsecutiveContainsStepped(r, lo, hi, step);
  }

  /** The degrees of a star, one node linked to four others that are each
      linked only to it: [4, 1, 1, 1, 1]. The range 3 gives the step 2, a
      single bucket [1, 4), and the degree 4 lies in no bucket. */
  lemma RangeSharesMissMaxExample()
    ensures RangeDefined([4, 1, 1, 1, 1])
    ensures var r := RangeShares([4, 1, 1, 1, 1], "connections");
      |r| == 1 && r[0].min == 1 && r[0].max == 4 && !Contains(r[0], 4)
  {
    var values: seq<nat> := [4, 1, 1, 1, 1];
    assert MinOf(values) == 1 by {
      assert 1 in values;
    }
    assert MaxOf(values) == 4 by {
      assert 4 in values;
    }
    RangeSharesCount(values, "connections", 1, 4, 2);
    RangeSharesLastEnd(values, "connections", 1, 4, 2, RangeShares(values, "connections"));
    RangeSharesStarts(values, "connections", 1, 4, 2);
  }

  // ---------------------------------------------------------------------
  // Buckets that cover every value
  // ---------------------------------------------------------------------

  /** The corrected bucketing is defined for no values, for values that
      are not all equal, and for equal values that are positive (their sum,
      the divisor of line 203, is then not 0). */
  predicate CoveringDefined(values: seq<nat>)
  {
    |values| == 0 || MinOf(values) < MaxOf(values) || 0 < MinOf(values)
  }

  /** The bucketing with the last bucket ending one past the largest value,
      so that every value from the smallest to the largest has a bucket,
      and with a single bucket [v, v + 1) when every value is v, where the
      source's step of 0 keeps the loop of line 191 running forever. */
  function CoveringShares(values: seq<nat>, caption: string): seq<RangeShare>
    requires CoveringDefined(values)
  {
    if |values| == 0 then []
    else if MinOf(values) == MaxOf(values) then EqualShares(values, MinOf(values), caption)
    else CoveringBetween(values, MinOf(values), MaxOf(values), caption)
  }

  /** The one bucket [v, v + 1) for values that all equal v. */
  function EqualShares(values: seq<nat>, v: nat, caption: string): seq<RangeShare>
    requires 0 < v && v in values
  {
    SumAtLeastMember(values, v);
    [ShareOf(values, RangeEntry(v, v + 1, BucketLabel(v, 0, caption)), v + 1)]
  }

  /** Equal degrees v give one bucket [v, v + 1) that holds every value
      and has the share 1. */
  lemma CoveringSharesEqualDegrees(values: seq<nat>, caption: string)
    requires |values| > 0 && MinOf(values) == MaxOf(values) && 0 < MinOf(values)
    ensures var r := CoveringShares(values, caption); var v := MinOf(values);
      && |r| == 1 && r[0].min == v && r[0].max == v + 1
      && (forall i :: 0 <= i < |values| ==> values[i] == v && Contains(r[0], values[i]))
      && r[0].value == 1.0
  {
    var r := CoveringShares(values, caption);
    var v := MinOf(values);
    EqualSharesShape(values, caption, r);
    ConsecutiveSharesAll(values, r);
    assert SumReal(ShareValues(r)) == r[0].value by {
      assert ShareValues(r)[..0] == [];
    }
  }

  /** The single equal-degree bucket is consecutive, valued by its
      contents, and spans every value. */
  lemma EqualSharesShape(values: seq<nat>, caption: string, r: seq<RangeShare>)
    requires |values| > 0 && MinOf(values) == MaxOf(values) && 0 < MinOf(values)
    requires r == CoveringShares(values, caption)
    ensures |r| == 1 && r[0].min == MinOf(values) && r[0].max == MinOf(values) + 1
    ensures Consecutive(r) && Valued(values, r)
    ensures forall i :: 0 <= i < |values| ==> values[i] == MinOf(values) && r[0].min <= values[i] < r[|r| - 1].max
  {
    SumAtLeastMember(values, MinOf(values));
  }

  /** The bound one past the largest value. */
  function OnePast(hi: nat): nat
  {
    hi + 1
  }

  function CoveringBetween(values: seq<nat>, lo: nat, hi: nat, caption: string): seq<RangeShare>
    requires lo < hi && hi in values
  {
    SumAtLeastMember(values, hi);
    Finish(values, Pushed(lo, Step(hi - lo), hi, caption), OnePast(hi))
  }

  /** CoveringShares for non-empty values, with its bounds and step named. */
  lemma CoveringSharesUnfold(values: seq<nat>, caption: string, lo: nat, hi: nat, step: nat)
    requires |values| > 0 && RangeDefined(values)
    requires lo == MinOf(values) && hi == MaxOf(values) && step == Step(hi - lo)
    ensures 0 < step && lo < hi && 0 < Sum(values)
    ensures CoveringShares(values, caption) == Finish(values, Pushed(lo, step, hi, caption), OnePast(hi))
  {
    SumAtLeastMember(values, hi);
    assert CoveringShares(values, caption) == CoveringBetween(values, lo, hi, caption);
    CoveringBetweenStep(values, lo, hi, caption, step);
  }

  lemma CoveringBetweenStep(values: seq<nat>, lo: nat, hi: nat, caption: string, step: nat)
    requires lo < hi && hi in values && step == Step(hi - lo) && 0 < Sum(values)
    ensures CoveringBetween(values, lo, hi, caption) == Finish(values, Pushed(lo, step, hi, caption), OnePast(hi))
  {
  }

  /** The covering buckets start at the smallest value and end one past
      the largest. */
  lemma CoveringSharesBounds(values: seq<nat>, caption: string, lo: nat, hi: nat, step: nat, r: seq<RangeShare>)
    requires |values| > 0 && RangeDefined(values)
    requires lo == MinOf(values) && hi == MaxOf(values) && step == Step(hi - lo)
    requires r == CoveringShares(values, caption)
    ensures |r| > 0 && r[0].min == lo && r[|r| - 1].max == hi + 1
  {
    CoveringSharesUnfold(values, caption, lo, hi, step);
    var entries := Pushed(lo, step, hi, caption);
    PushedCount(lo, hi, caption);
    PushedChain(lo, step, hi, caption);
    FinishElements(values, entries, OnePast(hi));
  }

  /** The covering buckets follow each other and are valued by their
      contents. */
  lemma CoveringSharesShape(values: seq<nat>, caption: string, lo: nat, hi: nat, step: nat, r: seq<RangeShare>)
    requires |values| > 0 && RangeDefined(values)
    requires lo == MinOf(values) && hi == MaxOf(values) && step == Step(hi - lo)
    requires r == CoveringShares(values, caption)
    ensures |r| > 0 && r[0].min == lo && r[|r| - 1].max == hi + 1
    ensures Consecutive(r) && Valued(values, r)
  {
    CoveringSharesBounds(values, caption, lo, hi, step, r);
    CoveringSharesUnfold(values, caption, lo, hi, step);
    var entries := Pushed(lo, step, hi, caption);
    PushedCount(lo, hi, caption);
    PushedChain(lo, step, hi, caption);
    FinishValued(values, entries, OnePast(hi));
    FinishConsecutive(values, entries, step, OnePast(hi));
  }

  /** Every value lies in exactly one covering bucket. */
  lemma CoveringSharesPartition(values: seq<nat>, caption: string, v: nat)
    requires CoveringDefined(values) && v in values
    ensures var r := CoveringShares(values, caption);
      exists k :: 0 <= k < |r| && Contains(r[k], v)
    ensures var r := CoveringShares(values, caption);
      forall j, k :: 0 <= j < |r| && 0 <= k < |r| && Contains(r[j], v) && Contains(r[k], v) ==> j == k
  {
    var r := CoveringShares(values, caption);
    var lo, hi := MinOf(values), MaxOf(values);
    if lo == hi {
      EqualSharesShape(values, caption, r);
      assert Contains(r[0], v);
    } else {
      CoveringSharesShape(values, caption, lo, hi, Step(hi - lo), r);
      ConsecutiveContainsIff(r, v);
    }
    forall j, k | 0 <= j < |r| && 0 <= k < |r| && Contains(r[j], v) && Contains(r[k], v) ensures j == k {
      AtMostOneBucket(r, v, j, k);
    }
  }

  lemma DivSelf(t: real)
    requires 0.0 < t
    ensures t / t == 1.0
  {
  }

  /** Consecutive buckets valued by their contents and spanning every value
      share out all of the values. */
  lemma ConsecutiveSharesAll(values: seq<nat>, r: seq<RangeShare>)
    requires Consecutive(r) && Valued(values, r) && |r| > 0
    requires forall i :: 0 <= i < |values| ==> r[0].min <= values[i] < r[|r| - 1].max
    ensures SumReal(ShareValues(r)) == 1.0
  {
    SharesTelescope(values, r);
    SumInAll(values, r[0].min, r[|r| - 1].max);
    DivSelf(Sum(values) as real);
  }

  /** The covering bucket values share out all of the values: they add up
      to exactly 1. */
  lemma CoveringSharesSumToOne(values: seq<nat>, caption: string)
    requires CoveringDefined(values) && |values| > 0
    ensures SumReal(ShareValues(CoveringShares(values, caption))) == 1.0
  {
    var r := CoveringShares(values, caption);
    var lo, hi := MinOf(values), MaxOf(values);
    if lo == hi {
      EqualSharesShape(values, caption, r);
    } else {
      CoveringSharesShape(values, caption, lo, hi, Step(hi - lo), r);
    }
    ConsecutiveSharesAll(values, r);
  }

  // ---------------------------------------------------------------------
  // Connectivity colours (lines 55-61 and 147-157)
  // ---------------------------------------------------------------------

  /** Buckets in non-increasing order of their lower bound. */
  ghost predicate SortedByMinDesc(s: seq<RangeShare>)
  {
    forall j, k :: 0 <= j < k < |s| ==> s[k].min <= s[j].min
  }

  /** b put into s, which is sorted by min descending, after every bucket
      whose min is at least b's: where a stable sort with the comparator
      `(a, b) => b.min - a.min` puts it. */
  function InsertByMinDesc(b: RangeShare, s: seq<RangeShare>): (r: seq<RangeShare>)
    ensures |r| == |s| + 1
  {
    if |s| == 0 then [b]
    else if b.min <= s[0].min then [s[0]] + InsertByMinDesc(b, s[1..])
    else [b] + s
  }

  /** `[...data].sort((a, b) => b.min - a.min)`: a stable sort of a copy, so
      the buckets passed in keep their order. */
  function SortByMinDesc(s: seq<RangeShare>): (r: seq<RangeShare>)
    ensures |r| == |s|
  {
    if |s| == 0 then [] else InsertByMinDesc(s[|s| - 1], SortByMinDesc(s[..|s| - 1]))
  }

  lemma {:induction false} InsertByMinDescPerm(b: RangeShare, s: seq<RangeShare>)
    ensures multiset(InsertByMinDesc(b, s)) == multiset(s) + multiset{b}
  {
    if |s| > 0 && b.min <= s[0].min {
      InsertByMinDescPerm(b, s[1..]);
      assert s == [s[0]] + s[1..];
    }
  }

  lemma {:induction false} InsertByMinDescSorted(b: RangeShare, s: seq<RangeShare>)
    requires SortedByMinDesc(s)
    ensures SortedByMinDesc(InsertByMinDesc(b, s))
  {
    if |s| > 0 && b.min <= s[0].min {
      var t := s[1..];
      assert SortedByMinDesc(t);
      InsertByMinDescSorted(b, t);
      InsertByMinDescPerm(b, t);
      var r := InsertByMinDesc(b, s);
      forall k | 0 < k < |r| ensures r[k].min <= s[0].min {
        var x := r[k];
        assert x == InsertByMinDesc(b, t)[k - 1];
        assert x in multiset(InsertByMinDesc(b, t));
        assert x in multiset(t) || x == b;
        if x != b {
          var i :| 0 <= i < |t| && t[i] == x;
          assert s[i + 1] == x;
        }
      }
    }
  }

  /** The sorted copy holds the same buckets, by min descending. */
  lemma {:induction false} SortByMinDescSpec(s: seq<RangeShare>)
    ensures SortedByMinDesc(SortByMinDesc(s))
    ensures multiset(SortByMinDesc(s)) == multiset(s)
  {
    if |s| > 0 {
      var init := s[..|s| - 1];
      SortByMinDescSpec(init);
      InsertByMinDescSorted(s[|s| - 1], SortByMinDesc(init));
      InsertByMinDescPerm(s[|s| - 1], SortByMinDesc(init));
      assert s == init + [s[|s| - 1]];
    }
  }

  function Reversed(s: seq<RangeShare>): (r: seq<RangeShare>)
    ensures |r| == |s| && forall k :: 0 <= k < |s| ==> r[k] == s[|s| - 1 - k]
  {
    if |s| == 0 then [] else [s[|s| - 1]] + Reversed(s[..|s| - 1])
  }

  ghost predicate StrictlyIncreasingMin(s: seq<RangeShare>)
  {
    forall j, k :: 0 <= j < k < |s| ==> s[j].min < s[k].min
  }

  /** Buckets with increasing lower bounds, as the bucketing produces them,
      come out of the sort in reverse. */
  lemma {:induction false} SortIncreasingReverses(s: seq<RangeShare>)
    requires StrictlyIncreasingMin(s)
    ensures SortByMinDesc(s) == Reversed(s)
  {
    if |s| > 0 {
      var init := s[..|s| - 1];
      assert StrictlyIncreasingMin(init);
      SortIncreasingReverses(init);
      var t := SortByMinDesc(init);
      if |t| > 0 {
        assert t[0] == init[|init| - 1];
      }
    }
  }

  /** A degree bucket with its colour: the number of times the base colour
      was lightened to get it. */
  datatype ShadedShare = ShadedShare(share: RangeShare, shade: nat)

  /** Lines 147-157: the buckets by min descending, the k-th of them
      (counting from 0) coloured with the base colour lightened k + 1 times. */
  function AssignMonochromaticColors(data: seq<RangeShare>): seq<ShadedShare>
  {
    var sorted := SortByMinDesc(data);
    seq(|sorted|, k requires 0 <= k < |sorted| => ShadedShare(sorted[k], k + 1))
  }

  /** Every bucket keeps its place in the legend and gets a shade of its
      own; the higher its degrees, the darker (the fewer times lightened). */
  lemma MonochromaticColorsSpec(data: seq<RangeShare>)
    ensures var r := AssignMonochromaticColors(data);
      && |r| == |data|
      && multiset(seq(|r|, k requires 0 <= k < |r| => r[k].share)) == multiset(data)
      && (forall j, k :: 0 <= j < k < |r| ==> r[k].share.min <= r[j].share.min && r[j].shade < r[k].shade)
      && (forall k :: 0 <= k < |r| ==> 1 <= r[k].shade <= |r|)
  {
    var r := AssignMonochromaticColors(data);
    var sorted := SortByMinDesc(data);
    SortByMinDescSpec(data);
    assert seq(|r|, k requires 0 <= k < |r| => r[k].share) == sorted;
  }

  /** `colorScheme.find(a => c >= a.min && c < a.max)`, then its colour: the
      shade of the first bucket holding c, or None where there is none and
      reading `.color` of undefined throws. */
  function FindShade(scheme: seq<ShadedShare>, c: int): (r: Option<nat>)
    ensures r.None? <==> forall k :: 0 <= k < |scheme| ==> !Contains(scheme[k].share, c)
    ensures r.Some? ==> exists k :: 0 <= k < |scheme| && Contains(scheme[k].share, c) && scheme[k].shade == r.value
  {
    if |scheme| == 0 then None
    else if Contains(scheme[0].share, c) then Some(scheme[0].shade)
    else
      var r := FindShade(scheme[1..], c);
      assert forall k :: 1 <= k < |scheme| ==> scheme[k] == scheme[1..][k - 1];
      r
  }

  /** Lines 56-61: the colour of a node with the given id. A node without a
      degree compares undefined with the bounds, which matches no bucket. */
  function ConnectivityColor(t: DegreeTable, scheme: seq<ShadedShare>, id: string): Option<nat>
  {
    if id in t.degree then FindShade(scheme, t.degree[id]) else None
  }

  /** A node gets a colour exactly when it has a degree and some bucket
      holds that degree. */
  lemma ConnectivityColorSome(t: DegreeTable, data: seq<RangeShare>, id: string)
    ensures ConnectivityColor(t, AssignMonochromaticColors(data), id).Some? <==>
      id in t.degree && exists k :: 0 <= k < |data| && Contains(data[k], t.degree[id])
  {
    var r := AssignMonochromaticColors(data);
    var shares := seq(|r|, k requires 0 <= k < |r| => r[k].share);
    MonochromaticColorsSpec(data);
    if id in t.degree {
      var c := t.degree[id];
      if k :| 0 <= k < |data| && Contains(data[k], c) {
        assert data[k] in multiset(shares);
        var j :| 0 <= j < |shares| && shares[j] == data[k];
        assert Contains(r[j].share, c);
      }
      if j :| 0 <= j < |r| && Contains(r[j].share, c) {
        assert shares[j] in multiset(data);
        var k :| 0 <= k < |data| && data[k] == shares[j];
      }
    }
  }

  /** A node at some link end has a degree, which is among the degree
      values. */
  lemma DegreeOf(links: seq<GraphLink>, id: string)
    requires EndpointCount(links, id) > 0
    ensures id in Degrees(links).degree && Degrees(links).degree[id] == EndpointCount(links, id)
    ensures EndpointCount(links, id) in DegreeValues(links)
  {
    var cn := ConnectedNodes(links);
    var t := Degrees(links);
    DegreesAreEndpointCounts(links);
    ConnectionsByNodeContents(cn);
    DistinctProperties(cn);
    assert id in t.keys;
    var k :| 0 <= k < |t.keys| && t.keys[k] == id;
    assert DegreeValues(links)[k] == t.degree[id];
  }

  /** Every degree is at least 1: each key of the table sits at some link
      end. */
  lemma DegreeValuesPositive(links: seq<GraphLink>)
    ensures forall k :: 0 <= k < |DegreeValues(links)| ==> 0 < DegreeValues(links)[k]
    ensures CoveringDefined(DegreeValues(links))
  {
    var cn := ConnectedNodes(links);
    var t := Degrees(links);
    ConnectionsByNodeContents(cn);
    DistinctProperties(cn);
    forall k | 0 <= k < |DegreeValues(links)| ensures 0 < DegreeValues(links)[k] {
      assert t.keys[k] in cn;
      CountZero(cn, t.keys[k]);
    }
  }

  /** With covering buckets every node at a link end gets a colour, also
      when all degrees are equal. */
  lemma ConnectivityColorCovered(links: seq<GraphLink>, id: string)
    requires EndpointCount(links, id) > 0
    ensures CoveringDefined(DegreeValues(links))
    ensures ConnectivityColor(Degrees(links), AssignMonochromaticColors(CoveringShares(DegreeValues(links), "connections")), id).Some?
  {
    var values := DegreeValues(links);
    DegreeValuesPositive(links);
    DegreeOf(links, id);
    CoveringSharesPartition(values, "connections", EndpointCount(links, id));
    ConnectivityColorSome(Degrees(links), CoveringShares(values, "connections"), id);
  }

  /** As written, a node at a link end gets a colour exactly when a bucket
      holds its degree. */
  lemma ConnectivityColorAsWritten(links: seq<GraphLink>, id: string)
    requires RangeDefined(DegreeValues(links)) && EndpointCount(links, id) > 0
    ensures var r := RangeShares(DegreeValues(links), "connections");
      ConnectivityColor(Degrees(links), AssignMonochromaticColors(r), id).Some? <==>
      exists k :: 0 <= k < |r| && Contains(r[k], EndpointCount(links, id))
  {
    DegreeOf(links, id);
    ConnectivityColorSome(Degrees(links), RangeShares(DegreeValues(links), "connections"), id);
  }

  /** As written, a node of the largest degree makes the selector throw
      unless the range of the degrees is a whole number of steps. */
  lemma MostConnectedColor(links: seq<GraphLink>, id: string, values: seq<nat>, lo: nat, hi: nat)
    requires values == DegreeValues(links) && |values| > 0 && RangeDefined(values)
    requires lo == MinOf(values) && hi == MaxOf(values) && EndpointCount(links, id) == hi
    ensures ConnectivityColor(Degrees(links), AssignMonochromaticColors(RangeShares(values, "connections")), id).Some? <==>
      (hi - lo) % Step(hi - lo) == 0
  {
    ConnectivityColorAsWritten(links, id);
    RangeSharesCoverMax(values, "connections", lo, hi, Step(hi - lo));
  }

  // ---------------------------------------------------------------------
  // Location and type schemes (lines 118-145 and 159-175)
  // ---------------------------------------------------------------------

  /** The node attribute a discrete scheme colours by. */
  datatype Attribute = Location | Type

  /** `node[key]` */
  function AttributeOf(n: GraphNode, a: Attribute): string
  {
    match a
    case Location => n.location
    case Type => n.nodeType
  }

  /** The attribute of every node, in node order. */
  function AttributeValues(nodes: seq<GraphNode>, a: Attribute): (r: seq<string>)
    ensures |r| == |nodes| && forall k :: 0 <= k < |nodes| ==> r[k] == AttributeOf(nodes[k], a)
  {
    seq(|nodes|, k requires 0 <= k < |nodes| => AttributeOf(nodes[k], a))
  }

  /** An entry `{ label, value }` while the nodes are counted. */
  datatype LabelCount = LabelCount(legend: string, count: nat)

  /** A legend entry `{ label, value }` of a discrete scheme. */
  datatype LabelShare = LabelShare(legend: string, value: real)

  /** The labels of the entries, in order. */
  function Labels(rps: seq<LabelCount>): (r: seq<string>)
    ensures |r| == |rps| && forall k :: 0 <= k < |rps| ==> r[k] == rps[k].legend
  {
    seq(|rps|, k requires 0 <= k < |rps| => rps[k].legend)
  }

  /** Lines 164-169: the entry labelled x counts one more. */
  function Increment(rps: seq<LabelCount>, x: string): (r: seq<LabelCount>)
    ensures |r| == |rps|
    ensures forall k :: 0 <= k < |rps| ==> r[k] == (if rps[k].legend == x then LabelCount(x, rps[k].count + 1) else rps[k])
  {
    seq(|rps|, k requires 0 <= k < |rps| => if rps[k].legend == x then LabelCount(x, rps[k].count + 1) else rps[k])
  }

  /** The share of every distinct value of s, in order of first occurrence:
      its number of occurrences over the length of s. */
  function RelativeShares(s: seq<string>): (r: seq<LabelShare>)
    ensures |r| == |Distinct(s)|
  {
    var d := Distinct(s);
    seq(|d|, k requires 0 <= k < |d| => LabelShare(d[k], Count(s, d[k]) as real / |s| as real))
  }

  /** The counts after the first i values of s. */
  ghost predicate CountedUpTo(rps: seq<LabelCount>, s: seq<string>, i: nat)
    requires i <= |s|
  {
    && Labels(rps) == Distinct(s[..i])
    && forall k :: 0 <= k < |rps| ==> rps[k].count == Count(s[..i], rps[k].legend)
  }

  /** Counting one more value keeps the counts right. */
  lemma CountStep(rps: seq<LabelCount>, s: seq<string>, i: nat, pushed: seq<LabelCount>)
    requires i < |s| && CountedUpTo(rps, s, i)
    requires pushed == if s[i] in Labels(rps) then rps else rps + [LabelCount(s[i], 0)]
    ensures CountedUpTo(Increment(pushed, s[i]), s, i + 1)
  {
    var x, p := s[i], s[..i];
    assert s[..i + 1] == p + [x];
    assert (p + [x])[..|p + [x]| - 1] == p;
    DistinctProperties(p);
    var r := Increment(pushed, x);
    if x !in Labels(rps) {
      CountZero(p, x);
      assert Labels(pushed) == Labels(rps) + [x];
    } else {
      assert Labels(pushed) == Labels(rps);
    }
    assert Labels(r) == Labels(pushed);
    forall k | 0 <= k < |r| ensures r[k].count == Count(s[..i + 1], r[k].legend) {
      CountAppend(p, x, r[k].legend);
    }
  }

  /** Lines 159-175: count every value of the attribute, pushing an entry
      when a value is first met, then divide by the number of nodes. */
  method CalculateRelativePercentages(nodes: seq<GraphNode>, a: Attribute) returns (r: seq<LabelShare>)
    ensures r == RelativeShares(AttributeValues(nodes, a))
  {
    var s := AttributeValues(nodes, a);
    var rps: seq<LabelCount> := [];
    var i := 0;
    while i < |nodes|
      invariant 0 <= i <= |nodes| && CountedUpTo(rps, s, i)
    {
      var x := AttributeOf(nodes[i], a);
      ghost var before := rps;
      if FindIndex(Labels(rps), x) == -1 {
        rps := rps + [LabelCount(x, 0)];
      }
      CountStep(before, s, i, rps);
      rps := Increment(rps, x);
      i := i + 1;
    }
    assert s[..|nodes|] == s;
    r := [];
    var k := 0;
    while k < |rps|
      invariant 0 <= k <= |rps| && |r| == k
      invariant forall j :: 0 <= j < k ==> r[j] == RelativeShares(s)[j]
    {
      r := r + [LabelShare(rps[k].legend, rps[k].count as real / |nodes| as real)];
      k := k + 1;
    }
  }

  /** The share in s of every element of d. */
  function ShareList(d: seq<string>, s: seq<string>): (r: seq<real>)
    requires |s| > 0
    ensures |r| == |d| && forall k :: 0 <= k < |d| ==> r[k] == Count(s, d[k]) as real / |s| as real
  {
    seq(|d|, k requires 0 <= k < |d| => Count(s, d[k]) as real / |s| as real)
  }

  lemma {:induction false} ShareListSum(d: seq<string>, s: seq<string>)
    requires |s| > 0
    ensures SumReal(ShareList(d, s)) == SumCounts(d, s) as real / |s| as real
  {
    if |d| > 0 {
      var init := d[..|d| - 1];
      ShareListSum(init, s);
      assert ShareList(d, s)[..|d| - 1] == ShareList(init, s);
      DivAdd(SumCounts(init, s) as real, Count(s, d[|d| - 1]) as real, |s| as real);
    }
  }

  /** The values of the entries, in order. */
  function LabelValues(r: seq<LabelShare>): (v: seq<real>)
    ensures |v| == |r| && forall k :: 0 <= k < |r| ==> v[k] == r[k].value
  {
    seq(|r|, k requires 0 <= k < |r| => r[k].value)
  }

  /** The labels of the entries, in order. */
  function ShareLabels(r: seq<LabelShare>): (v: seq<string>)
    ensures |v| == |r| && forall k :: 0 <= k < |r| ==> v[k] == r[k].legend
  {
    seq(|r|, k requires 0 <= k < |r| => r[k].legend)
  }

  /** Each value of s has exactly one entry, the entries in order of first
      occurrence, and for non-empty s the shares add up to 1. */
  lemma RelativeSharesSpec(s: seq<string>)
    ensures NoDuplicates(ShareLabels(RelativeShares(s)))
    ensures forall x :: x in ShareLabels(RelativeShares(s)) <==> x in s
    ensures forall j, k :: 0 <= j < k < |RelativeShares(s)| ==>
      FindIndex(s, RelativeShares(s)[j].legend) < FindIndex(s, RelativeShares(s)[k].legend)
    ensures |s| > 0 ==> SumReal(LabelValues(RelativeShares(s))) == 1.0
  {
    DistinctProperties(s);
    DistinctOrder(s);
    assert ShareLabels(RelativeShares(s)) == Distinct(s);
    if |s| > 0 {
      var d := Distinct(s);
      assert LabelValues(RelativeShares(s)) == ShareList(d, s);
      ShareListSum(d, s);
      SumCountsOfDistinct(s);
      DivSelf(|s| as real);
    }
  }

  /** The label given to the entry of the empty value. */
  const Unlocalized := "Unlocalized"

  /** Lines 122-124 for one entry. */
  function RelabelEntry(e: LabelShare): LabelShare
  {
    if e.legend == "" then LabelShare(Unlocalized, e.value) else e
  }

  /** Lines 121-126: the entry labelled "" is renamed "Unlocalized". */
  function Relabel(r: seq<LabelShare>): (q: seq<LabelShare>)
    ensures |q| == |r|
    ensures forall k :: 0 <= k < |r| ==> q[k].value == r[k].value && q[k].legend != ""
    ensures forall k :: 0 <= k < |r| && r[k].legend != "" ==> q[k] == r[k]
    ensures forall k :: 0 <= k < |r| && r[k].legend == "" ==> q[k].legend == Unlocalized
  {
    seq(|r|, k requires 0 <= k < |r| => RelabelEntry(r[k]))
  }

  /** A legend entry with its colour; None where the palette index is past
      the end of the palette and the colour is undefined. */
  datatype ColoredShare = ColoredShare(legend: string, value: real, color: Option<string>)

  /** `colorPalletes[i]` */
  function PaletteAt(palette: seq<string>, i: int): Option<string>
  {
    if 0 <= i < |palette| then Some(palette[i]) else None
  }

  /** Lines 139-145: every entry gets the palette colour at the index of the
      first entry with the same label. */
  function AssignColors(data: seq<LabelShare>, palette: seq<string>): (r: seq<ColoredShare>)
    ensures |r| == |data|
    ensures forall k :: 0 <= k < |data| ==> r[k].legend == data[k].legend && r[k].value == data[k].value
  {
    var labels := ShareLabels(data);
    seq(|data|, k requires 0 <= k < |data| =>
      ColoredShare(data[k].legend, data[k].value, PaletteAt(palette, FindIndex(labels, data[k].legend))))
  }

  /** Entries with the same label share a colour; with labels all different,
      entry k gets palette colour k. */
  lemma AssignColorsSpec(data: seq<LabelShare>, palette: seq<string>)
    ensures forall j, k :: 0 <= j < |data| && 0 <= k < |data| && data[j].legend == data[k].legend ==>
      AssignColors(data, palette)[j].color == AssignColors(data, palette)[k].color
    ensures NoDuplicates(ShareLabels(data)) ==>
      forall k :: 0 <= k < |data| ==> AssignColors(data, palette)[k].color == PaletteAt(palette, k)
  {
    var labels := ShareLabels(data);
    if NoDuplicates(labels) {
      forall k | 0 <= k < |data| ensures FindIndex(labels, data[k].legend) == k {
        assert labels[k] == data[k].legend;
      }
    }
  }

  /** `colorScheme.find(s => s.label === v)` */
  function FindEntry(scheme: seq<ColoredShare>, v: string): (r: Option<ColoredShare>)
    ensures r.None? <==> forall k :: 0 <= k < |scheme| ==> scheme[k].legend != v
    ensures r.Some? ==> r.value.legend == v && r.value in scheme
  {
    if |scheme| == 0 then None
    else if scheme[0].legend == v then Some(scheme[0])
    else
      var r := FindEntry(scheme[1..], v);
      assert forall k :: 1 <= k < |scheme| ==> scheme[k] == scheme[1..][k - 1];
      r
  }

  /** Lines 129-134: the entry whose colour a node with value v gets: the one
      labelled v, else the "Unlocalized" one; None where neither exists and
      reading `.color` throws. */
  function SelectEntry(scheme: seq<ColoredShare>, v: string): Option<ColoredShare>
  {
    var e := FindEntry(scheme, v);
    if e.Some? then e else FindEntry(scheme, Unlocalized)
  }

  /** The colour scheme of lines 119-128. */
  function DiscreteScheme(nodes: seq<GraphNode>, a: Attribute, palette: seq<string>): seq<ColoredShare>
  {
    AssignColors(Relabel(RelativeShares(AttributeValues(nodes, a))), palette)
  }

  /** Lines 118-137: the shares of the attribute's values, the empty value
      renamed, then coloured. */
  method ColorSchemeByDiscreteAttribute(nodes: seq<GraphNode>, a: Attribute, palette: seq<string>) returns (scheme: seq<ColoredShare>)
    ensures scheme == DiscreteScheme(nodes, a, palette)
  {
    var rps := CalculateRelativePercentages(nodes, a);
    ghost var original := rps;
    var k := 0;
    while k < |rps|
      invariant 0 <= k <= |rps| && |rps| == |original|
      invariant forall j :: 0 <= j < k ==> rps[j] == RelabelEntry(original[j])
      invariant forall j :: k <= j < |rps| ==> rps[j] == original[j]
    {
      if rps[k].legend == "" {
        rps := rps[k := LabelShare(Unlocalized, rps[k].value)];
      }
      k := k + 1;
    }
    assert rps == Relabel(original);
    scheme := AssignColors(rps, palette);
  }

  /** A value with an entry finds one once the entries are relabelled and
      coloured: its own, or the "Unlocalized" one for the empty value. */
  lemma SelectRelabelled(shares: seq<LabelShare>, palette: seq<string>, v: string)
    requires v in ShareLabels(shares)
    ensures var e := SelectEntry(AssignColors(Relabel(shares), palette), v);
      e.Some? && e.value.legend == (if v == "" then Unlocalized else v)
  {
    var scheme := AssignColors(Relabel(shares), palette);
    var k :| 0 <= k < |shares| && ShareLabels(shares)[k] == v;
    assert scheme[k].legend == Relabel(shares)[k].legend;
  }

  /** Every node finds an entry: the one of its own value, or the
      "Unlocalized" one when its value is empty. */
  lemma DiscreteSelectorFindsEntry(nodes: seq<GraphNode>, a: Attribute, palette: seq<string>, n: GraphNode)
    requires n in nodes
    ensures var v := AttributeOf(n, a);
      var e := SelectEntry(DiscreteScheme(nodes, a, palette), v);
      e.Some? && e.value.legend == (if v == "" then Unlocalized else v)
  {
    var s := AttributeValues(nodes, a);
    var i :| 0 <= i < |nodes| && nodes[i] == n;
    assert s[i] == AttributeOf(n, a);
    RelativeSharesSpec(s);
    SelectRelabelled(RelativeShares(s), palette, AttributeOf(n, a));
  }

  // ---------------------------------------------------------------------
  // Pathway scheme (lines 63-113)
  // ---------------------------------------------------------------------

  /** Lines 64-66: the ids containing "Mme", in node order. */
  function Pathways(nodes: seq<GraphNode>): seq<string>
  {
    if |nodes| == 0 then []
    else
      var n := nodes[|nodes| - 1];
      Pathways(nodes[..|nodes| - 1]) + (if Includes(n.id, "Mme") then [n.id] else [])
  }

  /** Some node has the id x. */
  ghost predicate HasNodeId(nodes: seq<GraphNode>, x: string)
  {
    exists i :: 0 <= i < |nodes| && nodes[i].id == x
  }

  /** The pathways are exactly the node ids containing "Mme". */
  lemma {:induction false} PathwaysMembers(nodes: seq<GraphNode>)
    ensures forall x :: x in Pathways(nodes) <==> Includes(x, "Mme") && HasNodeId(nodes, x)
  {
    if |nodes| > 0 {
      var init := nodes[..|nodes| - 1];
      PathwaysMembers(init);
      forall x ensures HasNodeId(nodes, x) <==> HasNodeId(init, x) || nodes[|nodes| - 1].id == x {
        if HasNodeId(nodes, x) {
          var i :| 0 <= i < |nodes| && nodes[i].id == x;
          if i < |init| {
            assert init[i].id == x;
          }
        }
        if HasNodeId(init, x) {
          var i :| 0 <= i < |init| && init[i].id == x;
          assert nodes[i].id == x;
        }
      }
    }
  }

  /** Lines 69-76: the other end of a link at p; undefined for a link
      elsewhere. */
  function FarEnd(l: GraphLink, p: string): Option<string>
  {
    if l.source == p then Some(l.target)
    else if l.target == p then Some(l.source)
    else None
  }

  /** Lines 68-77: the far ends of the links at p, with the falsy ones
      (undefined and the empty id) filtered out. */
  function FarEnds(links: seq<GraphLink>, p: string): (r: seq<string>)
    ensures |r| <= |links|
  {
    if |links| == 0 then []
    else
      var e := FarEnd(links[|links| - 1], p);
      FarEnds(links[..|links| - 1], p) + (if e.Some? && e.value != "" then [e.value] else [])
  }

  /** Some link at p has x at its other end. */
  ghost predicate HasFarEnd(links: seq<GraphLink>, p: string, x: string)
  {
    exists i :: 0 <= i < |links| && FarEnd(links[i], p) == Some(x)
  }

  /** The far ends are the non-empty ids at the other end of a link at p. */
  lemma {:induction false} FarEndsMembers(links: seq<GraphLink>, p: string)
    ensures forall x :: x in FarEnds(links, p) <==> x != "" && HasFarEnd(links, p, x)
  {
    if |links| > 0 {
      var init := links[..|links| - 1];
      FarEndsMembers(init, p);
      forall x ensures HasFarEnd(links, p, x) <==> HasFarEnd(init, p, x) || FarEnd(links[|links| - 1], p) == Some(x) {
        if HasFarEnd(links, p, x) {
          var i :| 0 <= i < |links| && FarEnd(links[i], p) == Some(x);
          if i < |init| {
            assert init[i] == links[i];
          }
        }
        if HasFarEnd(init, p, x) {
          var i :| 0 <= i < |init| && FarEnd(init[i], p) == Some(x);
          assert links[i] == init[i];
        }
      }
    }
  }

  /** The `pathwayConnectedNodes` object: keys in insertion order, each with
      its far ends. */
  datatype PathwayTable = PathwayTable(keys: seq<string>, ends: map<string, seq<string>>)

  /** Lines 67-82: `{ ...a, [pathway]: nodes }` for every pathway; a pathway
      met again keeps its place among the keys. */
  function PathwayTableOf(pathways: seq<string>, links: seq<GraphLink>): PathwayTable
  {
    if |pathways| == 0 then PathwayTable([], map[])
    else
      var t := PathwayTableOf(pathways[..|pathways| - 1], links);
      var p := pathways[|pathways| - 1];
      PathwayTable(if p in t.ends then t.keys else t.keys + [p], t.ends[p := FarEnds(links, p)])
  }

  /** The keys are the distinct pathways in order of first occurrence, and
      each pathway holds its far ends. */
  lemma {:induction false} PathwayTableSpec(pathways: seq<string>, links: seq<GraphLink>)
    ensures PathwayTableOf(pathways, links).keys == Distinct(pathways)
    ensures forall p :: p in PathwayTableOf(pathways, links).ends <==> p in pathways
    ensures forall p :: p in PathwayTableOf(pathways, links).ends ==> PathwayTableOf(pathways, links).ends[p] == FarEnds(links, p)
  {
    if |pathways| > 0 {
      var init, p := pathways[..|pathways| - 1], pathways[|pathways| - 1];
      PathwayTableSpec(init, links);
      DistinctProperties(init);
      assert pathways == init + [p];
      assert forall x :: x in pathways <==> x in init || x == p;
    }
  }

  /** The number of far ends listed under the first n keys. */
  function TotalEnds(t: PathwayTable, n: nat): nat
    requires n <= |t.keys| && forall k :: 0 <= k < |t.keys| ==> t.keys[k] in t.ends
  {
    if n == 0 then 0 else TotalEnds(t, n - 1) + |t.ends[t.keys[n - 1]]|
  }

  /** Every key is in the table. */
  ghost predicate KeysListed(t: PathwayTable)
  {
    forall k :: 0 <= k < |t.keys| ==> t.keys[k] in t.ends
  }

  /** The label of the share of the other links. */
  const NoPathway := "No pathway"

  /** Line 91: the share of a key: its far ends over the number of links. */
  function PathwayShareList(t: PathwayTable, n: nat, linkCount: nat): (r: seq<LabelShare>)
    requires KeysListed(t) && n <= |t.keys| && linkCount > 0
    ensures |r| == n && forall k :: 0 <= k < n ==> r[k] == LabelShare(t.keys[k], |t.ends[t.keys[k]]| as real / linkCount as real)
  {
    seq(n, k requires 0 <= k < n => LabelShare(t.keys[k], |t.ends[t.keys[k]]| as real / linkCount as real))
  }

  /** Lines 87-99: a share per key, then the "No pathway" share of what the
      keys do not account for. */
  function PathwayShares(t: PathwayTable, linkCount: nat): seq<LabelShare>
    requires KeysListed(t) && linkCount > 0
  {
    PathwayShareList(t, |t.keys|, linkCount)
      + [LabelShare(NoPathway, (linkCount - TotalEnds(t, |t.keys|)) as real / linkCount as real)]
  }

  lemma {:induction false} PathwayShareListSum(t: PathwayTable, n: nat, linkCount: nat)
    requires KeysListed(t) && n <= |t.keys| && linkCount > 0
    ensures SumReal(LabelValues(PathwayShareList(t, n, linkCount))) == TotalEnds(t, n) as real / linkCount as real
  {
    if n > 0 {
      PathwayShareListSum(t, n - 1, linkCount);
      assert LabelValues(PathwayShareList(t, n, linkCount))[..n - 1] == LabelValues(PathwayShareList(t, n - 1, linkCount));
      DivAdd(TotalEnds(t, n - 1) as real, |t.ends[t.keys[n - 1]]| as real, linkCount as real);
    }
  }

  /** The sum of the shares is that of the keys' shares plus the
      "No pathway" one. */
  lemma PathwaySharesSplit(t: PathwayTable, linkCount: nat)
    requires KeysListed(t) && linkCount > 0
    ensures SumReal(LabelValues(PathwayShares(t, linkCount))) ==
      SumReal(LabelValues(PathwayShareList(t, |t.keys|, linkCount)))
      + (linkCount - TotalEnds(t, |t.keys|)) as real / linkCount as real
  {
    var front := LabelValues(PathwayShareList(t, |t.keys|, linkCount));
    var rest := (linkCount - TotalEnds(t, |t.keys|)) as real / linkCount as real;
    assert LabelValues(PathwayShares(t, linkCount)) == front + [rest];
    SumRealAppend(front, [rest]);
    assert [rest][..0] == [];
  }

  /** A part and the rest of a whole, each over the whole, add up to 1. */
  lemma PartAndRest(part: int, whole: nat)
    requires whole > 0
    ensures part as real / whole as real + (whole - part) as real / whole as real == 1.0
  {
    DivAdd(part as real, (whole - part) as real, whole as real);
    DivSelf(whole as real);
  }

  /** The pathway shares and the "No pathway" share add up to 1. */
  lemma PathwaySharesSumToOne(t: PathwayTable, linkCount: nat)
    requires KeysListed(t) && linkCount > 0
    ensures SumReal(LabelValues(PathwayShares(t, linkCount))) == 1.0
  {
    PathwaySharesSplit(t, linkCount);
    PathwayShareListSum(t, |t.keys|, linkCount);
    PartAndRest(TotalEnds(t, |t.keys|), linkCount);
  }

  /** Lines 105-108: key k is the node's own id or lists it. */
  predicate Matches(t: PathwayTable, k: nat, id: string)
    requires KeysListed(t) && k < |t.keys|
  {
    t.keys[k] == id || id in t.ends[t.keys[k]]
  }

  /** The last of the first n keys that matches the id. */
  function LastMatch(t: PathwayTable, id: string, n: nat): (r: Option<nat>)
    requires KeysListed(t) && n <= |t.keys|
    ensures r.Some? ==> r.value < n && Matches(t, r.value, id) && forall j :: r.value < j < n ==> !Matches(t, j, id)
    ensures r.None? ==> forall j :: 0 <= j < n ==> !Matches(t, j, id)
  {
    if n == 0 then None
    else if Matches(t, n - 1, id) then Some(n - 1)
    else LastMatch(t, id, n - 1)
  }

  /** Every key and "No pathway" have an entry in the scheme. */
  ghost predicate SchemeCovers(t: PathwayTable, scheme: seq<ColoredShare>)
  {
    && KeysListed(t)
    && (forall k :: 0 <= k < |t.keys| ==> FindEntry(scheme, t.keys[k]).Some?)
    && FindEntry(scheme, NoPathway).Some?
  }

  /** The colour a node gets: that of the last key matching it, unless that
      is undefined or empty, in which case the colour of "No pathway". */
  function PathwayColorOf(t: PathwayTable, scheme: seq<ColoredShare>, id: string): Option<string>
    requires SchemeCovers(t, scheme)
  {
    var m := LastMatch(t, id, |t.keys|);
    var c := if m.Some? then FindEntry(scheme, t.keys[m.value]).value.color else None;
    if c.None? || c == Some("") then FindEntry(scheme, NoPathway).value.color else c
  }

  /** Lines 102-113: the `forEach` over the keys; each match overwrites the
      colour, and a falsy colour falls back to "No pathway". */
  method PathwayColor(t: PathwayTable, scheme: seq<ColoredShare>, id: string) returns (color: Option<string>)
    requires SchemeCovers(t, scheme)
    ensures color == PathwayColorOf(t, scheme, id)
  {
    color := None;
    var i := 0;
    while i < |t.keys|
      invariant 0 <= i <= |t.keys|
      invariant color == (var m := LastMatch(t, id, i); if m.Some? then FindEntry(scheme, t.keys[m.value]).value.color else None)
    {
      var key := t.keys[i];
      if key == id {
        color := FindEntry(scheme, key).value.color;
      } else if id in t.ends[key] {
        color := FindEntry(scheme, key).value.color;
      }
      i := i + 1;
    }
    if color.None? || color == Some("") {
      color := FindEntry(scheme, NoPathway).value.color;
    }
  }

  /** "No pathway" is not a pathway id. */
  lemma NoPathwayIsNoPathwayId()
    ensures !Includes(NoPathway, "Mme")
  {
    IndexOfFirst(NoPathway, "Mme");
    forall k ensures !OccursAt(NoPathway, "Mme", k) {
      if 0 <= k && k + 3 <= |NoPathway| {
        assert NoPathway[k..k + 3][0] == NoPathway[k];
      }
    }
  }

  /** The table of the nodes' pathways lists each pathway once, and none of
      them is "No pathway". */
  lemma PathwayTableKeys(nodes: seq<GraphNode>, links: seq<GraphLink>)
    ensures var t := PathwayTableOf(Pathways(nodes), links);
      KeysListed(t) && NoDuplicates(t.keys) && NoPathway !in t.keys
  {
    var ps := Pathways(nodes);
    PathwayTableSpec(ps, links);
    DistinctProperties(ps);
    PathwaysMembers(nodes);
    NoPathwayIsNoPathwayId();
  }

  /** The scheme of lines 87-100. */
  function PathwayScheme(t: PathwayTable, linkCount: nat, palette: seq<string>): seq<ColoredShare>
    requires KeysListed(t) && linkCount > 0
  {
    AssignColors(PathwayShares(t, linkCount), palette)
  }

  /** An entry whose label no other entry has is the one found for it. */
  lemma FindEntryUnique(scheme: seq<ColoredShare>, k: nat)
    requires k < |scheme|
    requires forall j :: 0 <= j < |scheme| && j != k ==> scheme[j].legend != scheme[k].legend
    ensures FindEntry(scheme, scheme[k].legend) == Some(scheme[k])
  {
  }

  /** The labels of the pathway shares: the keys, then "No pathway". */
  lemma PathwayShareLabels(t: PathwayTable, linkCount: nat)
    requires KeysListed(t) && linkCount > 0
    ensures ShareLabels(PathwayShares(t, linkCount)) == t.keys + [NoPathway]
  {
  }

  /** With distinct keys, none of them "No pathway", key k is coloured with
      palette colour k and "No pathway" with the colour after the keys'. */
  lemma PathwaySchemeColors(t: PathwayTable, linkCount: nat, palette: seq<string>)
    requires KeysListed(t) && NoDuplicates(t.keys) && NoPathway !in t.keys && linkCount > 0
    ensures SchemeCovers(t, PathwayScheme(t, linkCount, palette))
    ensures forall k :: 0 <= k < |t.keys| ==>
      FindEntry(PathwayScheme(t, linkCount, palette), t.keys[k]).value.color == PaletteAt(palette, k)
    ensures FindEntry(PathwayScheme(t, linkCount, palette), NoPathway).value.color == PaletteAt(palette, |t.keys|)
  {
    var shares := PathwayShares(t, linkCount);
    var scheme := PathwayScheme(t, linkCount, palette);
    var labels := t.keys + [NoPathway];
    PathwayShareLabels(t, linkCount);
    NoDuplicatesAppend(t.keys, NoPathway);
    AssignColorsSpec(shares, palette);
    forall k | 0 <= k < |labels| ensures FindEntry(scheme, labels[k]) == Some(scheme[k]) && scheme[k].color == PaletteAt(palette, k) {
      assert scheme[k].legend == labels[k];
      FindEntryUnique(scheme, k);
    }
    assert labels[|t.keys|] == NoPathway;
    assert forall k :: 0 <= k < |t.keys| ==> labels[k] == t.keys[k];
  }

  /** A node gets the palette colour of the last pathway that is the node
      itself or lists it, and otherwise the "No pathway" colour, provided
      the palette has a non-empty colour for every entry. */
  lemma PathwayNodeColor(t: PathwayTable, linkCount: nat, palette: seq<string>, id: string)
    requires KeysListed(t) && NoDuplicates(t.keys) && NoPathway !in t.keys && linkCount > 0
    requires |t.keys| < |palette| && forall i :: 0 <= i < |palette| ==> palette[i] != ""
    ensures SchemeCovers(t, PathwayScheme(t, linkCount, palette))
    ensures var m := LastMatch(t, id, |t.keys|);
      PathwayColorOf(t, PathwayScheme(t, linkCount, palette), id) ==
      if m.Some? then Some(palette[m.value]) else Some(palette[|t.keys|])
  {
    PathwaySchemeColors(t, linkCount, palette);
  }
}
