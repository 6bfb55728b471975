/** The application shell: the fixed group mapping, the share of nodes in
    each group that feeds the stacked bar, and the search box that finds a
    node by its id. */
module App {
  import opened Seqs
  import opened Data
  import opened JsString
  import PercentageChart

  /** Groups 0 to 10 with their fill colours and the components they are
      drawn in; groups 4 to 10 are all parts of the cytoplasm. */
  const GroupMapping: seq<GroupMappingEntry> := [
    GroupMappingEntry(0, "#740b28", "extracellular"),
    GroupMappingEntry(1, "#978cbf", "nucleus"),
    GroupMappingEntry(2, "#da950c", "endosome"),
    GroupMappingEntry(3, "#367baf", "plasma_membrane"),
    GroupMappingEntry(4, "#ed2cbb", "cytoplasm"),
    GroupMappingEntry(5, "#23903a", "cytoplasm"),
    GroupMappingEntry(6, "#4ecbb1", "cytoplasm"),
    GroupMappingEntry(7, "#aa873c", "cytoplasm"),
    GroupMappingEntry(8, "#605294", "cytoplasm"),
    GroupMappingEntry(9, "#c71f25", "cytoplasm"),
    GroupMappingEntry(10, "#c8ee2a", "cytoplasm")
  ]

  /** The number of groups the mapping covers. */
  const GroupCount: nat := 11

  lemma GroupMappingIndexed()
    ensures |GroupMapping| == GroupCount
    ensures forall i :: 0 <= i < |GroupMapping| ==> GroupMapping[i].group == i
  {
  }

  /** Entry i of the mapping is group i, so the groups are 0 to 10, each
      once, and every group of the mapping has exactly one entry. */
  lemma GroupMappingGroups()
    ensures |GroupMapping| == GroupCount
    ensures forall i :: 0 <= i < |GroupMapping| ==> GroupMapping[i].group == i
    ensures forall i, j :: 0 <= i < j < |GroupMapping| ==> GroupMapping[i].group != GroupMapping[j].group
    ensures forall g :: 0 <= g < GroupCount ==> FindMapping(GroupMapping, g) == Some(GroupMapping[g])
    ensures forall g :: (g < 0 || g >= GroupCount) ==> FindMapping(GroupMapping, g) == None
  {
    GroupMappingIndexed();
    forall g | 0 <= g < GroupCount ensures FindMapping(GroupMapping, g) == Some(GroupMapping[g]) {
      var k := MappingIndex(GroupMapping, g);
      assert GroupMapping[g].group == g;
    }
  }

  /** Groups 4 to 10 are drawn in the cytoplasm, groups 0 to 3 each in a
      component of its own. */
  lemma GroupMappingComponents()
    ensures forall i :: 4 <= i < |GroupMapping| ==> GroupMapping[i].component == "cytoplasm"
    ensures forall i, j :: 0 <= i < j < 4 ==> GroupMapping[i].component != GroupMapping[j].component
    ensures forall i :: 0 <= i < 4 ==> GroupMapping[i].component != "cytoplasm"
  {
  }

  /** `nodes.filter(n => n.group === g).length` */
  function NodesInGroup(nodes: seq<GraphNode>, g: int): (c: nat)
    ensures c <= |nodes|
  {
    if |nodes| == 0 then 0
    else NodesInGroup(nodes[..|nodes| - 1], g) + (if nodes[|nodes| - 1].group == g then 1 else 0)
  }

  /** The number of nodes whose group lies in 0 .. k - 1. */
  function NodesBelow(nodes: seq<GraphNode>, k: nat): (c: nat)
    ensures c <= |nodes|
  {
    if |nodes| == 0 then 0
    else NodesBelow(nodes[..|nodes| - 1], k) + (if 0 <= nodes[|nodes| - 1].group < k then 1 else 0)
  }

  /** One slice of the bar: a copy of the mapping entry with the share of
      the nodes in its group, captioned by its component. */
  function Slice(nodes: seq<GraphNode>, m: GroupMappingEntry): PercentageChart.ChartEntry
    requires |nodes| > 0
  {
    PercentageChart.ChartEntry(m.group, m.color, m.component,
      NodesInGroup(nodes, m.group) as real / |nodes| as real, m.component, None, None)
  }

  /** The data of the stacked bar: one slice per mapping entry, in mapping
      order, with the entry's fields copied and the share of its group. */
  function Slices(nodes: seq<GraphNode>, mapping: seq<GroupMappingEntry>): (r: seq<PercentageChart.ChartEntry>)
    requires |nodes| > 0
    ensures |r| == |mapping|
    ensures forall i :: 0 <= i < |mapping| ==>
      && r[i].group == mapping[i].group && r[i].color == mapping[i].color
      && r[i].component == mapping[i].component && r[i].legend == mapping[i].component
      && r[i].value == NodesInGroup(nodes, mapping[i].group) as real / |nodes| as real
      && r[i].x1 == None && r[i].x2 == None
  {
    seq(|mapping|, i requires 0 <= i < |mapping| => Slice(nodes, mapping[i]))
  }

  /** Counting the nodes below k + 1 adds those of group k. */
  lemma {:induction false} NodesBelowNext(nodes: seq<GraphNode>, k: nat)
    ensures NodesBelow(nodes, k + 1) == NodesBelow(nodes, k) + NodesInGroup(nodes, k)
  {
    if |nodes| > 0 {
      NodesBelowNext(nodes[..|nodes| - 1], k);
    }
  }

  /** All nodes are counted below k exactly when every group lies in 0 .. k - 1. */
  lemma {:induction false} NodesBelowAll(nodes: seq<GraphNode>, k: nat)
    ensures NodesBelow(nodes, k) == |nodes| <==> forall i :: 0 <= i < |nodes| ==> 0 <= nodes[i].group < k
  {
    if |nodes| > 0 {
      var init := nodes[..|nodes| - 1];
      NodesBelowAll(init, k);
      assert forall i :: 0 <= i < |init| ==> init[i] == nodes[i];
    }
  }

  /** c / n for 0 <= c <= n lies in [0, 1] and is 1 exactly when c == n. */
  lemma Fraction(c: real, n: real)
    requires 0.0 < n && 0.0 <= c <= n
    ensures 0.0 <= c / n <= 1.0
    ensures c / n == 1.0 <==> c == n
  {
  }

  lemma DivAddSame(a: real, b: real, n: real)
    requires n > 0.0
    ensures a / n + b / n == (a + b) / n
  {
  }

  /** Each slice's share is the fraction of the nodes in its group, a
      number between 0 and 1. */
  lemma SliceShare(nodes: seq<GraphNode>, m: GroupMappingEntry)
    requires |nodes| > 0
    ensures 0.0 <= Slice(nodes, m).value <= 1.0
  {
    var c, n := NodesInGroup(nodes, m.group) as real, |nodes| as real;
    var v := Slice(nodes, m).value;
    assert v == c / n;
    Fraction(c, n);
  }

  /** For a mapping whose entry i is group i, the shares of the first k
      slices add up to the share of the nodes in groups 0 .. k - 1. */
  lemma {:induction false} SlicesPrefixSum(nodes: seq<GraphNode>, mapping: seq<GroupMappingEntry>, k: nat)
    requires |nodes| > 0 && k <= |mapping|
    requires forall i :: 0 <= i < |mapping| ==> mapping[i].group == i
    ensures SumReal(PercentageChart.ValuesOf(Slices(nodes, mapping)[..k]))
      == NodesBelow(nodes, k) as real / |nodes| as real
  {
    var s := Slices(nodes, mapping);
    if k == 0 {
      assert PercentageChart.ValuesOf(s[..0]) == [];
      NodesBelowNone(nodes);
    } else {
      SlicesPrefixSum(nodes, mapping, k - 1);
      var v := PercentageChart.ValuesOf(s[..k]);
      assert v[..k - 1] == PercentageChart.ValuesOf(s[..k - 1]);
      assert v[k - 1] == NodesInGroup(nodes, k - 1) as real / |nodes| as real;
      NodesBelowNext(nodes, k - 1);
      DivAddSame(NodesBelow(nodes, k - 1) as real, NodesInGroup(nodes, k - 1) as real, |nodes| as real);
    }
  }

  lemma {:induction false} NodesBelowNone(nodes: seq<GraphNode>)
    ensures NodesBelow(nodes, 0) == 0
  {
    if |nodes| > 0 {
      NodesBelowNone(nodes[..|nodes| - 1]);
    }
  }

  /** The slices add up to the share of the nodes whose group has a
      mapping entry. */
  lemma SlicesSum(nodes: seq<GraphNode>)
    requires |nodes| > 0
    ensures SumReal(PercentageChart.ValuesOf(Slices(nodes, GroupMapping)))
      == NodesBelow(nodes, GroupCount) as real / |nodes| as real
  {
    GroupMappingIndexed();
    SlicesFullSum(nodes, GroupMapping);
  }

  lemma SlicesFullSum(nodes: seq<GraphNode>, mapping: seq<GroupMappingEntry>)
    requires |nodes| > 0
    requires forall i :: 0 <= i < |mapping| ==> mapping[i].group == i
    ensures SumReal(PercentageChart.ValuesOf(Slices(nodes, mapping)))
      == NodesBelow(nodes, |mapping|) as real / |nodes| as real
  {
    SlicesPrefixSum(nodes, mapping, |mapping|);
    assert Slices(nodes, mapping)[..|mapping|] == Slices(nodes, mapping);
  }

  /** So the slices add up to at most 1, and to exactly 1 when every
      node's group is one of 0 to 10. */
  lemma SlicesSumAtMostOne(nodes: seq<GraphNode>)
    requires |nodes| > 0
    ensures SumReal(PercentageChart.ValuesOf(Slices(nodes, GroupMapping))) <= 1.0
    ensures SumReal(PercentageChart.ValuesOf(Slices(nodes, GroupMapping))) == 1.0 <==>
      forall i :: 0 <= i < |nodes| ==> 0 <= nodes[i].group < GroupCount
  {
    SlicesSum(nodes);
    NodesBelowAll(nodes, GroupCount);
    Fraction(NodesBelow(nodes, GroupCount) as real, |nodes| as real);
  }

  /** The options of the search box: the node ids (`nodes.map(d => d.id)`). */
  function DataSource(nodes: seq<GraphNode>): (r: seq<string>)
    ensures |r| == |nodes|
    ensures forall i :: 0 <= i < |nodes| ==> r[i] == nodes[i].id
  {
    seq(|nodes|, i requires 0 <= i < |nodes| => nodes[i].id)
  }

  /** `filterOption`: whether the option's text contains the typed text,
      both upper-cased. */
  predicate FilterOption(inputValue: string, option: string)
  {
    IndexOf(ToUpperCase(option), ToUpperCase(inputValue)) != -1
  }

  /** The filter is a substring test after upper-casing, so it ignores the
      case of either text, and the empty input keeps every option. */
  lemma FilterOptionSpec(inputValue: string, option: string)
    ensures FilterOption(inputValue, option) <==>
      exists k :: OccursAt(ToUpperCase(option), ToUpperCase(inputValue), k)
    ensures FilterOption(ToUpperCase(inputValue), option) == FilterOption(inputValue, option)
    ensures FilterOption(inputValue, ToUpperCase(option)) == FilterOption(inputValue, option)
    ensures inputValue == "" ==> FilterOption(inputValue, option)
  {
    IndexOfFirst(ToUpperCase(option), ToUpperCase(inputValue));
    UpperIdempotent(inputValue);
    UpperIdempotent(option);
    if inputValue == "" {
      assert OccursAt(ToUpperCase(option), ToUpperCase(inputValue), 0);
    }
  }

  /** Text found verbatim in an option is found by the filter. */
  lemma FilterOptionFindsSubstring(inputValue: string, option: string, k: int)
    requires OccursAt(option, inputValue, k)
    ensures FilterOption(inputValue, option)
  {
    var u, t := ToUpperCase(option), ToUpperCase(inputValue);
    assert u[k..k + |t|] == t;
    assert OccursAt(u, t, k);
    FilterOptionSpec(inputValue, option);
  }

  /** `onSelect`: the node `nodes.find(n => n.id === selectedId)` becomes
      the selected node; None (undefined) when no node has that id. It is
      the first node with that id. */
  lemma OnSelectSpec(nodes: seq<GraphNode>, selectedId: string)
    ensures FindNode(nodes, selectedId).None? <==> forall i :: 0 <= i < |nodes| ==> nodes[i].id != selectedId
    ensures FindNode(nodes, selectedId).Some? ==>
      exists i :: (0 <= i < |nodes| && nodes[i] == FindNode(nodes, selectedId).value
        && forall j :: 0 <= j < i ==> nodes[j].id != selectedId)
    ensures FindNode(nodes, selectedId).Some? ==> FindNode(nodes, selectedId).value.id == selectedId
  {
    var k := NodeIndex(nodes, selectedId);
    if k != -1 {
      assert nodes[k] == FindNode(nodes, selectedId).value;
    }
  }

  /** Selecting any offered option finds its node. */
  lemma SelectOffered(nodes: seq<GraphNode>, i: nat)
    requires i < |nodes|
    ensures FindNode(nodes, DataSource(nodes)[i]).Some?
    ensures FindNode(nodes, DataSource(nodes)[i]).value.id == nodes[i].id
  {
  }
}
