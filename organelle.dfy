/** The organelle close-ups (endoplasmic reticulum and mitochondrion)
    share one layout: the nodes of each sub-location ("part") are spread
    evenly along the outline path drawn for that part, the links between
    two nodes of the same part are kept, and every kept link is drawn
    between the placed positions of its ends. The SVG path is an outside
    object; its total length and the point at a given arc length are
    parameters. */
module Organelle {
  import opened Seqs
  import opened Data

  datatype Point = Point(x: real, y: real)

  /** An organelle mapping written as an object literal: its entries in
      source order. A key written twice keeps the later value. */
  type ObjectLiteral = seq<(string, string)>

  /** `mapping[key]`: the value of the last entry with that key. */
  function Lookup(mapping: ObjectLiteral, key: string): (r: Option<string>)
    ensures r.None? <==> forall i :: 0 <= i < |mapping| ==> mapping[i].0 != key
    ensures r.Some? ==> exists i :: (0 <= i < |mapping| && mapping[i] == (key, r.value)
      && forall j :: i < j < |mapping| ==> mapping[j].0 != key)
  {
    if |mapping| == 0 then None
    else if mapping[|mapping| - 1].0 == key then Some(mapping[|mapping| - 1].1)
    else Lookup(mapping[..|mapping| - 1], key)
  }

  /** The value found is that of the entry at i when no later entry has
      the same key. */
  lemma {:induction false} LookupAt(mapping: ObjectLiteral, i: nat, key: string)
    requires i < |mapping| && mapping[i].0 == key
    requires forall j :: i < j < |mapping| ==> mapping[j].0 != key
    ensures Lookup(mapping, key) == Some(mapping[i].1)
  {
    if i < |mapping| - 1 {
      LookupAt(mapping[..|mapping| - 1], i, key);
    }
  }

  /** Arc length of the i-th of n points: `(pathLength * i) / n`. */
  function ArcLength(pathLength: real, i: nat, n: nat): real
    requires n > 0
  {
    pathLength * i as real / n as real
  }

  /** `{x, y, ...component}`: the sampled position, then every field of the
      component, so a component that already has a position keeps it. */
  function Place(component: GraphNode, p: Point): (r: GraphNode)
    ensures r.id == component.id && r.name == component.name && r.group == component.group
    ensures r.originalLocation == component.originalLocation && r.location == component.location
    ensures r.nodeType == component.nodeType
    ensures r.x == (if component.x.Some? then component.x else Some(p.x))
    ensures r.y == (if component.y.Some? then component.y else Some(p.y))
  {
    component.(x := if component.x.Some? then component.x else Some(p.x),
                y := if component.y.Some? then component.y else Some(p.y))
  }

  /** The placed components: component i at the point `i / n` of the way
      along the path. */
  function PointsOnPath(pathLength: real, pointAt: real -> Point, components: seq<GraphNode>): (r: seq<GraphNode>)
    ensures |r| == |components|
  {
    seq(|components|, i requires 0 <= i < |components| =>
      Place(components[i], pointAt(ArcLength(pathLength, i, |components|))))
  }

  /** `getPointsOnPath(path, components)` */
  method GetPointsOnPath(pathLength: real, pointAt: real -> Point, components: seq<GraphNode>)
    returns (pts: seq<GraphNode>)
    ensures pts == PointsOnPath(pathLength, pointAt, components)
  {
    pts := [];
    var numberOfNodes := |components|;
    var i := 0;
    while i < numberOfNodes
      invariant 0 <= i <= numberOfNodes
      invariant pts == PointsOnPath(pathLength, pointAt, components)[..i]
    {
      var p := pointAt(ArcLength(pathLength, i, numberOfNodes));
      var pos := Place(components[i], p);
      pts := pts + [pos];
      i := i + 1;
    }
  }

  /** The sampling points start at the beginning of the path, are evenly
      spaced and strictly increasing, and stay short of its end. */
  lemma ArcLengthsEvenlySpaced(pathLength: real, n: nat, i: nat)
    requires n > 0 && pathLength > 0.0 && i < n
    ensures ArcLength(pathLength, 0, n) == 0.0
    ensures 0.0 <= ArcLength(pathLength, i, n) < pathLength
    ensures i + 1 < n ==> ArcLength(pathLength, i + 1, n) - ArcLength(pathLength, i, n) == pathLength / n as real
  {
    FractionBelow(pathLength, i as real, n as real);
    NextFraction(pathLength, i as real, n as real);
    assert pathLength * 0 as real == 0.0;
  }

  /** L * i / n lies in [0, L) for 0 <= i < n. */
  lemma FractionBelow(L: real, i: real, n: real)
    requires L > 0.0 && 0.0 <= i < n
    ensures 0.0 <= L * i / n < L
  {
    assert L * i < L * n;
    assert 0.0 <= L * i;
    DivLess(L * i, L * n, n);
    assert L * n / n == L;
  }

  /** L * (i + 1) / n is L / n past L * i / n. */
  lemma NextFraction(L: real, i: real, n: real)
    requires n > 0.0
    ensures L * (i + 1.0) / n - L * i / n == L / n
  {
    assert L * (i + 1.0) == L * i + L;
    DivSplit(L * i, L, n);
  }

  lemma DivSplit(a: real, b: real, n: real)
    requires n > 0.0
    ensures (a + b) / n == a / n + b / n
  {
  }

  lemma DivLess(a: real, b: real, n: real)
    requires n > 0.0 && a < b
    ensures a / n < b / n
  {
  }

  /** `getPointsOnPath` returns one point per component, in order: point i
      is component i at arc length L * i / n, unless the component has a
      position of its own, which wins. */
  lemma PointsOnPathSpec(pathLength: real, pointAt: real -> Point, components: seq<GraphNode>, i: nat)
    requires i < |components|
    ensures var r := PointsOnPath(pathLength, pointAt, components);
      var p := pointAt(ArcLength(pathLength, i, |components|));
      && r[i].id == components[i].id
      && r[i].originalLocation == components[i].originalLocation
      && r[i].x == (if components[i].x.Some? then components[i].x else Some(p.x))
      && r[i].y == (if components[i].y.Some? then components[i].y else Some(p.y))
  {
  }

  /** `nodes.filter(node => node.originalLocation == part)` */
  function NodesAt(nodes: seq<GraphNode>, part: string): (r: seq<GraphNode>)
    ensures |r| <= |nodes|
    ensures forall k :: 0 <= k < |r| ==> r[k].originalLocation == part
  {
    if |nodes| == 0 then []
    else
      var init := NodesAt(nodes[..|nodes| - 1], part);
      if nodes[|nodes| - 1].originalLocation == part then init + [nodes[|nodes| - 1]] else init
  }

  /** `nodesInOrganelle`: the nodes of each part, part after part. */
  function Grouped(parts: seq<string>, nodes: seq<GraphNode>): seq<GraphNode>
  {
    if |parts| == 0 then []
    else Grouped(parts[..|parts| - 1], nodes) + NodesAt(nodes, parts[|parts| - 1])
  }

  /** Every part is a key of the mapping, so its path element exists. */
  ghost predicate AllMapped(parts: seq<string>, mapping: ObjectLiteral)
  {
    forall i :: 0 <= i < |parts| ==> Lookup(mapping, parts[i]).Some?
  }

  /** `newPoints`: the placed nodes of each part, part after part, each part
      laid out on the path whose element id the mapping gives. */
  function Placed(parts: seq<string>, mapping: ObjectLiteral, nodes: seq<GraphNode>,
                  totalLength: string -> real, pointAt: string -> real -> Point): seq<GraphNode>
    requires AllMapped(parts, mapping)
  {
    if |parts| == 0 then []
    else
      var part := parts[|parts| - 1];
      var path := Lookup(mapping, part).value;
      Placed(parts[..|parts| - 1], mapping, nodes, totalLength, pointAt)
        + PointsOnPath(totalLength(path), pointAt(path), NodesAt(nodes, part))
  }

  /** The node loop of `initEndoplasmicReticulum` / `initMitochondria`: for
      each part, in order, the nodes at that location are laid out on the
      part's path and appended to `newPoints` and `nodesInOrganelle`. */
  method PlaceParts(parts: seq<string>, mapping: ObjectLiteral, nodes: seq<GraphNode>,
                    totalLength: string -> real, pointAt: string -> real -> Point)
    returns (newPoints: seq<GraphNode>, nodesInOrganelle: seq<GraphNode>)
    requires AllMapped(parts, mapping)
    ensures newPoints == Placed(parts, mapping, nodes, totalLength, pointAt)
    ensures nodesInOrganelle == Grouped(parts, nodes)
  {
    newPoints, nodesInOrganelle := [], [];
    var i := 0;
    while i < |parts|
      invariant 0 <= i <= |parts|
      invariant AllMapped(parts[..i], mapping)
      invariant newPoints == Placed(parts[..i], mapping, nodes, totalLength, pointAt)
      invariant nodesInOrganelle == Grouped(parts[..i], nodes)
    {
      var part := parts[i];
      var components := NodesAt(nodes, part);
      var path := Lookup(mapping, part).value;
      var points := GetPointsOnPath(totalLength(path), pointAt(path), components);
      assert parts[..i + 1][..i] == parts[..i] && parts[..i + 1][i] == part;
      newPoints := newPoints + points;
      nodesInOrganelle := nodesInOrganelle + components;
      i := i + 1;
    }
    assert parts[..|parts|] == parts;
  }

  /** The filter keeps exactly the nodes at the part. */
  lemma {:induction false} NodesAtMembers(nodes: seq<GraphNode>, part: string)
    ensures forall n :: n in NodesAt(nodes, part) <==> n in nodes && n.originalLocation == part
  {
    if |nodes| > 0 {
      NodesAtMembers(nodes[..|nodes| - 1], part);
      assert nodes == nodes[..|nodes| - 1] + [nodes[|nodes| - 1]];
    }
  }

  /** The grouped nodes are exactly the nodes at one of the parts; the
      others are dropped. */
  lemma {:induction false} GroupedMembers(parts: seq<string>, nodes: seq<GraphNode>)
    ensures forall n :: n in Grouped(parts, nodes) <==> n in nodes && n.originalLocation in parts
  {
    if |parts| > 0 {
      var init := parts[..|parts| - 1];
      GroupedMembers(init, nodes);
      NodesAtMembers(nodes, parts[|parts| - 1]);
      assert parts == init + [parts[|parts| - 1]];
    }
  }

  /** Position of a location in the parts list. */
  function PartIndex(parts: seq<string>, location: string): int
  {
    FindIndex(parts, location)
  }

  ghost predicate InPartOrder(parts: seq<string>, g: seq<GraphNode>)
  {
    forall k, l :: 0 <= k < l < |g| ==>
      PartIndex(parts, g[k].originalLocation) <= PartIndex(parts, g[l].originalLocation)
  }

  /** Nodes come part by part: a node of an earlier part never follows a
      node of a later one. */
  lemma {:induction false} GroupedInPartOrder(parts: seq<string>, nodes: seq<GraphNode>)
    requires NoDuplicates(parts)
    ensures InPartOrder(parts, Grouped(parts, nodes))
  {
    if |parts| > 0 {
      var init, last := parts[..|parts| - 1], parts[|parts| - 1];
      assert parts == init + [last];
      assert NoDuplicates(init);
      GroupedInPartOrder(init, nodes);
      var a, b := Grouped(init, nodes), NodesAt(nodes, last);
      LaterPart(parts, init, last);
      GroupedMembers(init, nodes);
      assert forall x :: x in a ==> x.originalLocation in init;
      assert forall k :: 0 <= k < |b| ==> PartIndex(parts, b[k].originalLocation) == |init|;
      OrderOfConcat(parts, init, a, b);
      assert Grouped(parts, nodes) == a + b;
    }
  }

  /** The last part of a duplicate-free list comes after all the others, and
      the others keep their positions. */
  lemma LaterPart(parts: seq<string>, init: seq<string>, last: string)
    requires NoDuplicates(parts) && parts == init + [last]
    ensures last !in init
    ensures PartIndex(parts, last) == |init|
    ensures forall x :: x in init ==> PartIndex(parts, x) == PartIndex(init, x) < |init|
  {
    assert last !in init by {
      forall i | 0 <= i < |init| ensures init[i] != last {
        assert parts[i] == init[i] && parts[|init|] == last;
      }
    }
    FindIndexLast(init, last);
    forall x | x in init ensures PartIndex(parts, x) == PartIndex(init, x) {
      FindIndexPrefix(init, [last], x);
    }
  }

  lemma OrderOfConcat(parts: seq<string>, init: seq<string>, a: seq<GraphNode>, b: seq<GraphNode>)
    requires forall x :: x in init ==> PartIndex(parts, x) == PartIndex(init, x) < |init|
    requires forall x :: x in a ==> x.originalLocation in init
    requires InPartOrder(init, a)
    requires forall k :: 0 <= k < |b| ==> PartIndex(parts, b[k].originalLocation) == |init|
    ensures InPartOrder(parts, a + b)
  {
    var g := a + b;
    forall k, l | 0 <= k < l < |g|
      ensures PartIndex(parts, g[k].originalLocation) <= PartIndex(parts, g[l].originalLocation)
    {
      if k < |a| {
        assert g[k] == a[k] && a[k] in a;
        if l < |a| {
          assert g[l] == a[l] && a[l] in a;
        } else {
          assert g[l] == b[l - |a|];
        }
      } else {
        assert g[k] == b[k - |a|] && g[l] == b[l - |a|];
      }
    }
  }

  /** p is g position by position, with a position wherever the node had
      none: every field other than x and y is the grouped node's. */
  ghost predicate PlacedOver(p: seq<GraphNode>, g: seq<GraphNode>)
  {
    |p| == |g| &&
    forall k :: 0 <= k < |p| ==> p[k].(x := g[k].x, y := g[k].y) == g[k] && p[k].x.Some? && p[k].y.Some?
  }

  lemma PlacedOverConcat(a: seq<GraphNode>, q: seq<GraphNode>, b: seq<GraphNode>, c: seq<GraphNode>)
    requires PlacedOver(a, q) && PlacedOver(b, c)
    ensures PlacedOver(a + b, q + c)
  {
    forall k | 0 <= k < |a| + |b|
      ensures (a + b)[k].(x := (q + c)[k].x, y := (q + c)[k].y) == (q + c)[k]
    {
      if k >= |a| {
        assert (a + b)[k] == b[k - |a|] && (q + c)[k] == c[k - |a|];
      } else {
        assert (a + b)[k] == a[k] && (q + c)[k] == q[k];
      }
    }
  }

  lemma PointsOnPathOver(pathLength: real, pointAt: real -> Point, components: seq<GraphNode>)
    ensures PlacedOver(PointsOnPath(pathLength, pointAt, components), components)
  {
    var p := PointsOnPath(pathLength, pointAt, components);
    forall k | 0 <= k < |p|
      ensures p[k].(x := components[k].x, y := components[k].y) == components[k]
      ensures p[k].x.Some? && p[k].y.Some?
    {
      var c := components[k];
      assert p[k] == Place(c, pointAt(ArcLength(pathLength, k, |components|)));
      assert p[k].x.Some? && p[k].y.Some?;
      assert p[k].(x := c.x, y := c.y) == c;
    }
  }

  lemma AllMappedPrefix(parts: seq<string>, mapping: ObjectLiteral)
    requires |parts| > 0 && AllMapped(parts, mapping)
    ensures AllMapped(parts[..|parts| - 1], mapping)
  {
    var init := parts[..|parts| - 1];
    forall i | 0 <= i < |init| ensures Lookup(mapping, init[i]).Some? {
      assert init[i] == parts[i];
    }
  }

  /** Each placed node is its grouped node, at the same position, with a
      position filled in wherever the node had none. */
  lemma {:induction false} PlacedMatchesGrouped(parts: seq<string>, mapping: ObjectLiteral, nodes: seq<GraphNode>,
                                               totalLength: string -> real, pointAt: string -> real -> Point)
    requires AllMapped(parts, mapping)
    ensures PlacedOver(Placed(parts, mapping, nodes, totalLength, pointAt), Grouped(parts, nodes))
  {
    if |parts| > 0 {
      var init, part := parts[..|parts| - 1], parts[|parts| - 1];
      AllMappedPrefix(parts, mapping);
      PlacedMatchesGrouped(init, mapping, nodes, totalLength, pointAt);
      var path := Lookup(mapping, part).value;
      PointsOnPathOver(totalLength(path), pointAt(path), NodesAt(nodes, part));
      PlacedOverConcat(Placed(init, mapping, nodes, totalLength, pointAt), Grouped(init, nodes),
        PointsOnPath(totalLength(path), pointAt(path), NodesAt(nodes, part)), NodesAt(nodes, part));
    }
  }

  /** The same ids at the same positions give the same first index. */
  lemma NodeIndexSameIds(s: seq<GraphNode>, t: seq<GraphNode>, id: string)
    requires |s| == |t| && forall k :: 0 <= k < |s| ==> s[k].id == t[k].id
    ensures NodeIndex(s, id) == NodeIndex(t, id)
  {
    assert Ids(s) == Ids(t);
  }

  /** The link filter's test: both ends are grouped nodes (the first
      grouped node with the id) and they were at the same location. */
  predicate LinkKept(grouped: seq<GraphNode>, link: GraphLink)
  {
    var source, target := FindNode(grouped, link.source), FindNode(grouped, link.target);
    source.Some? && target.Some? && source.value.originalLocation == target.value.originalLocation
  }

  /** `linksInOrganelle = links.filter(...)` */
  function LinksInOrganelle(links: seq<GraphLink>, grouped: seq<GraphNode>): (r: seq<GraphLink>)
    ensures |r| <= |links|
    ensures forall l :: l in r <==> l in links && LinkKept(grouped, l)
  {
    if |links| == 0 then []
    else
      var init := LinksInOrganelle(links[..|links| - 1], grouped);
      var l := links[|links| - 1];
      assert links == links[..|links| - 1] + [l];
      if LinkKept(grouped, l) then init + [l] else init
  }

  /** Ids name nodes: no two different nodes have the same id. */
  ghost predicate UniqueIds(nodes: seq<GraphNode>)
  {
    forall i, j :: 0 <= i < |nodes| && 0 <= j < |nodes| && nodes[i].id == nodes[j].id ==> nodes[i] == nodes[j]
  }

  /** The node with an id among the grouped nodes is the graph's node with
      that id, provided its location is one of the parts. */
  lemma FindGrouped(parts: seq<string>, nodes: seq<GraphNode>, id: string, n: GraphNode)
    requires UniqueIds(nodes) && n in nodes && n.id == id
    ensures FindNode(Grouped(parts, nodes), id) == (if n.originalLocation in parts then Some(n) else None)
  {
    GroupedMembers(parts, nodes);
    var g := Grouped(parts, nodes);
    var k := NodeIndex(g, id);
    if k != -1 {
      assert g[k] in g;
    }
  }

  /** With unique ids, a link stays in the close-up exactly when both its
      ends are graph nodes at the same location and that location is one of
      the organelle's parts. */
  lemma LinkKeptIff(parts: seq<string>, nodes: seq<GraphNode>, link: GraphLink, a: GraphNode, b: GraphNode)
    requires UniqueIds(nodes)
    requires a in nodes && a.id == link.source && b in nodes && b.id == link.target
    ensures LinkKept(Grouped(parts, nodes), link) <==>
      a.originalLocation in parts && a.originalLocation == b.originalLocation
  {
    FindGrouped(parts, nodes, link.source, a);
    FindGrouped(parts, nodes, link.target, b);
  }

  /** A link whose ends are not both graph nodes is dropped. */
  lemma LinkDroppedWithoutEnds(parts: seq<string>, nodes: seq<GraphNode>, link: GraphLink)
    requires forall i :: 0 <= i < |nodes| ==> nodes[i].id != link.source
    ensures !LinkKept(Grouped(parts, nodes), link)
  {
    GroupedMembers(parts, nodes);
    var g := Grouped(parts, nodes);
    var k := NodeIndex(g, link.source);
    if k != -1 {
      assert g[k] in g;
    }
  }

  /** An edge line: `x1`, `y1` from the source position, `x2`, `y2` from
      the target position. */
  datatype Line = Line(x1: Option<real>, y1: Option<real>, x2: Option<real>, y2: Option<real>)

  /** The edge of a link: the positions of the first placed nodes with its
      source and target ids; None where `find` gives undefined and reading
      `.x` would throw. */
  function EdgeLine(newPoints: seq<GraphNode>, link: GraphLink): Option<Line>
  {
    var s, t := FindNode(newPoints, link.source), FindNode(newPoints, link.target);
    if s.None? || t.None? then None
    else Some(Line(s.value.x, s.value.y, t.value.x, t.value.y))
  }

  /** Every kept link is drawn, between the positions at which its two end
      nodes were placed. */
  lemma EdgesOfKeptLinks(parts: seq<string>, mapping: ObjectLiteral, nodes: seq<GraphNode>,
                         totalLength: string -> real, pointAt: string -> real -> Point,
                         links: seq<GraphLink>, link: GraphLink)
    requires AllMapped(parts, mapping)
    requires link in LinksInOrganelle(links, Grouped(parts, nodes))
    ensures var p, g := Placed(parts, mapping, nodes, totalLength, pointAt), Grouped(parts, nodes);
      var ks, kt := NodeIndex(g, link.source), NodeIndex(g, link.target);
      && 0 <= ks < |p| && 0 <= kt < |p|
      && EdgeLine(p, link) == Some(Line(p[ks].x, p[ks].y, p[kt].x, p[kt].y))
      && p[ks].(x := g[ks].x, y := g[ks].y) == g[ks]
      && p[kt].(x := g[kt].x, y := g[kt].y) == g[kt]
      && p[ks].x.Some? && p[ks].y.Some? && p[kt].x.Some? && p[kt].y.Some?
  {
    var p, g := Placed(parts, mapping, nodes, totalLength, pointAt), Grouped(parts, nodes);
    PlacedMatchesGrouped(parts, mapping, nodes, totalLength, pointAt);
    assert PlacedOver(p, g);
    assert forall k :: 0 <= k < |p| ==> p[k].id == g[k].id by {
      forall k | 0 <= k < |p| ensures p[k].id == g[k].id {
        assert p[k].(x := g[k].x, y := g[k].y).id == p[k].id;
      }
    }
    NodeIndexSameIds(p, g, link.source);
    NodeIndexSameIds(p, g, link.target);
  }

  lemma KeptLinkDrawn(parts: seq<string>, mapping: ObjectLiteral, nodes: seq<GraphNode>,
                      totalLength: string -> real, pointAt: string -> real -> Point,
                      links: seq<GraphLink>, link: GraphLink)
    requires AllMapped(parts, mapping)
    requires link in LinksInOrganelle(links, Grouped(parts, nodes))
    ensures EdgeLine(Placed(parts, mapping, nodes, totalLength, pointAt), link).Some?
  {
    EdgesOfKeptLinks(parts, mapping, nodes, totalLength, pointAt, links, link);
  }

  /** `initEndoplasmicReticulum` / `initMitochondria` without the drawing:
      the placed nodes, the grouped nodes, the kept links, and for each kept
      link the line drawn for it. */
  method InitOrganelle(parts: seq<string>, mapping: ObjectLiteral, nodes: seq<GraphNode>, links: seq<GraphLink>,
                       totalLength: string -> real, pointAt: string -> real -> Point)
    returns (newPoints: seq<GraphNode>, nodesInOrganelle: seq<GraphNode>,
             linksInOrganelle: seq<GraphLink>, edges: seq<Line>)
    requires AllMapped(parts, mapping)
    ensures newPoints == Placed(parts, mapping, nodes, totalLength, pointAt)
    ensures nodesInOrganelle == Grouped(parts, nodes)
    ensures linksInOrganelle == LinksInOrganelle(links, nodesInOrganelle)
    ensures |edges| == |linksInOrganelle|
    ensures forall i :: 0 <= i < |edges| ==> EdgeLine(newPoints, linksInOrganelle[i]) == Some(edges[i])
  {
    newPoints, nodesInOrganelle := PlaceParts(parts, mapping, nodes, totalLength, pointAt);
    linksInOrganelle := LinksInOrganelle(links, nodesInOrganelle);
    forall link | link in linksInOrganelle ensures EdgeLine(newPoints, link).Some? {
      KeptLinkDrawn(parts, mapping, nodes, totalLength, pointAt, links, link);
    }
    edges := DrawEdges(newPoints, linksInOrganelle);
  }

  /** The `each` pass over the kept links: one line per link, between the
      positions found for its ends. */
  method DrawEdges(newPoints: seq<GraphNode>, links: seq<GraphLink>) returns (edges: seq<Line>)
    requires forall link :: link in links ==> EdgeLine(newPoints, link).Some?
    ensures |edges| == |links|
    ensures forall i :: 0 <= i < |edges| ==> EdgeLine(newPoints, links[i]) == Some(edges[i])
  {
    edges := [];
    var i := 0;
    while i < |links|
      invariant 0 <= i <= |links|
      invariant |edges| == i
      invariant forall k :: 0 <= k < i ==> EdgeLine(newPoints, links[k]) == Some(edges[k])
    {
      var line := EdgeLine(newPoints, links[i]);
      assert links[i] in links;
      edges := edges + [line.value];
      i := i + 1;
    }
  }

  /** The tooltip width for a name of the given length: short names are
      padded by two characters, long ones trimmed by two, 12 pixels a
      character. */
  function TooltipWidth(nameLength: nat): (w: int)
    ensures w > 0 && w % 12 == 0
    ensures nameLength < 6 ==> w == (nameLength + 2) * 12
    ensures 6 <= nameLength <= 12 ==> w == nameLength * 12
    ensures nameLength > 12 ==> w == (nameLength - 2) * 12
  {
    (if nameLength < 6 then nameLength + 2
     else if nameLength > 12 then nameLength - 2
     else nameLength) * 12
  }

  /** The tooltip box: left edge and width. */
  datatype TooltipBox = TooltipBox(x: real, width: real)

  /** The box drawn at mouse position mouseX: `x = mouse[0] - width / 2`. */
  function Tooltip(mouseX: real, nameLength: nat): (b: TooltipBox)
    ensures b.width > 0.0
    ensures b.x + b.width / 2.0 == mouseX
  {
    var w := TooltipWidth(nameLength) as real;
    TooltipBox(mouseX - w / 2.0, w)
  }
}
