/** The `CellVisualizer` component: reading the cell table out of the cell
    diagram, choosing the containment rule for every node on each tick of
    the force simulation, and pinning a dragged node.

    The diagram's attributes are taken as already read: a group element's
    id and `transform`, and for each component its circle's `cx`, `cy` and
    `r` as numbers. Unary plus on a string is the parameter `toNumber`. */
module CellVisualizer {
  import opened Seqs
  import opened JsString
  import opened CellGeometry
  import opened Data

  /** `.map(v => +v)` */
  function Numbers(toNumber: string -> real, pieces: seq<string>): (r: seq<real>)
    ensures |r| == |pieces| && forall i :: 0 <= i < |pieces| ==> r[i] == toNumber(pieces[i])
  {
    seq(|pieces|, i requires 0 <= i < |pieces| => toNumber(pieces[i]))
  }

  /** The text between "translate(" and ")": the first occurrence of each
      is removed. */
  function TranslateArguments(translate: string): string
  {
    ReplaceFirst(ReplaceFirst(translate, "translate(", ""), ")", "")
  }

  /** `parseTranslateValues`: the arguments split at the commas, each
      converted to a number. */
  function ParseTranslateValues(toNumber: string -> real, translate: string): (r: seq<real>)
    ensures |r| >= 1
  {
    Numbers(toNumber, Split(TranslateArguments(translate), ','))
  }

  /** Removing "translate(" and the first ")" from "translate(u)" leaves u
      when u holds no ")". */
  lemma TranslateArgumentsOf(u: string)
    requires ')' !in u
    ensures TranslateArguments("translate(" + u + ")") == u
  {
    var t := "translate(" + u + ")";
    ReplaceFirstAt("", "translate(", u + ")", "");
    assert "" + "translate(" + (u + ")") == t;
    var s1 := ReplaceFirst(t, "translate(", "");
    assert s1 == u + ")" + "";
    SingleCharFirst(u, ')', "");
    ReplaceFirstAt(u, ")", "", "");
    assert u + "" + "" == u;
  }

  /** "translate(a,b)" gives the two numbers of a and b. */
  lemma ParseTranslatePair(toNumber: string -> real, a: string, b: string)
    requires ',' !in a && ',' !in b && ')' !in a && ')' !in b
    ensures ParseTranslateValues(toNumber, "translate(" + a + "," + b + ")") == [toNumber(a), toNumber(b)]
  {
    var u := a + "," + b;
    assert u == a + [','] + b;
    assert "translate(" + a + "," + b + ")" == "translate(" + u + ")";
    TranslateArgumentsOf(u);
    SplitTwo(a, b, ',');
    var r := Numbers(toNumber, [a, b]);
    assert r == [toNumber(a), toNumber(b)];
  }

  /** An element of class `group_component`: its id and its `transform`
      attribute, if it has one. */
  datatype GroupElement = GroupElement(id: string, transform: Option<string>)

  /** The attributes of a component's circle, as numbers. */
  datatype Circle = Circle(cx: real, cy: real, r: real)

  /** Line 115: the component's name is the group id with its first
      "_group" removed. */
  function ComponentName(id: string): string
  {
    ReplaceFirst(id, "_group", "")
  }

  /** Only the first "_group" goes: whatever follows it is kept as it is. */
  lemma ComponentNameStrip(u: string, v: string)
    requires forall k :: 0 <= k < |u| ==> !OccursAt(u + "_group" + v, "_group", k)
    ensures ComponentName(u + "_group" + v) == u + v
  {
    ReplaceFirstAt(u, "_group", v, "");
    assert u + "" + v == u + v;
  }

  /** A group's own offset: a missing or empty `transform` is no offset. */
  function GroupTranslate(toNumber: string -> real, transform: Option<string>): seq<real>
  {
    if transform.None? || transform.value == "" then [0.0, 0.0]
    else ParseTranslateValues(toNumber, transform.value)
  }

  /** The offsets have two coordinates and every group names a component
      whose circle exists; otherwise the source reads a property of null
      or computes with `undefined`. */
  predicate GroupsDefined(toNumber: string -> real, cellTranslate: seq<real>,
                          groups: seq<GroupElement>, circles: map<string, Circle>)
  {
    |cellTranslate| >= 2 &&
    forall i :: 0 <= i < |groups| ==>
      ComponentName(groups[i].id) in circles && |GroupTranslate(toNumber, groups[i].transform)| >= 2
  }

  /** Lines 118-132: the entry stored for one group, centred at the circle's
      centre moved by the group offset and the whole diagram's offset. */
  function GroupComponent(toNumber: string -> real, cellTranslate: seq<real>,
                          g: GroupElement, circles: map<string, Circle>): Component
    requires |cellTranslate| >= 2 && ComponentName(g.id) in circles
    requires |GroupTranslate(toNumber, g.transform)| >= 2
  {
    var c := circles[ComponentName(g.id)];
    var gt := GroupTranslate(toNumber, g.transform);
    Component(c.cx + gt[0] + cellTranslate[0], c.cy + gt[1] + cellTranslate[1], c.r, 0.0)
  }

  /** The (name, component) pairs the groups give, in document order. */
  function GroupEntries(toNumber: string -> real, cellTranslate: seq<real>, groups: seq<GroupElement>,
                        circles: map<string, Circle>): (r: seq<(string, Component)>)
    requires GroupsDefined(toNumber, cellTranslate, groups, circles)
    ensures |r| == |groups|
    ensures forall i :: 0 <= i < |groups| ==>
      r[i] == (ComponentName(groups[i].id), GroupComponent(toNumber, cellTranslate, groups[i], circles))
  {
    seq(|groups|, i requires 0 <= i < |groups| =>
      (ComponentName(groups[i].id), GroupComponent(toNumber, cellTranslate, groups[i], circles)))
  }

  /** `cell[name] = component` for every pair in order. */
  function Store(t: CellTable, items: seq<(string, Component)>): CellTable
    decreases |items|
  {
    if |items| == 0 then t else Store(Put(t, items[0].0, items[0].1), items[1..])
  }

  lemma StoreStep(t: CellTable, items: seq<(string, Component)>, i: nat)
    requires i < |items|
    ensures Store(t, items[i..]) == Store(Put(t, items[i].0, items[i].1), items[i + 1..])
  {
    assert items[i..][1..] == items[i + 1..];
  }

  /** Lines 135-136: the plasma membrane is an annulus whose inner radius
      lies 0.6 * padding beyond the cytoplasm. */
  function WithMembraneRadius(t: CellTable): CellTable
    requires "plasma_membrane" in t.entries && "cytoplasm" in t.entries
  {
    var pm := t.entries["plasma_membrane"];
    Put(t, "plasma_membrane", pm.(rmin := t.entries["cytoplasm"].rmax + 0.6 * Padding))
  }

  /** The table `initCellStructure` leaves behind, starting from t. */
  function CellStructure(toNumber: string -> real, cellTransform: string, groups: seq<GroupElement>,
                         circles: map<string, Circle>, t: CellTable): CellTable
    requires StructureDefined(toNumber, cellTransform, groups, circles, t)
  {
    var ct := ParseTranslateValues(toNumber, cellTransform);
    WithMembraneRadius(Store(t, GroupEntries(toNumber, ct, groups, circles)))
  }

  /** `initCellStructure` runs to its end: the groups are well formed and
      both the plasma membrane and the cytoplasm end up in the table. */
  predicate StructureDefined(toNumber: string -> real, cellTransform: string, groups: seq<GroupElement>,
                             circles: map<string, Circle>, t: CellTable)
  {
    var ct := ParseTranslateValues(toNumber, cellTransform);
    GroupsDefined(toNumber, ct, groups, circles) &&
    var s := Store(t, GroupEntries(toNumber, ct, groups, circles));
    "plasma_membrane" in s.entries && "cytoplasm" in s.entries
  }

  /** A name no pair carries keeps the entry it had. */
  lemma {:induction false} StoreOther(t: CellTable, items: seq<(string, Component)>, k: string)
    requires forall i :: 0 <= i < |items| ==> items[i].0 != k
    ensures var s := Store(t, items);
      (k in s.entries <==> k in t.entries) && (k in t.entries ==> s.entries[k] == t.entries[k])
    decreases |items|
  {
    if |items| > 0 {
      var rest := items[1..];
      forall i | 0 <= i < |rest| ensures rest[i].0 != k {
        assert rest[i] == items[i + 1];
      }
      StoreOther(Put(t, items[0].0, items[0].1), rest, k);
    }
  }

  /** The entry of a name is the component of the last pair carrying it:
      later pairs of the same name overwrite earlier ones. */
  lemma {:induction false} StoreLast(t: CellTable, items: seq<(string, Component)>, i: nat)
    requires i < |items|
    requires forall j :: i < j < |items| ==> items[j].0 != items[i].0
    ensures var s := Store(t, items); items[i].0 in s.entries && s.entries[items[i].0] == items[i].1
    decreases |items|
  {
    var rest := items[1..];
    var t' := Put(t, items[0].0, items[0].1);
    if i == 0 {
      forall j | 0 <= j < |rest| ensures rest[j].0 != items[0].0 {
        assert rest[j] == items[j + 1];
      }
      StoreOther(t', rest, items[0].0);
    } else {
      forall j | i - 1 < j < |rest| ensures rest[j].0 != rest[i - 1].0 {
        assert rest[j] == items[j + 1] && rest[i - 1] == items[i];
      }
      StoreLast(t', rest, i - 1);
    }
  }

  /** Storing keeps the table well formed: every name once in the key
      order, exactly the names with an entry. */
  lemma {:induction false} StoreValid(t: CellTable, items: seq<(string, Component)>)
    requires ValidTable(t)
    ensures ValidTable(Store(t, items))
    decreases |items|
  {
    if |items| > 0 {
      StoreValid(Put(t, items[0].0, items[0].1), items[1..]);
    }
  }

  /** The names of the pairs, in order. */
  function Names(items: seq<(string, Component)>): (r: seq<string>)
    ensures |r| == |items| && forall i :: 0 <= i < |items| ==> r[i] == items[i].0
  {
    seq(|items|, i requires 0 <= i < |items| => items[i].0)
  }

  /** The component name of every group element, in document order. */
  function GroupNames(groups: seq<GroupElement>): (r: seq<string>)
    ensures |r| == |groups| && forall i :: 0 <= i < |groups| ==> r[i] == ComponentName(groups[i].id)
  {
    seq(|groups|, i requires 0 <= i < |groups| => ComponentName(groups[i].id))
  }

  /** One store appends a new name and keeps a known one in its place. */
  lemma PutKeys(t: CellTable, k: string, v: Component)
    requires ValidTable(t)
    ensures Put(t, k, v).keys == Distinct(t.keys + [k])
  {
    DistinctOfUnique(t.keys);
    assert (t.keys + [k])[..|t.keys|] == t.keys;
  }

  /** The key order after storing: the old keys, then each new name where
      it first occurs. This is the order `Object.keys` reports. */
  lemma {:induction false} StoreKeys(t: CellTable, items: seq<(string, Component)>)
    requires ValidTable(t)
    ensures Store(t, items).keys == Distinct(t.keys + Names(items))
    decreases |items|
  {
    if |items| == 0 {
      DistinctOfUnique(t.keys);
      assert t.keys + Names(items) == t.keys;
    } else {
      var n, rest := items[0].0, items[1..];
      var t' := Put(t, n, items[0].1);
      assert t.keys + Names(items) == (t.keys + [n]) + Names(rest);
      calc {
        Store(t, items).keys;
        Store(t', rest).keys;
        { StoreKeys(t', rest); }
        Distinct(t'.keys + Names(rest));
        { PutKeys(t, n, items[0].1); }
        Distinct(Distinct(t.keys + [n]) + Names(rest));
        { DistinctAppendDistinct(t.keys + [n], Names(rest)); }
        Distinct((t.keys + [n]) + Names(rest));
      }
    }
  }

  /** After `initCellStructure` the keys are the old ones followed by the
      component name of each group, where it first occurs in document order.
      The plasma-membrane update keeps its key's place. */
  lemma CellStructureKeys(toNumber: string -> real, cellTransform: string, groups: seq<GroupElement>,
                          circles: map<string, Circle>, t: CellTable)
    requires StructureDefined(toNumber, cellTransform, groups, circles, t) && ValidTable(t)
    ensures CellStructure(toNumber, cellTransform, groups, circles, t).keys == Distinct(t.keys + GroupNames(groups))
  {
    var ct := ParseTranslateValues(toNumber, cellTransform);
    var items := GroupEntries(toNumber, ct, groups, circles);
    StoreKeys(t, items);
    assert Names(items) == GroupNames(groups);
  }

  /** Every component whose name the last group carrying it gives is
      centred at its circle's centre plus the group's and the diagram's
      offsets, has the circle's radius as rmax, and has rmin 0, except the
      plasma membrane, whose rmin is the cytoplasm's rmax + 0.6 * padding.
      The no-op at lines 137-139 changes nothing, so this holds with or
      without a cell wall. */
  lemma CellStructureEntry(toNumber: string -> real, cellTransform: string, groups: seq<GroupElement>,
                           circles: map<string, Circle>, t: CellTable, i: nat)
    requires StructureDefined(toNumber, cellTransform, groups, circles, t) && i < |groups|
    requires forall j :: i < j < |groups| ==> ComponentName(groups[j].id) != ComponentName(groups[i].id)
    ensures var cell := CellStructure(toNumber, cellTransform, groups, circles, t);
      var name := ComponentName(groups[i].id);
      var circle := circles[name];
      var gt := GroupTranslate(toNumber, groups[i].transform);
      var ct := ParseTranslateValues(toNumber, cellTransform);
      && name in cell.entries
      && cell.entries[name].cx == circle.cx + gt[0] + ct[0]
      && cell.entries[name].cy == circle.cy + gt[1] + ct[1]
      && cell.entries[name].rmax == circle.r
      && cell.entries[name].rmin ==
           (if name == "plasma_membrane" then cell.entries["cytoplasm"].rmax + 0.6 * Padding else 0.0)
  {
    var ct := ParseTranslateValues(toNumber, cellTransform);
    var items := GroupEntries(toNumber, ct, groups, circles);
    StoreLast(t, items, i);
  }

  /** A name no group carries, other than the plasma membrane, keeps the
      entry it had before. */
  lemma CellStructureOther(toNumber: string -> real, cellTransform: string, groups: seq<GroupElement>,
                           circles: map<string, Circle>, t: CellTable, k: string)
    requires StructureDefined(toNumber, cellTransform, groups, circles, t) && k != "plasma_membrane"
    requires forall i :: 0 <= i < |groups| ==> ComponentName(groups[i].id) != k
    ensures var cell := CellStructure(toNumber, cellTransform, groups, circles, t);
      (k in cell.entries <==> k in t.entries) && (k in t.entries ==> cell.entries[k] == t.entries[k])
  {
    var ct := ParseTranslateValues(toNumber, cellTransform);
    StoreOther(t, GroupEntries(toNumber, ct, groups, circles), k);
  }

  /** Object.keys order: the names that `constraintInsideCell` must keep a
      cytoplasm node out of, that is every name but the three boundaries. */
  predicate IsBoundary(k: string)
  {
    k == "plasma_membrane" || k == "cytoplasm" || k == "cell_wall"
  }

  function ExclusionKeys(keys: seq<string>): (r: seq<string>)
    ensures |r| <= |keys|
    ensures forall i :: 0 <= i < |r| ==> r[i] in keys && !IsBoundary(r[i])
  {
    if |keys| == 0 then []
    else if IsBoundary(keys[0]) then ExclusionKeys(keys[1..])
    else [keys[0]] + ExclusionKeys(keys[1..])
  }

  /** Exactly the keys that are not boundaries are exclusions. */
  lemma {:induction false} ExclusionKeysMembers(keys: seq<string>)
    ensures forall k :: k in ExclusionKeys(keys) <==> k in keys && !IsBoundary(k)
  {
    if |keys| > 0 {
      ExclusionKeysMembers(keys[1..]);
      assert keys == [keys[0]] + keys[1..];
    }
  }

  /** No exclusion is listed twice. */
  lemma {:induction false} ExclusionKeysDistinct(keys: seq<string>)
    requires NoDuplicates(keys)
    ensures NoDuplicates(ExclusionKeys(keys))
  {
    if |keys| > 0 {
      var rest := keys[1..];
      assert NoDuplicates(rest);
      ExclusionKeysDistinct(rest);
      var r, r' := ExclusionKeys(keys), ExclusionKeys(rest);
      if !IsBoundary(keys[0]) {
        assert r == [keys[0]] + r';
        ExclusionKeysMembers(rest);
        assert keys[0] !in r' by { assert keys[0] !in rest; }
        forall i, j | 0 <= i < j < |r| ensures r[i] != r[j] {
          assert r[j] == r'[j - 1];
          if i > 0 {
            assert r[i] == r'[i - 1];
          }
        }
      }
    }
  }

  /** The exclusions keep the order of the keys. */
  lemma {:induction false} ExclusionKeysOrder(keys: seq<string>)
    requires NoDuplicates(keys)
    ensures forall i, j :: 0 <= i < j < |ExclusionKeys(keys)| ==>
      FindIndex(keys, ExclusionKeys(keys)[i]) < FindIndex(keys, ExclusionKeys(keys)[j])
  {
    if |keys| > 0 {
      var rest := keys[1..];
      assert NoDuplicates(rest);
      ExclusionKeysOrder(rest);
      var r, r' := ExclusionKeys(keys), ExclusionKeys(rest);
      forall i | 0 <= i < |r'| ensures FindIndex(keys, r'[i]) == FindIndex(rest, r'[i]) + 1 {
        assert r'[i] in rest;
        assert r'[i] != keys[0];
        FindIndexTail(keys, r'[i]);
      }
      if !IsBoundary(keys[0]) {
        assert r == [keys[0]] + r';
        forall i, j | 0 <= i < j < |r| ensures FindIndex(keys, r[i]) < FindIndex(keys, r[j]) {
          assert r[j] == r'[j - 1];
          assert FindIndex(keys, r[j]) == FindIndex(rest, r'[j - 1]) + 1;
          if i > 0 {
            assert r[i] == r'[i - 1];
            assert FindIndex(rest, r'[i - 1]) < FindIndex(rest, r'[j - 1]);
          } else {
            assert r[i] == keys[0] && FindIndex(keys, keys[0]) == 0;
            assert r'[j - 1] in rest;
          }
        }
      }
    }
  }

  /** Lines 213-217: the components of the exclusion keys, in key order. */
  function CytoplasmExclusions(cell: CellTable): (es: seq<Component>)
    requires ValidTable(cell)
    ensures |es| == |ExclusionKeys(cell.keys)|
    ensures forall i :: 0 <= i < |es| ==> es[i] == cell.entries[ExclusionKeys(cell.keys)[i]]
  {
    var ks := ExclusionKeys(cell.keys);
    seq(|ks|, i requires 0 <= i < |ks| => cell.entries[ks[i]])
  }

  /** `calculateNewPosition` terminates normally: the rule it picks finds
      its component and never divides by 0. */
  ghost predicate PositionDefined(sqrt: real -> real, mapping: seq<GroupMappingEntry>, cell: CellTable,
                                  x: real, y: real, group: int)
    requires IsSqrt(sqrt)
  {
    ValidTable(cell) &&
    match FindMapping(mapping, group)
    case None => true
    case Some(m) =>
      if m.component == "cytoplasm" then
        "cytoplasm" in cell.entries &&
        InsideDefined(sqrt, x, y, cell.entries["cytoplasm"], CytoplasmExclusions(cell))
      else if m.component == "extracellular" then OutsideDefined(sqrt, x, y, cell)
      else m.component in cell.entries && InsideDefined(sqrt, x, y, cell.entries[m.component], [])
  }

  /** `calculateNewPosition`: the corrected position of a node at (x, y) in
      the given group. */
  function NewPosition(sqrt: real -> real, mapping: seq<GroupMappingEntry>, cell: CellTable,
                       x: real, y: real, group: int): Point
    requires IsSqrt(sqrt) && PositionDefined(sqrt, mapping, cell, x, y, group)
  {
    match FindMapping(mapping, group)
    case None => Point(x, y)
    case Some(m) =>
      if m.component == "cytoplasm" then
        InsidePosition(sqrt, x, y, cell.entries["cytoplasm"], CytoplasmExclusions(cell))
      else if m.component == "extracellular" then ConstraintOutsideCell(sqrt, x, y, cell)
      else InsidePosition(sqrt, x, y, cell.entries[m.component], [])
  }

  /** A node whose group has no mapping entry is drawn where it is. */
  lemma UnmappedNodeKept(sqrt: real -> real, mapping: seq<GroupMappingEntry>, cell: CellTable,
                         x: real, y: real, group: int)
    requires IsSqrt(sqrt) && ValidTable(cell) && FindMapping(mapping, group).None?
    ensures PositionDefined(sqrt, mapping, cell, x, y, group)
    ensures NewPosition(sqrt, mapping, cell, x, y, group) == Point(x, y)
  {
  }

  /** A node of a group mapped to an ordinary component wide enough for
      it ends up in that component's padded annulus, and a second
      correction leaves it there. */
  lemma ComponentNodeContained(sqrt: real -> real, mapping: seq<GroupMappingEntry>, cell: CellTable,
                               x: real, y: real, group: int)
    requires IsSqrt(sqrt) && PositionDefined(sqrt, mapping, cell, x, y, group)
    requires var m := FindMapping(mapping, group);
      m.Some? && m.value.component != "cytoplasm" && m.value.component != "extracellular" &&
      Roomy(cell.entries[m.value.component])
    ensures var c := cell.entries[FindMapping(mapping, group).value.component];
      var p := NewPosition(sqrt, mapping, cell, x, y, group);
      && c.rmin + Padding <= DistanceTo(sqrt, p.x, p.y, c) <= c.rmax - Padding
      && PositionDefined(sqrt, mapping, cell, p.x, p.y, group)
      && NewPosition(sqrt, mapping, cell, p.x, p.y, group) == p
  {
    var c := cell.entries[FindMapping(mapping, group).value.component];
    InsideContained(sqrt, x, y, c);
    InsideIdempotent(sqrt, x, y, c);
  }

  /** A cytoplasm node inside the cytoplasm's padded disc that lies within
      rmax + padding of the i-th exclusion, and clear of the ones before,
      is put at exactly that distance from it, on the ray from its centre. */
  lemma CytoplasmNodeExcluded(sqrt: real -> real, mapping: seq<GroupMappingEntry>, cell: CellTable,
                              x: real, y: real, group: int, i: nat)
    returns (k: real)
    requires IsSqrt(sqrt) && PositionDefined(sqrt, mapping, cell, x, y, group)
    requires var m := FindMapping(mapping, group); m.Some? && m.value.component == "cytoplasm"
    requires var c := cell.entries["cytoplasm"];
      c.rmin + Padding <= DistanceTo(sqrt, x, y, c) <= c.rmax - Padding
    requires var es := CytoplasmExclusions(cell);
      && i < |es| && 0.0 <= es[i].rmax
      && (forall j :: 0 <= j < i ==> DistanceTo(sqrt, x, y, es[j]) >= es[j].rmax + Padding)
      && DistanceTo(sqrt, x, y, es[i]) < es[i].rmax + Padding
    ensures var e := CytoplasmExclusions(cell)[i];
      MovedRadially(sqrt, x, y, NewPosition(sqrt, mapping, cell, x, y, group), e, e.rmax + Padding, k)
  {
    var c := cell.entries["cytoplasm"];
    var es := CytoplasmExclusions(cell);
    assert NewPosition(sqrt, mapping, cell, x, y, group) == InsidePosition(sqrt, x, y, c, es);
    assert InsidePosition(sqrt, x, y, c, es) == AvoidExclusions(sqrt, x, y, es);
    k := FirstExclusionWins(sqrt, x, y, es, i);
  }

  /** An extracellular node near the border is pushed out to rmax + padding
      from the border's centre. */
  lemma ExtracellularNodePushedOut(sqrt: real -> real, mapping: seq<GroupMappingEntry>, cell: CellTable,
                                   x: real, y: real, group: int)
    returns (k: real)
    requires IsSqrt(sqrt) && PositionDefined(sqrt, mapping, cell, x, y, group)
    requires var m := FindMapping(mapping, group); m.Some? && m.value.component == "extracellular"
    requires var b := Border(cell); DistanceTo(sqrt, x, y, b) < b.rmax + Padding && 0.0 <= b.rmax
    ensures MovedRadially(sqrt, x, y, NewPosition(sqrt, mapping, cell, x, y, group), Border(cell), Border(cell).rmax + Padding, k)
  {
    k := OutsidePushOut(sqrt, x, y, cell);
  }

  /** A node object of the simulation: its group, the position the
      simulation gives it, and its pin (`fx`, `fy`; None is null). */
  class SimNode {
    const group: int
    var x: real
    var y: real
    var fx: Option<real>
    var fy: Option<real>

    constructor(group: int, x: real, y: real)
      ensures this.group == group && this.x == x && this.y == y && fx == None && fy == None
    {
      this.group := group;
      this.x := x;
      this.y := y;
      fx := None;
      fy := None;
    }
  }

  /** The part of the force simulation that dragging touches: its alpha
      target and whether its timer has been restarted. */
  class Simulation {
    var alphaTarget: real
    var running: bool

    constructor()
      ensures alphaTarget == 0.0 && running
    {
      alphaTarget := 0.0;
      running := true;
    }
  }

  /** A link as the simulation resolves it: the indices of its end nodes. */
  datatype TickLink = TickLink(source: nat, target: nat)

  /** The end points a drawn edge is given. */
  datatype Line = Line(x1: real, y1: real, x2: real, y2: real)

  /** `dragstarted`: with no other drag under way (`active` counts them)
      the simulation is reheated to alpha target 0.3 and restarted; the
      node is pinned where it is. */
  method DragStarted(simulation: Simulation, d: SimNode, active: nat)
    modifies simulation, d
    ensures active == 0 ==> simulation.alphaTarget == 0.3 && simulation.running
    ensures active != 0 ==>
      simulation.alphaTarget == old(simulation.alphaTarget) && simulation.running == old(simulation.running)
    ensures d.fx == Some(old(d.x)) && d.fy == Some(old(d.y))
    ensures d.x == old(d.x) && d.y == old(d.y)
  {
    if active == 0 {
      simulation.alphaTarget := 0.3;
      simulation.running := true;
    }
    d.fx := Some(d.x);
    d.fy := Some(d.y);
  }

  /** `dragged`: the pin follows the pointer. */
  method Dragged(d: SimNode, eventX: real, eventY: real)
    modifies d
    ensures d.fx == Some(eventX) && d.fy == Some(eventY)
    ensures d.x == old(d.x) && d.y == old(d.y)
  {
    d.fx := Some(eventX);
    d.fy := Some(eventY);
  }

  /** `dragended`: with no other drag under way the alpha target drops to
      0; the pin is released. */
  method DragEnded(simulation: Simulation, d: SimNode, active: nat)
    modifies simulation, d
    ensures active == 0 ==> simulation.alphaTarget == 0.0
    ensures active != 0 ==> simulation.alphaTarget == old(simulation.alphaTarget)
    ensures simulation.running == old(simulation.running)
    ensures d.fx == None && d.fy == None
    ensures d.x == old(d.x) && d.y == old(d.y)
  {
    if active == 0 {
      simulation.alphaTarget := 0.0;
    }
    d.fx := None;
    d.fy := None;
  }

  /** The component object, holding the cell table it builds. */
  class CellVisualizerComponent {
    var cell: CellTable

    constructor()
      ensures cell == CellTable([], map[])
    {
      cell := CellTable([], map[]);
    }

    /** `initCellStructure` after the diagram has been read: stores one
        component per group element, in document order, into the table it
        already has, then widens the plasma membrane into an annulus. */
    method InitCellStructure(toNumber: string -> real, cellTransform: string, groups: seq<GroupElement>,
                             circles: map<string, Circle>)
      modifies this
      requires StructureDefined(toNumber, cellTransform, groups, circles, cell)
      ensures cell == CellStructure(toNumber, cellTransform, groups, circles, old(cell))
      ensures old(ValidTable(cell)) ==> ValidTable(cell)
    {
      ghost var t0 := cell;
      var cellTranslate := ParseTranslateValues(toNumber, cellTransform);
      ghost var items := GroupEntries(toNumber, cellTranslate, groups, circles);
      var i := 0;
      while i < |groups|
        invariant 0 <= i <= |groups|
        invariant Store(cell, items[i..]) == Store(t0, items)
        invariant ValidTable(t0) ==> ValidTable(cell)
      {
        var g := groups[i];
        var name := ComponentName(g.id);
        var component := GroupComponent(toNumber, cellTranslate, g, circles);
        StoreStep(cell, items, i);
        cell := Put(cell, name, component);
        i := i + 1;
      }
      assert items[i..] == [];
      var pm := cell.entries["plasma_membrane"];
      cell := Put(cell, "plasma_membrane", pm.(rmin := cell.entries["cytoplasm"].rmax + 0.6 * Padding));
      if "cell_wall" in cell.entries {
        var _ := cell.entries["plasma_membrane"].rmax + 0.6 * Padding;
      }
    }

    /** `onTick`: every node is drawn at its corrected position and every
        link between the corrected positions of its two end nodes. The
        method has no modifies clause, so `node.x` and `node.y` keep the
        values the simulation gave them. */
    method OnTick(sqrt: real -> real, mapping: seq<GroupMappingEntry>, nodes: seq<SimNode>, links: seq<TickLink>)
      returns (drawnNodes: seq<Point>, drawnLinks: seq<Line>)
      requires IsSqrt(sqrt)
      requires forall i :: 0 <= i < |nodes| ==>
        PositionDefined(sqrt, mapping, cell, nodes[i].x, nodes[i].y, nodes[i].group)
      requires forall j :: 0 <= j < |links| ==> links[j].source < |nodes| && links[j].target < |nodes|
      ensures |drawnNodes| == |nodes|
      ensures forall i :: 0 <= i < |nodes| ==>
        drawnNodes[i] == NewPosition(sqrt, mapping, cell, nodes[i].x, nodes[i].y, nodes[i].group)
      ensures |drawnLinks| == |links|
      ensures forall j :: 0 <= j < |links| ==>
        var s, t := drawnNodes[links[j].source], drawnNodes[links[j].target];
        drawnLinks[j] == Line(s.x, s.y, t.x, t.y)
    {
      drawnNodes := [];
      var i := 0;
      while i < |nodes|
        invariant 0 <= i <= |nodes| && |drawnNodes| == i
        invariant forall k :: 0 <= k < i ==>
          drawnNodes[k] == NewPosition(sqrt, mapping, cell, nodes[k].x, nodes[k].y, nodes[k].group)
      {
        var d := nodes[i];
        drawnNodes := drawnNodes + [NewPosition(sqrt, mapping, cell, d.x, d.y, d.group)];
        i := i + 1;
      }
      drawnLinks := [];
      var j := 0;
      while j < |links|
        invariant 0 <= j <= |links| && |drawnLinks| == j
        invariant forall k :: 0 <= k < j ==>
          var s, t := drawnNodes[links[k].source], drawnNodes[links[k].target];
          drawnLinks[k] == Line(s.x, s.y, t.x, t.y)
      {
        var source, target := nodes[links[j].source], nodes[links[j].target];
        var sourcePosition := NewPosition(sqrt, mapping, cell, source.x, source.y, source.group);
        var targetPosition := NewPosition(sqrt, mapping, cell, target.x, target.y, target.group);
        drawnLinks := drawnLinks + [Line(sourcePosition.x, sourcePosition.y, targetPosition.x, targetPosition.y)];
        j := j + 1;
      }
    }
  }
}
