/** The records the application passes between its components: the nodes
    and links of the uploaded graph and the entries of the group mapping. */
module Data {
  import opened Seqs

  /** A node of the uploaded graph. `x` and `y` are present once the force
      simulation has positioned the node object. */
  datatype GraphNode = GraphNode(
    id: string,
    name: string,
    group: int,
    location: string,
    nodeType: string,
    originalLocation: string,
    x: Option<real>,
    y: Option<real>)

  /** A link, by the ids of its end nodes (`link.source.id`, `link.target.id`). */
  datatype GraphLink = GraphLink(id: string, source: string, target: string)

  /** An entry of the group mapping: a node group, its fill colour and the
      cellular component its nodes are drawn in. */
  datatype GroupMappingEntry = GroupMappingEntry(group: int, color: string, component: string)

  /** The groups of the mapping entries, in order. */
  function Groups(mapping: seq<GroupMappingEntry>): (r: seq<int>)
    ensures |r| == |mapping| && forall i :: 0 <= i < |mapping| ==> r[i] == mapping[i].group
  {
    seq(|mapping|, i requires 0 <= i < |mapping| => mapping[i].group)
  }

  /** Index of the first entry of the mapping for a group, or -1:
      `findIndex` over the entries' groups. */
  function MappingIndex(mapping: seq<GroupMappingEntry>, group: int): (k: int)
    ensures -1 <= k < |mapping|
    ensures k == -1 <==> forall i :: 0 <= i < |mapping| ==> mapping[i].group != group
    ensures k != -1 ==> mapping[k].group == group && forall i :: 0 <= i < k ==> mapping[i].group != group
  {
    FindIndex(Groups(mapping), group)
  }

  /** `mapping.find(m => m.group === group)` */
  function FindMapping(mapping: seq<GroupMappingEntry>, group: int): Option<GroupMappingEntry>
  {
    var k := MappingIndex(mapping, group);
    if k == -1 then None else Some(mapping[k])
  }

  /** The ids of the nodes, in order. */
  function Ids(nodes: seq<GraphNode>): (r: seq<string>)
    ensures |r| == |nodes| && forall i :: 0 <= i < |nodes| ==> r[i] == nodes[i].id
  {
    seq(|nodes|, i requires 0 <= i < |nodes| => nodes[i].id)
  }

  /** Index of the first node with the given id, or -1: `findIndex` over
      the nodes' ids. */
  function NodeIndex(nodes: seq<GraphNode>, id: string): (k: int)
    ensures -1 <= k < |nodes|
    ensures k == -1 <==> forall i :: 0 <= i < |nodes| ==> nodes[i].id != id
    ensures k != -1 ==> nodes[k].id == id && forall i :: 0 <= i < k ==> nodes[i].id != id
  {
    FindIndex(Ids(nodes), id)
  }

  /** `nodes.find(n => n.id == id)` */
  function FindNode(nodes: seq<GraphNode>, id: string): Option<GraphNode>
  {
    var k := NodeIndex(nodes, id);
    if k == -1 then None else Some(nodes[k])
  }
}
