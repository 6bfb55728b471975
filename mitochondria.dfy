/** The mitochondrion close-up: four sub-locations, each drawn on the path
    whose id is its name with underscores for spaces. */
module Mitochondria {
  import opened Seqs
  import opened Data
  import opened JsString
  import opened Organelle

  /** The sub-locations laid out in the close-up, in drawing order. */
  const Parts: seq<string> := [
    "mitochondrial outer membrane",
    "mitochondrial intermembrane space",
    "mitochondrial inner membrane",
    "mitochondrial matrix"
  ]

  /** The id of the path element for each sub-location. */
  const OrganelleMapping: ObjectLiteral := [
    ("mitochondrial outer membrane", "mitochondrial_outer_membrane"),
    ("mitochondrial intermembrane space", "mitochondrial_intermembrane_space"),
    ("mitochondrial inner membrane", "mitochondrial_inner_membrane"),
    ("mitochondrial matrix", "mitochondrial_matrix")
  ]

  /** Four sub-locations, each listed once. */
  lemma PartsDistinct()
    ensures |Parts| == 4 && NoDuplicates(Parts)
  {
  }

  /** Entry j of the mapping is for part j, with the part's name with
      every space replaced by an underscore. */
  lemma MappingEntries()
    ensures |OrganelleMapping| == |Parts|
    ensures forall j :: 0 <= j < |Parts| ==> OrganelleMapping[j] == (Parts[j], ReplaceAllChar(Parts[j], ' ', '_'))
  {
    forall j | 0 <= j < |Parts|
      ensures OrganelleMapping[j].1 == ReplaceAllChar(Parts[j], ' ', '_')
    {
      var r := ReplaceAllChar(Parts[j], ' ', '_');
      assert |r| == |OrganelleMapping[j].1|;
      forall k | 0 <= k < |r| ensures r[k] == OrganelleMapping[j].1[k] {
      }
    }
  }

  /** Every sub-location resolves to its own name with underscores for
      spaces. */
  lemma MappingResolves()
    ensures AllMapped(Parts, OrganelleMapping)
    ensures forall i :: 0 <= i < |Parts| ==> Lookup(OrganelleMapping, Parts[i]) == Some(ReplaceAllChar(Parts[i], ' ', '_'))
  {
    MappingEntries();
    PartsDistinct();
    forall i | 0 <= i < |Parts| ensures Lookup(OrganelleMapping, Parts[i]) == Some(OrganelleMapping[i].1) {
      forall j | i < j < |OrganelleMapping| ensures OrganelleMapping[j].0 != Parts[i] {
        assert OrganelleMapping[j].0 == Parts[j];
      }
      LookupAt(OrganelleMapping, i, Parts[i]);
    }
  }

  /** The close-up of the mitochondrion. */
  method InitMitochondria(nodes: seq<GraphNode>, links: seq<GraphLink>,
                          totalLength: string -> real, pointAt: string -> real -> Point)
    returns (newPoints: seq<GraphNode>, nodesInOrganelle: seq<GraphNode>,
             linksInOrganelle: seq<GraphLink>, edges: seq<Line>)
    ensures nodesInOrganelle == Grouped(Parts, nodes)
    ensures AllMapped(Parts, OrganelleMapping)
    ensures newPoints == Placed(Parts, OrganelleMapping, nodes, totalLength, pointAt)
    ensures linksInOrganelle == LinksInOrganelle(links, nodesInOrganelle)
    ensures |edges| == |linksInOrganelle|
    ensures forall i :: 0 <= i < |edges| ==> EdgeLine(newPoints, linksInOrganelle[i]) == Some(edges[i])
  {
    MappingResolves();
    newPoints, nodesInOrganelle, linksInOrganelle, edges :=
      InitOrganelle(Parts, OrganelleMapping, nodes, links, totalLength, pointAt);
  }
}
