/** The endoplasmic reticulum close-up: its twenty sub-locations and the
    outline path each one is drawn on. */
module EndoplasmicReticulum {
  import opened Seqs
  import opened Data
  import opened Organelle

  /** The sub-locations laid out in the close-up, in drawing order. */
  const Parts: seq<string> := [
    "endoplasmic reticulum membrane",
    "endoplasmic reticulum lumen",
    "endoplasmic reticulum cisternal network",
    "endoplasmic reticulum quality control compartment",
    "cytoplasmic side of endoplasmic reticulum membrane",
    "extrinsic component of endoplasmic reticulum membrane",
    "integral component of cytoplasmic side of endoplasmic reticulum membrane",
    "integral component of endoplasmic reticulum membrane",
    "integral component of lumenal side of endoplasmic reticulum membrane",
    "intrinsic component of endoplasmic reticulum membrane",
    "lumenal side of endoplasmic reticulum membrane",
    "integral component of endoplasmic reticulum-Golgi intermediate compartment (ERGIC) membrane",
    "intrinsic component of endoplasmic reticulum-Golgi intermediate compartment (ERGIC) membrane",
    "host cell endoplasmic reticulum lumen",
    "rough endoplasmic reticulum lumen",
    "lumenal side of rough endoplasmic reticulum membrane",
    "cytoplasmic side of rough endoplasmic reticulum membrane",
    "smooth endoplasmic reticulum lumen",
    "cytoplasmic side of smooth endoplasmic reticulum membrane",
    "lumenal side of smooth endoplasmic reticulum membrane"
  ]

  const OuterMembrane := "Endoplasmic_outer_membrane"
  const InnerMembrane := "Endoplasmic_inner_membrane"
  const IntermembraneSpace := "Endoplasmic_intermembrane_space"

  /** The id of the path element for each sub-location. The first key is
      written twice; the literal keeps the later value. */
  const OrganelleMapping: ObjectLiteral := [
    ("endoplasmic reticulum membrane", OuterMembrane),
    ("endoplasmic reticulum membrane", InnerMembrane),
    ("endoplasmic reticulum lumen", IntermembraneSpace),
    ("endoplasmic reticulum cisternal network", OuterMembrane),
    ("endoplasmic reticulum quality control compartment", OuterMembrane),
    ("cytoplasmic side of endoplasmic reticulum membrane", OuterMembrane),
    ("extrinsic component of endoplasmic reticulum membrane", OuterMembrane),
    ("integral component of cytoplasmic side of endoplasmic reticulum membrane", OuterMembrane),
    ("integral component of endoplasmic reticulum membrane", OuterMembrane),
    ("integral component of lumenal side of endoplasmic reticulum membrane", OuterMembrane),
    ("intrinsic component of endoplasmic reticulum membrane", OuterMembrane),
    ("lumenal side of endoplasmic reticulum membrane", OuterMembrane),
    ("integral component of endoplasmic reticulum-Golgi intermediate compartment (ERGIC) membrane", OuterMembrane),
    ("intrinsic component of endoplasmic reticulum-Golgi intermediate compartment (ERGIC) membrane", OuterMembrane),
    ("host cell endoplasmic reticulum lumen", OuterMembrane),
    ("rough endoplasmic reticulum lumen", OuterMembrane),
    ("lumenal side of rough endoplasmic reticulum membrane", OuterMembrane),
    ("cytoplasmic side of rough endoplasmic reticulum membrane", OuterMembrane),
    ("smooth endoplasmic reticulum lumen", OuterMembrane),
    ("cytoplasmic side of smooth endoplasmic reticulum membrane", OuterMembrane),
    ("lumenal side of smooth endoplasmic reticulum membrane", OuterMembrane)
  ]

  /** Twenty sub-locations, each listed once. */
  lemma PartsDistinct()
    ensures |Parts| == 20 && NoDuplicates(Parts)
  {
  }

  /** Entry j + 1 of the mapping is for part j; the first key is also
      written once before. */
  lemma MappingEntries()
    ensures |OrganelleMapping| == |Parts| + 1
    ensures OrganelleMapping[0].0 == Parts[0]
    ensures forall j :: 0 <= j < |Parts| ==> OrganelleMapping[j + 1].0 == Parts[j]
    ensures OrganelleMapping[1].1 == InnerMembrane && OrganelleMapping[2].1 == IntermembraneSpace
    ensures forall j :: 3 <= j < |OrganelleMapping| ==> OrganelleMapping[j].1 == OuterMembrane
  {
  }

  /** Part i resolves to the value next to it, entry i + 1. */
  lemma PartResolves(i: nat)
    requires i < |Parts|
    ensures Lookup(OrganelleMapping, Parts[i]) == Some(OrganelleMapping[i + 1].1)
  {
    MappingEntries();
    PartsDistinct();
    forall j | i + 1 < j < |OrganelleMapping| ensures OrganelleMapping[j].0 != Parts[i] {
      assert OrganelleMapping[j].0 == Parts[j - 1];
    }
    LookupAt(OrganelleMapping, i + 1, Parts[i]);
  }

  /** Every sub-location has a path: the membrane resolves to the inner
      membrane (the later of its two entries), the lumen to the
      intermembrane space and every other part to the outer membrane. */
  lemma MappingResolves()
    ensures AllMapped(Parts, OrganelleMapping)
    ensures Lookup(OrganelleMapping, Parts[0]) == Some(InnerMembrane)
    ensures Lookup(OrganelleMapping, Parts[1]) == Some(IntermembraneSpace)
    ensures forall i :: 2 <= i < |Parts| ==> Lookup(OrganelleMapping, Parts[i]) == Some(OuterMembrane)
  {
    MappingEntries();
    forall i | 0 <= i < |Parts| ensures Lookup(OrganelleMapping, Parts[i]) == Some(OrganelleMapping[i + 1].1) {
      PartResolves(i);
    }
  }

  /** The close-up of the endoplasmic reticulum. */
  method InitEndoplasmicReticulum(nodes: seq<GraphNode>, links: seq<GraphLink>,
                                  totalLength: string -> real, pointAt: string -> real -> Point)
    returns (newPoints: seq<GraphNode>, nodesInOrganelle: seq<GraphNode>,
             linksInOrganelle: seq<GraphLink>, edges: seq<Line>)
    ensures nodesInOrganelle == Grouped(Parts, nodes)
    ensures AllMapped(Parts, OrganelleMapping)
    ensures newPoints == Placed(Parts, OrganelleMapping, nodes, totalLength, pointAt)
    ensures linksInOrganelle == LinksInOrganelle(links, nodesInOrganelle)
    ensures |edges| == |linksInOrganelle|
    ensures forall i :: 0 <= i < |edges| ==> EdgeLine(newPoints, linksInOrganelle[i]) == Some(edges[i])
  {
    MappingResolves();
    newPoints, nodesInOrganelle, linksInOrganelle, edges :=
      InitOrganelle(Parts, OrganelleMapping, nodes, links, totalLength, pointAt);
  }
}
