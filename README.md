# cell-visualizer, modelled in Dafny

cell-visualizer is a React and d3 application that draws an uploaded
graph of molecules (nodes with a group, a location and a type, and the
links between them) inside a diagram of a cell. The model covers the
computations the application makes on that graph. All numbers are reals;
rounding is ignored.

- **Containment geometry** (`CellGeometry`, `CellVisualizer`):
  - the distance helper, and the rule that keeps a node inside a disc or
    annulus while pushing it out of the first exclusion it lies in;
  - the rule that keeps a node outside the cell;
  - the per-node dispatch on the node's group mapping;
  - the building of the cell component table from the diagram's
    attributes;
  - the drag pin of a node.
- **Legend statistics** (`ColorSchemeSelector`):
  - node degrees and degree-range buckets;
  - the shares of each location or type;
  - palette assignment, the connectivity shades and pathway colouring.
- **Stacked bar** (`PercentageChart`): an in-place descending sort of the
  slices, then the prefix-sum coordinates of each segment.
- **Application tables** (`App`): the group mapping, the per-group shares,
  and the case-insensitive search box.
- **Organelle close-ups** (`Organelle`, `EndoplasmicReticulum`,
  `Mitochondria`):
  - grouping the nodes by sub-location;
  - evenly spaced sampling along each outline path;
  - the same-location link filter and the edge end points;
  - the sub-location to path tables and the tooltip width.
- **Shared modules**: `Seqs` holds the JavaScript array idioms the code
  uses (`find`, `findIndex`, filter-count, sum-reduce, push-if-absent).
  `JsString` holds the string methods (`indexOf`, `replace` with a string
  pattern, `split` on one character, ASCII `toUpperCase`). `Data` holds
  the graph records.

`Math.sqrt` is a parameter of which only `IsSqrt` is known. The SVG path
methods `getTotalLength` and `getPointAtLength` are parameters too, as is
unary `+` on attribute strings. Where the code would compute NaN or throw a
TypeError, the model either returns `None` or has a precondition that
excludes exactly those inputs.

Two places where the code does not do what its own comments and
structure say; the model follows the code:
- The comment "Do not let the node out of the viewport" at
  src/CellVisualizer.js:54 announces a clamp into the 800 by 800 viewport.
  The code never caps x, because `let w,h = 800` leaves `w` undefined, and
  it throws below padding, because `(xt = padding)` assigns an undeclared
  variable in an ES module, which is strict code.
- The widening `rp.max + 1` at src/ColorSchemeSelector.js:199 is there so
  that the largest degree falls in the last bucket. It can still miss it,
  and equal degrees never end the loop (see Findings).

## Model

| member | source | states |
|---|---|---|
| CellGeometry.Put | src/CellVisualizer.js:127-132 | storing under a name sets that name's entry, leaves every other entry alone and keeps the table well formed; the keys stay in insertion order, a new name appended, a known name keeping its place |
| CellGeometry.DistanceIsRoot | src/CellVisualizer.js:10-11 | the distance is non-negative, its square is the squared Euclidean distance, and a point is at distance 0 from itself |
| CellGeometry.ProjectionDistance | src/CellVisualizer.js:17-35 | scaling a point's offset from a centre by target / R, where R is its distance, puts it at exactly distance target |
| CellGeometry.RadialMove | src/CellVisualizer.js:17-35 | the moved point lies on the ray from the centre through the original point, at the target distance |
| CellGeometry.ConstraintInsideCell | src/CellVisualizer.js:14-41 | the early-return loop over the exclusions returns what the recursive reference definition InsidePosition gives |
| CellGeometry.InsideOuterClamp | src/CellVisualizer.js:17-21 | a point beyond rmax - padding is moved along its ray to exactly rmax - padding |
| CellGeometry.InsideInnerClamp | src/CellVisualizer.js:22-26 | a point within the outer bound but nearer than rmin + padding is moved along its ray to exactly rmin + padding |
| CellGeometry.FirstExclusionWins | src/CellVisualizer.js:27-38 | inside the annulus, the first exclusion whose padded disc holds the point moves it along the ray from that exclusion's centre to exactly rmax + padding |
| CellGeometry.FirstExclusionDecides | src/CellVisualizer.js:28-37 | the first exclusion hit alone decides the result, whatever the later ones are |
| CellGeometry.HitFirstExclusion | src/CellVisualizer.js:29-36 | when the first exclusion is hit, the point is scaled out of it |
| CellGeometry.SkipClearedExclusions | src/CellVisualizer.js:28-38 | exclusions the point is clear of are passed over |
| CellGeometry.NoExclusionKeepsPoint | src/CellVisualizer.js:28-40 | clear of every exclusion, the point is returned unchanged |
| CellGeometry.InsideContained | src/CellVisualizer.js:14-41 | without exclusions, in a component with rmax - rmin >= 2 * padding, the result lies in the padded annulus |
| CellGeometry.InsideIdempotent | src/CellVisualizer.js:14-41 | without exclusions, correcting an already corrected point changes nothing |
| CellGeometry.OutsidePushOut | src/CellVisualizer.js:44-53 | the border is the cell wall if present, else the plasma membrane; a point within its rmax + padding is pushed along its ray to exactly that distance |
| CellGeometry.OutsideViewportFallback | src/CellVisualizer.js:54-59 | away from the border, with both coordinates at least padding, x is returned unchanged (never capped, because `w` is undefined) and y is kept or capped at 800 - padding |
| CellGeometry.OutsideLowSideThrows | src/CellVisualizer.js:54-59 | away from the border the rule is defined exactly when x and y are both at least padding; below padding the module-scope assignment to an undeclared variable throws |
| CellVisualizer.ParseTranslateValues | src/CellVisualizer.js:83-89 | there is always at least one value |
| CellVisualizer.TranslateArgumentsOf | src/CellVisualizer.js:84-86 | removing "translate(" and the first ")" from "translate(u)" leaves u |
| CellVisualizer.ParseTranslatePair | src/CellVisualizer.js:83-89 | "translate(a,b)" parses to the two numbers of a and b |
| CellVisualizer.ComponentNameStrip | src/CellVisualizer.js:115 | only the first "_group" of an id is removed |
| CellVisualizer.StoreOther | src/CellVisualizer.js:127-132 | a name no group carries keeps the entry it had |
| CellVisualizer.StoreLast | src/CellVisualizer.js:127-132 | a name's entry comes from the last group carrying it |
| CellVisualizer.StoreValid | src/CellVisualizer.js:127-132 | storing keeps the table well formed |
| CellVisualizer.StoreKeys | src/CellVisualizer.js:127-132 | the keys after storing are the old keys followed by the stored names, each name once, at its first appearance |
| CellVisualizer.CellStructureEntry | src/CellVisualizer.js:99-139 | each component is centred at its circle's centre plus the group offset and the whole diagram's offset; rmax is the circle's radius; rmin is 0, except for the plasma membrane, whose rmin is the cytoplasm's rmax + 0.6 * padding; lines 137-139 change nothing |
| CellVisualizer.CellStructureOther | src/CellVisualizer.js:106-136 | names no group carries, other than the plasma membrane, are untouched |
| CellVisualizer.CellStructureKeys | src/CellVisualizer.js:99-139 | the table's keys are its old keys followed by the component names of the groups in document order, each once |
| CellVisualizer.ExclusionKeys | src/CellVisualizer.js:213-216 | the exclusion keys are keys of the table and none is a boundary |
| CellVisualizer.ExclusionKeysMembers | src/CellVisualizer.js:213-216 | exactly the keys other than plasma_membrane, cytoplasm and cell_wall are exclusions |
| CellVisualizer.ExclusionKeysDistinct | src/CellVisualizer.js:213-216 | no exclusion is listed twice |
| CellVisualizer.ExclusionKeysOrder | src/CellVisualizer.js:213-216 | the exclusions keep the key order |
| CellVisualizer.UnmappedNodeKept | src/CellVisualizer.js:207-225 | a node whose group has no mapping entry keeps its raw position |
| CellVisualizer.ComponentNodeContained | src/CellVisualizer.js:221-222 | a node mapped to an ordinary component ends up in that component's padded annulus, with no exclusions, and a second correction leaves it there |
| CellVisualizer.CytoplasmNodeExcluded | src/CellVisualizer.js:212-218 | a cytoplasm node is pushed out of the first exclusion holding it, to exactly rmax + padding from its centre |
| CellVisualizer.ExtracellularNodePushedOut | src/CellVisualizer.js:219-220 | an extracellular node near the border is pushed out to rmax + padding |
| CellVisualizer.DragStarted | src/CellVisualizer.js:248-252 | the alpha target becomes 0.3 and the timer restarts only when no other drag is active; the node is pinned at its current position |
| CellVisualizer.Dragged | src/CellVisualizer.js:254-257 | the pin follows the pointer; x and y are untouched |
| CellVisualizer.DragEnded | src/CellVisualizer.js:259-263 | the alpha target becomes 0 only when no other drag is active; the pin is released |
| CellVisualizer.CellVisualizerComponent.InitCellStructure | src/CellVisualizer.js:91-139 | after the loop and the plasma-membrane update the table is CellStructure of the old one, and it stays well formed |
| CellVisualizer.CellVisualizerComponent.OnTick | src/CellVisualizer.js:205-245 | every node is drawn at its corrected position, and every link between the corrected positions of its two ends; node x and y are not written |
| Data.MappingIndex | src/CellVisualizer.js:208 | the first mapping entry of the group, or -1 exactly when there is none |
| Data.NodeIndex | src/index.js:103 | the first node with the id, or -1 exactly when there is none |
| Seqs.FindIndex | src/ColorSchemeSelector.js:47 | the first index holding the element, or -1 exactly when it is absent |
| Seqs.DistinctProperties | src/ColorSchemeSelector.js:160-163 | push-if-absent keeps exactly the elements, each once |
| Seqs.DistinctOrder | src/ColorSchemeSelector.js:160-163 | push-if-absent lists the elements in order of first occurrence |
| Seqs.SumCountsOfDistinct | src/ColorSchemeSelector.js:160-170 | the counts of the distinct elements add up to the length |
| JsString.IndexOfFirst | src/index.js:107-109 | indexOf finds the first occurrence, and gives -1 exactly when there is none |
| JsString.ReplaceFirstAt | src/CellVisualizer.js:84-86 | a string-pattern replace changes only the first occurrence |
| JsString.UpperIdempotent | src/index.js:106-109 | upper-casing an upper-cased string changes nothing, so the search box may upper-case either side again |
| JsString.SplitJoin | src/CellVisualizer.js:87 | joining the pieces of a split with the separator gives back the string |
| JsString.SplitCount | src/CellVisualizer.js:87 | there is one more piece than there are separators |
| JsString.SplitPiecesFree | src/CellVisualizer.js:87 | no piece contains the separator |
| ColorSchemeSelector.ConnectedNodes | src/ColorSchemeSelector.js:41-45 | two ids per link |
| ColorSchemeSelector.ConnectedNodesAt | src/ColorSchemeSelector.js:41-45 | link i contributes its source at 2i and its target at 2i + 1 |
| ColorSchemeSelector.ConnectedNodesCount | src/ColorSchemeSelector.js:41-48 | an id occurs once per link end it sits at |
| ColorSchemeSelector.ConnectionsUpToKeys | src/ColorSchemeSelector.js:46-50 | the table's keys are the distinct nodes in order of first occurrence |
| ColorSchemeSelector.ConnectionsUpToDegree | src/ColorSchemeSelector.js:46-50 | a node is stored exactly once it has been met, with its number of occurrences in the whole list |
| ColorSchemeSelector.ConnectionsByNodeContents | src/ColorSchemeSelector.js:46-50 | keys, membership and degree of the whole table |
| ColorSchemeSelector.DegreesAreEndpointCounts | src/ColorSchemeSelector.js:41-50 | each id at a link end has exactly one entry, whose value is its number of link ends; no other id has one |
| ColorSchemeSelector.DegreesSumToTwiceLinks | src/ColorSchemeSelector.js:41-52 | the degrees add up to twice the number of links |
| ColorSchemeSelector.MinOf | src/ColorSchemeSelector.js:179 | the smallest of the values |
| ColorSchemeSelector.MaxOf | src/ColorSchemeSelector.js:180 | the largest of the values |
| ColorSchemeSelector.Step | src/ColorSchemeSelector.js:181-189 | the step is the range below 3, ceil(range / 2) below 10 and ceil(range / 5) from 10 on; for a range of at least 1 it lies in [1, range] |
| ColorSchemeSelector.ZeroRangeDoesNotEnd | src/ColorSchemeSelector.js:181-191 | for all-equal values the step is 0 and the loop guard stays true, so the loop never ends |
| ColorSchemeSelector.PushedChain | src/ColorSchemeSelector.js:191-197 | the pushed buckets are one step wide and consecutive; they start at the first bound, and the last ends at or before the maximum, with one more step passing it |
| ColorSchemeSelector.PushedStepped | src/ColorSchemeSelector.js:191-197 | each bucket is one step wide and starts where the previous one ends |
| ColorSchemeSelector.PushedBounds | src/ColorSchemeSelector.js:191-197 | no bucket is pushed exactly when one step passes the maximum; the first starts at the start, and the last ends within one step below the maximum |
| ColorSchemeSelector.PushedLegend | src/ColorSchemeSelector.js:195 | each label is `${i}-${i + step + 1} caption` of its own start |
| ColorSchemeSelector.PushedStart | src/ColorSchemeSelector.js:191-196 | bucket k starts k steps after the first |
| ColorSchemeSelector.PushedLength | src/ColorSchemeSelector.js:191 | n buckets fit between the bounds and n + 1 do not |
| ColorSchemeSelector.PushedCount | src/ColorSchemeSelector.js:181-197 | for a range of at least 1 there are one to five buckets |
| ColorSchemeSelector.PushBuckets | src/ColorSchemeSelector.js:191-197 | the for loop pushes exactly the buckets of Pushed |
| ColorSchemeSelector.CalculateRelativePercentagesForRange | src/ColorSchemeSelector.js:177-206 | the method returns RangeShares, about which the lemmas below are proved |
| ColorSchemeSelector.ValueBuckets | src/ColorSchemeSelector.js:198-205 | the map widens the last bucket by one and values every bucket by its contents |
| ColorSchemeSelector.FinishValued | src/ColorSchemeSelector.js:200-203 | every bucket's value is the sum of the values inside it over the sum of all values |
| ColorSchemeSelector.FinishElements | src/ColorSchemeSelector.js:198-199 | bounds and labels are kept, except that the last bucket takes the widened bound |
| ColorSchemeSelector.FinishConsecutive | src/ColorSchemeSelector.js:191-199 | consecutive pushed buckets stay consecutive once the last one is widened |
| ColorSchemeSelector.RangeSharesUnfold | src/ColorSchemeSelector.js:177-206 | for non-empty values that are not all equal, the step is positive, min < max, and the sum is positive |
| ColorSchemeSelector.RangeSharesCount | src/ColorSchemeSelector.js:181-197 | there are one to five buckets |
| ColorSchemeSelector.RangeSharesStarts | src/ColorSchemeSelector.js:191-196 | bucket k starts at min + k * step |
| ColorSchemeSelector.RangeSharesLegends | src/ColorSchemeSelector.js:195 | each bucket is labelled from its start, one step and the caption |
| ColorSchemeSelector.RangeSharesConsecutive | src/ColorSchemeSelector.js:191-199 | the buckets are consecutive half-open intervals, each one step wide except the last |
| ColorSchemeSelector.RangeSharesLastWidth | src/ColorSchemeSelector.js:199 | the last bucket is one step and one wide |
| ColorSchemeSelector.RangeSharesValued | src/ColorSchemeSelector.js:200-203 | each bucket's value is the sum of the values inside it over the total |
| ColorSchemeSelector.ConsecutiveOrdered | src/ColorSchemeSelector.js:191-199 | an earlier bucket ends before a later one starts |
| ColorSchemeSelector.AtMostOneBucket | src/ColorSchemeSelector.js:58-60 | at most one bucket contains a degree, so `find` has a single candidate |
| ColorSchemeSelector.ConsecutiveCovers | src/ColorSchemeSelector.js:191-199 | consecutive buckets cover everything from the first bound to the last |
| ColorSchemeSelector.SharesTelescope | src/ColorSchemeSelector.js:198-205 | the values of consecutive buckets add up to the share of everything between the first and last bound |
| ColorSchemeSelector.ConsecutiveSharesAtMostOne | src/ColorSchemeSelector.js:198-205 | consecutive valued buckets share out at most all of the values |
| ColorSchemeSelector.RangeSharesAtMostOne | src/ColorSchemeSelector.js:177-206 | the bucket values add up to at most 1 |
| ColorSchemeSelector.PushedEnd | src/ColorSchemeSelector.js:191-197 | the last pushed bucket ends n steps after the first bound |
| ColorSchemeSelector.ConsecutiveContainsIff | src/ColorSchemeSelector.js:58-60 | a degree at or above the first bound is in some bucket exactly when it lies below the last bound |
| ColorSchemeSelector.RangeSharesLastEnd | src/ColorSchemeSelector.js:191-199 | the last bucket ends one past min + n * step, where n whole steps reach no further than the maximum |
| ColorSchemeSelector.ConsecutiveContainsStepped | src/ColorSchemeSelector.js:191-199 | the maximum is in a bucket exactly when the range is a whole number of steps |
| ColorSchemeSelector.RangeSharesCoverMax | src/ColorSchemeSelector.js:177-206 | as written, the largest value is in a bucket exactly when (max - min) % step == 0 |
| ColorSchemeSelector.RangeSharesMissMaxExample | src/ColorSchemeSelector.js:181-199 | the degrees [4, 1, 1, 1, 1] of a star with four links give the single bucket [1, 4), which does not contain 4 |
| ColorSchemeSelector.CoveringSharesUnfold | src/ColorSchemeSelector.js:198-199 | the corrected bucketing ends its last bucket one past the maximum |
| ColorSchemeSelector.CoveringSharesBounds | src/ColorSchemeSelector.js:191-199 | the corrected buckets run from the minimum to one past the maximum |
| ColorSchemeSelector.CoveringSharesShape | src/ColorSchemeSelector.js:191-205 | the corrected buckets are consecutive and valued by their contents |
| ColorSchemeSelector.CoveringSharesPartition | src/ColorSchemeSelector.js:191-205 | every value lies in exactly one corrected bucket, for equal values too |
| ColorSchemeSelector.ConsecutiveSharesAll | src/ColorSchemeSelector.js:198-205 | buckets spanning every value share out all of them |
| ColorSchemeSelector.CoveringSharesSumToOne | src/ColorSchemeSelector.js:177-206 | the corrected bucket values add up to exactly 1 |
| ColorSchemeSelector.CoveringSharesEqualDegrees | src/ColorSchemeSelector.js:181-191 | with all degrees equal to v, the corrected bucketing is the single bucket [v, v + 1), which holds every value and has the share 1 |
| ColorSchemeSelector.DegreeValuesPositive | src/ColorSchemeSelector.js:40-52 | every degree is at least 1, so the corrected bucketing is defined for the degrees of any link list |
| ColorSchemeSelector.InsertByMinDesc | src/ColorSchemeSelector.js:148 | inserting grows the list by one |
| ColorSchemeSelector.InsertByMinDescPerm | src/ColorSchemeSelector.js:148 | insertion adds exactly that bucket |
| ColorSchemeSelector.InsertByMinDescSorted | src/ColorSchemeSelector.js:148 | insertion keeps the descending order by min |
| ColorSchemeSelector.SortByMinDescSpec | src/ColorSchemeSelector.js:148 | the sorted copy is a permutation of the input, ordered by min descending |
| ColorSchemeSelector.SortIncreasingReverses | src/ColorSchemeSelector.js:148 | buckets with increasing starts, as the bucketing makes them, come out reversed |
| ColorSchemeSelector.MonochromaticColorsSpec | src/ColorSchemeSelector.js:147-157 | every bucket appears once, ordered by min descending; the k-th is lightened k + 1 times, so higher degrees are darker |
| ColorSchemeSelector.FindShade | src/ColorSchemeSelector.js:58-60 | the shade of the first bucket holding the degree, or None exactly when none holds it |
| ColorSchemeSelector.ConnectivityColorSome | src/ColorSchemeSelector.js:56-61 | a node gets a colour exactly when it has a degree and some bucket holds that degree |
| ColorSchemeSelector.DegreeOf | src/ColorSchemeSelector.js:41-52 | a node at a link end has a degree, which is among the bucketed values |
| ColorSchemeSelector.ConnectivityColorAsWritten | src/ColorSchemeSelector.js:51-61 | as written, a linked node gets a colour exactly when a bucket holds its degree |
| ColorSchemeSelector.MostConnectedColor | src/ColorSchemeSelector.js:51-61 | as written, the selector throws for a node of the largest degree unless the range is a whole number of steps |
| ColorSchemeSelector.ConnectivityColorCovered | src/ColorSchemeSelector.js:51-61 | with the corrected buckets, every linked node gets a colour, also when all degrees are equal |
| ColorSchemeSelector.CountStep | src/ColorSchemeSelector.js:160-170 | one step of the reduce keeps every entry's count equal to the occurrences so far |
| ColorSchemeSelector.CalculateRelativePercentages | src/ColorSchemeSelector.js:159-175 | the counting loop gives RelativeShares of the attribute values |
| ColorSchemeSelector.RelativeShares | src/ColorSchemeSelector.js:159-175 | one entry per distinct value |
| ColorSchemeSelector.ShareListSum | src/ColorSchemeSelector.js:171-174 | the shares add up to the sum of the counts over the number of nodes |
| ColorSchemeSelector.RelativeSharesSpec | src/ColorSchemeSelector.js:159-175 | each value has exactly one entry, in first-occurrence order, and for a non-empty node list the shares add up to 1 |
| ColorSchemeSelector.Relabel | src/ColorSchemeSelector.js:121-126 | the entry labelled "" becomes "Unlocalized"; other entries and all values are unchanged |
| ColorSchemeSelector.AssignColors | src/ColorSchemeSelector.js:139-145 | labels and values are kept |
| ColorSchemeSelector.AssignColorsSpec | src/ColorSchemeSelector.js:139-145 | equal labels share a colour; with distinct labels, entry k gets palette colour k |
| ColorSchemeSelector.FindEntry | src/ColorSchemeSelector.js:131-132 | an entry with that label, or None exactly when there is none |
| ColorSchemeSelector.ColorSchemeByDiscreteAttribute | src/ColorSchemeSelector.js:118-137 | the scheme is the relabelled shares, coloured |
| ColorSchemeSelector.SelectRelabelled | src/ColorSchemeSelector.js:121-134 | a value with an entry finds its own entry, or the "Unlocalized" one for "" |
| ColorSchemeSelector.DiscreteSelectorFindsEntry | src/ColorSchemeSelector.js:118-136 | every node finds an entry: that of its value, or "Unlocalized" when the value is empty |
| ColorSchemeSelector.PathwaysMembers | src/ColorSchemeSelector.js:64-66 | the pathways are exactly the node ids containing "Mme" |
| ColorSchemeSelector.FarEnds | src/ColorSchemeSelector.js:68-77 | at most one far end per link |
| ColorSchemeSelector.FarEndsMembers | src/ColorSchemeSelector.js:68-77 | the far ends are the non-empty ids at the other end of a link at the pathway |
| ColorSchemeSelector.PathwayTableSpec | src/ColorSchemeSelector.js:67-82 | keys are the distinct pathways in first-occurrence order, each holding its far ends |
| ColorSchemeSelector.PathwayShareListSum | src/ColorSchemeSelector.js:83-93 | the key shares add up to the total far ends over the link count |
| ColorSchemeSelector.PathwaySharesSplit | src/ColorSchemeSelector.js:83-99 | the total is the key shares plus the "No pathway" share |
| ColorSchemeSelector.PathwaySharesSumToOne | src/ColorSchemeSelector.js:83-99 | the pathway shares and the "No pathway" share add up to 1 when there are links |
| ColorSchemeSelector.LastMatch | src/ColorSchemeSelector.js:104-109 | the last key that is the id or lists it, or None exactly when none does |
| ColorSchemeSelector.PathwayColor | src/ColorSchemeSelector.js:102-113 | the forEach loop gives PathwayColorOf: the last match's colour, or "No pathway"'s |
| ColorSchemeSelector.NoPathwayIsNoPathwayId | src/ColorSchemeSelector.js:64-66 | "No pathway" contains no "Mme", so it never clashes with a key |
| ColorSchemeSelector.PathwayTableKeys | src/ColorSchemeSelector.js:64-82 | the table lists each pathway once, and none is "No pathway" |
| ColorSchemeSelector.FindEntryUnique | src/ColorSchemeSelector.js:106 | an entry whose label is unique is the one found for it |
| ColorSchemeSelector.PathwayShareLabels | src/ColorSchemeSelector.js:87-99 | the labels are the keys, then "No pathway" |
| ColorSchemeSelector.PathwaySchemeColors | src/ColorSchemeSelector.js:87-100 | key k gets palette colour k and "No pathway" the next one |
| ColorSchemeSelector.PathwayNodeColor | src/ColorSchemeSelector.js:102-113 | a node gets the palette colour of the last matching pathway, else the "No pathway" colour |
| PercentageChart.Coordinates | src/PercentageChart.js:25-33 | only x1 and x2 of each entry change |
| PercentageChart.InsertDesc | src/PercentageChart.js:24 | after one insertion the prefix is in descending order, the array is a permutation of the old one, and the suffix is unchanged |
| PercentageChart.SortByValueDesc | src/PercentageChart.js:24 | the array is sorted in place by value, descending, and is a permutation of the old one |
| PercentageChart.AssignCoordinates | src/PercentageChart.js:25-33 | the map writes onto the array exactly the Coordinates of the old contents |
| PercentageChart.LeftEdgeSameValues | src/PercentageChart.js:26-30 | x1 depends only on the values before the entry |
| PercentageChart.CalculateCoordinates | src/PercentageChart.js:22-34 | the array ends up as Coordinates of a sorted permutation of its old contents, and that array is returned |
| PercentageChart.CoordinatesStartAtZero | src/PercentageChart.js:26-30 | the first x1 is 0 |
| PercentageChart.LeftEdgeNext | src/PercentageChart.js:26-30 | each left edge is the previous one plus the previous value times the width |
| PercentageChart.CoordinatesAdjacent | src/PercentageChart.js:26-31 | x2 of entry i is x1 of entry i + 1 |
| PercentageChart.CoordinatesWidth | src/PercentageChart.js:31 | x2 - x1 is the value times the width |
| PercentageChart.CoordinatesEnd | src/PercentageChart.js:8-31 | the last x2 is the width times the sum of the values, so 600 when they sum to 1 |
| PercentageChart.CoordinatesOfValues | src/PercentageChart.js:25-33 | the coordinates depend on the values alone |
| PercentageChart.CoordinatesIdempotent | src/PercentageChart.js:22-34 | computing the coordinates again changes nothing |
| PercentageChart.MultisetValues | src/PercentageChart.js:24 | permuted entries have permuted values |
| PercentageChart.SortedUnique | src/PercentageChart.js:24 | two descending arrangements of the same values are equal |
| PercentageChart.RerunSameSegments | src/PercentageChart.js:14-54 | re-running on its own output, in any order the sort may give, yields the same values and segments by position |
| App.GroupMappingIndexed | src/index.js:15-27 | there are 11 entries, and entry i is group i |
| App.GroupMappingGroups | src/index.js:15-27 | the groups 0 to 10 are distinct; find gives entry g for each of them and undefined for any other group |
| App.GroupMappingComponents | src/index.js:15-27 | groups 4 to 10 map to the cytoplasm, and groups 0 to 3 to four other, distinct components |
| App.NodesInGroup | src/index.js:54 | the group count is at most the node count |
| App.SliceShare | src/index.js:53-55 | each slice's value lies in [0, 1] |
| App.SlicesPrefixSum | src/index.js:51-58 | for a mapping whose entry i is group i, the first k slices add up to the share of groups 0 to k - 1 |
| App.SlicesFullSum | src/index.js:51-58 | all the slices add up to the share of nodes with a mapped group |
| App.SlicesSum | src/index.js:51-58 | the same for the fixed group mapping |
| App.SlicesSumAtMostOne | src/index.js:15-58 | the slices add up to at most 1, and to exactly 1 iff every node's group is in 0 to 10 |
| App.FilterOptionSpec | src/index.js:106-110 | the filter is a substring test on upper-cased texts: it ignores the case of either text, and the empty input matches every option |
| App.FilterOptionFindsSubstring | src/index.js:106-110 | text found verbatim is matched |
| App.OnSelectSpec | src/index.js:101-105 | the selected node is the first with the id, or undefined exactly when no node has it |
| App.SelectOffered | src/index.js:97-105 | selecting any offered option finds its node |
| Organelle.Lookup | src/EndoplasmicReticulum.js:127-159 | the value of the last entry with the key, or None exactly when no entry has it |
| Organelle.LookupAt | src/EndoplasmicReticulum.js:127-149 | an entry with no later duplicate of its key is the one found |
| Organelle.Place | src/EndoplasmicReticulum.js:27-31 | the spread comes last, so a component's own x and y override the sampled ones; other fields are the component's |
| Organelle.PointsOnPath | src/EndoplasmicReticulum.js:20-36 | one point per component |
| Organelle.GetPointsOnPath | src/EndoplasmicReticulum.js:20-36 | the loop builds exactly PointsOnPath; src/Mitochondria.js:20-36 is the same code in the mitochondrion close-up |
| Organelle.ArcLengthsEvenlySpaced | src/EndoplasmicReticulum.js:26 | the arc lengths L * i / n start at 0, are spaced L / n apart, and stay in [0, L) |
| Organelle.PointsOnPathSpec | src/EndoplasmicReticulum.js:20-36 | point i is component i sampled at arc length L * i / n, unless it has its own position |
| Organelle.NodesAt | src/EndoplasmicReticulum.js:154-156 | every kept node is at the part |
| Organelle.NodesAtMembers | src/EndoplasmicReticulum.js:154-156 | exactly the nodes at the part are kept |
| Organelle.PlaceParts | src/EndoplasmicReticulum.js:153-164 | the loop over the parts builds exactly Placed and Grouped; src/Mitochondria.js:120-130 is the same code in the mitochondrion close-up |
| Organelle.GroupedMembers | src/EndoplasmicReticulum.js:153-164 | the grouped nodes are exactly the nodes at one of the parts; the others are dropped |
| Organelle.GroupedInPartOrder | src/EndoplasmicReticulum.js:153-164 | the nodes come part by part, in parts order |
| Organelle.PlacedMatchesGrouped | src/EndoplasmicReticulum.js:153-164 | each placed node is its grouped node with a position filled in |
| Organelle.LinksInOrganelle | src/EndoplasmicReticulum.js:167-174 | a link is kept iff both its ends are grouped and at the same location; src/Mitochondria.js:133-140 is the same code in the mitochondrion close-up |
| Organelle.FindGrouped | src/EndoplasmicReticulum.js:168-169 | with unique ids, find among the grouped nodes gives the graph's node if its location is a part |
| Organelle.LinkKeptIff | src/EndoplasmicReticulum.js:167-174 | a link is kept exactly when its ends share a location that is one of the parts |
| Organelle.LinkDroppedWithoutEnds | src/EndoplasmicReticulum.js:167-174 | a link without a source node is dropped |
| Organelle.EdgesOfKeptLinks | src/EndoplasmicReticulum.js:189-198 | each kept link is drawn between the first placed nodes with its ends' ids, all positions defined |
| Organelle.KeptLinkDrawn | src/EndoplasmicReticulum.js:189-198 | every kept link gets a line |
| Organelle.DrawEdges | src/EndoplasmicReticulum.js:189-198 | one line per link, between the positions found |
| Organelle.InitOrganelle | src/EndoplasmicReticulum.js:97-198 | placed nodes, grouped nodes, kept links, and one line per kept link |
| Organelle.TooltipWidth | src/EndoplasmicReticulum.js:62-67 | the width is (len + 2), len or (len - 2) times 12 by length, always a positive multiple of 12; src/Mitochondria.js:62-67 is the same code in the mitochondrion close-up |
| Organelle.Tooltip | src/EndoplasmicReticulum.js:68-70 | the box is centred on the pointer's x |
| EndoplasmicReticulum.PartsDistinct | src/EndoplasmicReticulum.js:103-124 | twenty parts, each once |
| EndoplasmicReticulum.MappingEntries | src/EndoplasmicReticulum.js:127-149 | entry j + 1 is for part j; the membrane key is written twice |
| EndoplasmicReticulum.PartResolves | src/EndoplasmicReticulum.js:127-159 | part i resolves to entry i + 1's value |
| EndoplasmicReticulum.MappingResolves | src/EndoplasmicReticulum.js:127-159 | every part has a path; the membrane resolves to the later value "Endoplasmic_inner_membrane", the lumen to the intermembrane space, and the rest to the outer membrane |
| EndoplasmicReticulum.InitEndoplasmicReticulum | src/EndoplasmicReticulum.js:97-198 | the close-up's nodes, links and edges, as InitOrganelle states them |
| Mitochondria.PartsDistinct | src/Mitochondria.js:103-108 | four parts, each once |
| Mitochondria.MappingEntries | src/Mitochondria.js:111-116 | entry j is part j with its spaces replaced by underscores |
| Mitochondria.MappingResolves | src/Mitochondria.js:111-125 | every part resolves to its own name with underscores for spaces |
| Mitochondria.InitMitochondria | src/Mitochondria.js:97-164 | the close-up's nodes, links and edges, as InitOrganelle states them |

## Left out

- The d3 force simulation (forces, tick scheduling, alpha decay) is a foreign library doing floating-point physics. Only its positions, as read by `onTick`, and the alpha target set by dragging are modelled.
- DOM and SVG I/O are left out: `d3.xml`, `appendChild`, `getAttribute`, every `.attr`/`.append` call, the tooltip's rectangle and text elements, mouse events and `render`. Attribute values enter as parameters, and `getTotalLength`/`getPointAtLength` as functions.
- The `Color` library (`lighten`, `rgb`) is foreign. A connectivity shade is the number of times the base colour was lightened.
- `handleColorSchemeChange`'s LOCATION and TYPE cases only forward to `colorSchemeByDiscereteAttribute`, which is modelled. The `onColorSchemeChange` callback and `console.log` are I/O.
- The `colors` arrays of the organelle close-ups are never used, and `placeNodes` only draws.
- The upload form, the description panel, the schema wrapper and the build configuration are not part of this model.
- Floating-point rounding, NaN and Infinity are not modelled. Each crash or NaN case is a precondition stated exactly: a zero distance, an empty node list, no links, all-equal degrees, a missing component, or an assignment to an undeclared variable.
- CellGeometry.ConstraintOutsideCell: the ReferenceError that `(xt = padding)` and `(yt = padding)` throw is not a value of the model; OutsideDefined excludes exactly the points away from the border with x or y below padding.
- CellGeometry.DistanceIsRoot: the converse (distance 0 only for the same point) is not stated.
- CellVisualizer.ParseTranslateValues: states only that there is at least one value. ParseTranslatePair gives the values of a well-formed "translate(a,b)".
- CellVisualizer.CellStructureEntry: `Object.keys` puts integer-like keys first in numeric order, and the key order here is insertion order. The component names of the diagram are not integer-like.
- JsString.ToUpperCase: upper-cases the ASCII letters only; there is no Unicode case mapping.
- App.Slices: requires a non-empty node list; with none, the source divides 0 by 0 and every slice is NaN. `Object.assign` makes a copy, so the mapping itself is never changed; with values this holds by construction.
- App.FilterOptionSpec: ids are compared as strings; the loose `==` of the organelle filters is modelled as string equality too.
- ColorSchemeSelector.CalculateRelativePercentagesForRange: requires values that are not all equal. With all equal, the loop never ends (ZeroRangeDoesNotEnd).
- ColorSchemeSelector.PathwayShares: requires at least one link; with none, every share is NaN. The "No pathway" share can be negative when a link lies between two pathways, because it is then counted twice.
- ColorSchemeSelector.SortByMinDesc: the contract states order and permutation but not stability. The bucketing yields distinct starts, so stability does not matter there.
- PercentageChart.SortByValueDesc: the contract states order and permutation but not stability. The insertion sort is stable, as JavaScript's sort is.
- PercentageChart.CalculateCoordinates: entry objects are modelled as values in an array. Aliasing with the caller's objects and the objects' identity are not captured, and neither is the in-place update of the `rp` bucket objects in ColorSchemeSelector.
- ColorSchemeSelector.Degrees: prototype keys of the `connectionsByNode` object (such as "constructor") are not modelled. Ids are assumed to be ordinary keys.

## Findings

| source | as written | input that shows it | evidently intended | confidence | as-written member | corrected member |
|---|---|---|---|---|---|---|
| src/ColorSchemeSelector.js:191-199 | the buckets stop at the last whole step not past the maximum, and the last bound is widened by only one | a star, one node linked to four others, has the degrees [4, 1, 1, 1, 1]: step 2 gives the single bucket [1, 4), so the centre of degree 4 matches no bucket and `.color` of undefined throws | the last bucket reaches one past the maximum, so that every degree lies in exactly one bucket and the shares add up to 1 | not executed | ColorSchemeSelector.RangeSharesMissMaxExample | ColorSchemeSelector.CoveringSharesPartition |
| src/ColorSchemeSelector.js:181-191 | when all degrees are equal the range is 0, `step = range` makes the step 0, and `i = i + step` never moves `i` past the guard `i + step <= max` | a single link a to b gives the degrees [1, 1]: range 0, step 0, and the loop pushes buckets forever | equal degrees v form the single bucket [v, v + 1) holding every node | not executed | ColorSchemeSelector.ZeroRangeDoesNotEnd | ColorSchemeSelector.CoveringSharesEqualDegrees |
