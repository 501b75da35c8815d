# Domain decomposition support and memory primitives of OpenFOAM

This project models, in Dafny, part of the OpenFOAM library:

- **decompositionMethod**, which splits a mesh across processors. Modelled here:
  - the checks on the number of weights per point;
  - the scaling of real weights to integers with zero weights pruned;
  - the global cell-to-cell graph of an agglomerated mesh, in both variants (ids only, and ids with face-area weights);
  - the decomposition of an agglomeration, with the result mapped back to the mesh cells;
  - the decomposition under constraints: unblocked faces, explicit connections and processor face sets;
  - the collection of constraints.
- **DynamicField**: a field with spare capacity and a growth policy.
- **tmp** and **tmpNrc**: handles that own a temporary object or refer to one they do not own. `tmp` counts references; `tmpNrc` does not.
- **RemoteData**: a value tagged with the processor and element it comes from, with the reduction operators that pick one of two tagged values.
- **LagrangianState**: the tracking states and groups of Lagrangian particles, and the conversions between them.

The decomposition code is modelled imperatively, as the source is written.

- Counting, filling and compacting the compact cell-to-cell lists are methods over arrays.
- Each method is proved against a specification function of the mesh: the neighbour row a coarse cell should get, built from its internal and coupled faces.
- Lemmas prove what that specification means. A row holds exactly the coarse cells linked to the cell through a face, except the cell itself, with no repeats, in the order of first appearance.
- `label` is taken as a 32-bit integer in LagrangianState, whose conversions accept any label. The offset arithmetic overflows at a few labels at the ends of the range, and the model gives those the two's-complement wrap (see "## Left out").
- Real-valued weights and areas are Dafny `real`s.

`DynamicField`, `tmp` and `tmpNrc` are classes whose fields the methods update. The `RemoteData` operators are functions on values. Classes apply each operator to a variable in place, as the `*EqOp` functors do.

Communication between processors is not modelled. What a reduction or a swap would bring from the other processors becomes an input:

- the maximum number of weights on other processors;
- the sum of each weight component on other processors, when the weights are distributed;
- the numbers of cell weights, face-set faces, explicit connections and unblocked faces on other processors;
- the global ids across coupled faces;
- the region split.

## Model

| member | source | states |
|---|---|---|
| Weights.NWeights | src/parallel/decompose/decompositionMethods/decompositionMethod/decompositionMethod.C:54-74 | fails exactly when this processor has weights and the maximum over the others exceeds its count; otherwise returns the larger of the two counts |
| Weights.CheckWeights | src/parallel/decompose/decompositionMethods/decompositionMethod/decompositionMethod.C:77-94 | fails exactly when the weight count fails or exceeds one; a successful count is at most one |
| Weights.NWeightsSingleProcess | src/parallel/decompose/decompositionMethods/decompositionMethod/decompositionMethod.C:60-73 | on one process the count is the local number of weights per point |
| Weights.CheckWeightsSingleProcess | src/parallel/decompose/decompositionMethods/decompositionMethod/decompositionMethod.C:77-94 | on one process the check passes exactly when there are no points or fewer than two weights per point |
| Weights.SumComponents | src/parallel/decompose/decompositionMethods/decompositionMethod/decompositionMethod.C:410-414 | entry k is the sum of every n-th weight starting at k |
| Weights.ReducedSums | src/parallel/decompose/decompositionMethods/decompositionMethod/decompositionMethod.C:409-419 | entry k is component k's local sum plus, when the weights are distributed, the other processes' sum of it |
| Weights.MarkNonZero | src/parallel/decompose/decompositionMethods/decompositionMethod/decompositionMethod.C:422-431 | flags exactly the non-zero sums and counts the flags |
| Weights.CompactInPlace | src/parallel/decompose/decompositionMethods/decompositionMethod/decompositionMethod.C:436-443 | the array prefix becomes the weights whose component is flagged, in their original order |
| Weights.KeptLength | src/parallel/decompose/decompositionMethods/decompositionMethod/decompositionMethod.C:446 | the new length is the number of kept components times the number of points |
| Weights.ScaleWeights | src/parallel/decompose/decompositionMethods/decompositionMethod/decompositionMethod.C:343-454 | with no weights the result is empty and the count unchanged; otherwise the result is the weights with the components removed whose sum is zero (over every process when distributed, locally otherwise), together with the number of components kept |
| Weights.KeptIndicesMembers | src/parallel/decompose/decompositionMethods/decompositionMethod/decompositionMethod.C:437-443 | an index is kept exactly when it is in range and its component is flagged |
| Weights.KeptIndicesAscending | src/parallel/decompose/decompositionMethods/decompositionMethod/decompositionMethod.C:437-443 | kept indices are strictly increasing, so the pruning keeps order |
| Weights.KeptIndicesBelow | src/parallel/decompose/decompositionMethods/decompositionMethod/decompositionMethod.C:437-443 | every kept index is below the input length |
| Weights.PrunedSelects | src/parallel/decompose/decompositionMethods/decompositionMethod/decompositionMethod.C:437-443 | the pruned weights are exactly the input weights at the kept indices |
| Weights.PrunedBlocks | src/parallel/decompose/decompositionMethods/decompositionMethod/decompositionMethod.C:437-446 | a prefix of the weights prunes to as many entries as whole points times kept components, plus the kept components of the last partial point |
| Weights.PrunedLength | src/parallel/decompose/decompositionMethods/decompositionMethod/decompositionMethod.C:437-446 | the pruned length in terms of whole points and the trailing partial point |
| Weights.PrunedCovers | src/parallel/decompose/decompositionMethods/decompositionMethod/decompositionMethod.C:446 | the compaction writes at least as many entries as the resize keeps |
| Weights.PrunedAllKept | src/parallel/decompose/decompositionMethods/decompositionMethod/decompositionMethod.C:434 | pruning with every component kept changes nothing |
| Weights.CountTrueAll | src/parallel/decompose/decompositionMethods/decompositionMethod/decompositionMethod.C:434 | every component is flagged exactly when the flag count equals the number of components |
| Weights.ScaledUnchanged | src/parallel/decompose/decompositionMethods/decompositionMethod/decompositionMethod.C:422-451 | weights and count are unchanged exactly when every component sum is non-zero; otherwise the new count is the number of components with a non-zero sum, which never exceeds the old |
| Weights.ScaledWholePoints | src/parallel/decompose/decompositionMethods/decompositionMethod/decompositionMethod.C:433-451 | for whole points, the result is the pruned weights and has the new count times the points as its length |
| Mesh.GlobalIndex.ToGlobal | src/parallel/decompose/decompositionMethods/decompositionMethod/decompositionMethod.C:499-502 | a local entity's global id is local to this process and maps back to the same entity |
| Mesh.GlobalIndex.ToLocal | src/parallel/decompose/decompositionMethods/decompositionMethod/decompositionMethod.C:543-547 | a global id is local exactly when its local index is in range |
| Mesh.GlobalIndex.SelfCouplingIsOwnId | src/parallel/decompose/decompositionMethods/decompositionMethod/decompositionMethod.C:543-547 | the self-coupling test fails exactly for the cell's own global id |
| FirstOccurrence.Kept | src/parallel/decompose/decompositionMethods/decompositionMethod/decompositionMethod.C:632-637 | kept positions are within the scanned prefix |
| FirstOccurrence.KeptFirstOccurrences | src/parallel/decompose/decompositionMethods/decompositionMethod/decompositionMethod.C:632-637 | kept positions increase; each holds a value not in the seed set and not seen earlier |
| FirstOccurrence.KeptCovers | src/parallel/decompose/decompositionMethods/decompositionMethod/decompositionMethod.C:632-637 | a value is kept exactly when it occurs in the scanned prefix and is not in the seed set |
| FirstOccurrence.DedupDistinct | src/parallel/decompose/decompositionMethods/decompositionMethod/decompositionMethod.C:627-637 | a compacted row has no repeats and does not contain the cell itself |
| FirstOccurrence.DedupElements | src/parallel/decompose/decompositionMethods/decompositionMethod/decompositionMethod.C:627-637 | a compacted row holds exactly the row's values other than the seed |
| FirstOccurrence.DedupKeepsFirstOccurrenceOrder | src/parallel/decompose/decompositionMethods/decompositionMethod/decompositionMethod.C:632-637 | the compacted row keeps each value at its first occurrence, in order |
| FirstOccurrence.KeptAllWhenDistinct | src/parallel/decompose/decompositionMethods/decompositionMethod/decompositionMethod.C:632-637 | a row with no repeats and no seed value is unchanged by compaction |
| FirstOccurrence.FlattenSlice | src/parallel/decompose/decompositionMethods/decompositionMethod/decompositionMethod.C:640-643 | in the flattened rows, row c starts at the total length of the rows before it |
| CellCells.InternalRowMember | src/parallel/decompose/decompositionMethods/decompositionMethod/decompositionMethod.C:570-577 | the internal part of a row holds exactly the coarse cells across the first f internal faces |
| CellCells.CoupledRowMembers | src/parallel/decompose/decompositionMethods/decompositionMethod/decompositionMethod.C:580-608 | the coupled part of a row holds exactly the ids across the cell's coupled faces, except its own id |
| CellCells.RawRowMembers | src/parallel/decompose/decompositionMethods/decompositionMethod/decompositionMethod.C:518-608 | an uncompacted row holds exactly the neighbours through internal faces and the non-self neighbours through coupled faces |
| CellCells.GraphRowMeaning | src/parallel/decompose/decompositionMethods/decompositionMethod/decompositionMethod.C:457-644 | a final row holds exactly the cells linked to the cell other than itself, each once |
| CellCells.CoupledOwnerIds | src/parallel/decompose/decompositionMethods/decompositionMethod/decompositionMethod.C:486-508 | each coupled boundary face carries the global id of its owner's coarse cell (the ids received back across the faces after the swap are an input of the graph, so this result is not fed into it) |
| CellCells.CountFaces | src/parallel/decompose/decompositionMethods/decompositionMethod/decompositionMethod.C:518-556 | each coarse cell's count equals the length of its uncompacted row |
| CellCells.CountInternalFaces | src/parallel/decompose/decompositionMethods/decompositionMethod/decompositionMethod.C:520-527 | after the internal faces, each count is the length of the internal part of the row |
| CellCells.OffsetsOf | src/parallel/decompose/decompositionMethods/decompositionMethod/decompositionMethod.C:562 | the offsets start at zero, ascend and differ by the row sizes |
| CellCells.FillInternal | src/parallel/decompose/decompositionMethods/decompositionMethod/decompositionMethod.C:570-577 | after the internal faces, every row's filled prefix is its internal part |
| CellCells.FillInternalFace | src/parallel/decompose/decompositionMethods/decompositionMethod/decompositionMethod.C:572-576 | one internal face appends each side's id to the other's row |
| CellCells.FillCoupled | src/parallel/decompose/decompositionMethods/decompositionMethod/decompositionMethod.C:580-608 | after the coupled faces, every row's filled prefix is its whole uncompacted row |
| CellCells.FillCoupledFace | src/parallel/decompose/decompositionMethods/decompositionMethod/decompositionMethod.C:591-605 | a coupled face appends the id across it to its owner's row unless it is the owner itself |
| CellCells.FillRows | src/parallel/decompose/decompositionMethods/decompositionMethod/decompositionMethod.C:564-608 | each slot range between consecutive offsets holds exactly the cell's uncompacted row |
| CellCells.CompactRow | src/parallel/decompose/decompositionMethods/decompositionMethod/decompositionMethod.C:627-637 | the row is compacted in place to its first occurrences without the cell's own id, and later slots are left alone |
| CellCells.DedupCell | src/parallel/decompose/decompositionMethods/decompositionMethod/decompositionMethod.C:627-640 | one more row is compacted, its end offset recorded, and the rows before it are preserved |
| CellCells.DedupRows | src/parallel/decompose/decompositionMethods/decompositionMethod/decompositionMethod.C:614-643 | the storage becomes the concatenation of the compacted rows, and each offset is where its row starts |
| CellCells.FlattenedRows | src/parallel/decompose/decompositionMethods/decompositionMethod/decompositionMethod.C:640-643 | offsets at the row starts of flattened rows give back each row |
| CellCells.CalcCellCells | src/parallel/decompose/decompositionMethods/decompositionMethod/decompositionMethod.C:457-644 | the compact list has one row per coarse cell, and each row is that cell's graph row |
| WeightedCellCells.RawFacesLink | src/parallel/decompose/decompositionMethods/decompositionMethod/decompositionMethod.C:763-808 | each entry of an uncompacted row comes from a face linking the cell to that neighbour |
| WeightedCellCells.RawWeightsAreFaceAreas | src/parallel/decompose/decompositionMethods/decompositionMethod/decompositionMethod.C:763-808 | each uncompacted weight is the area of the face its entry comes from |
| WeightedCellCells.GraphWeightIsFirstLinkArea | src/parallel/decompose/decompositionMethods/decompositionMethod/decompositionMethod.C:825-843 | each final neighbour's weight is the area of the first face linking the two cells |
| WeightedCellCells.FillInternalWeightedAsWritten | src/parallel/decompose/decompositionMethods/decompositionMethod/decompositionMethod.C:763-775 | the internal loop as written: ids as in the unweighted graph, areas only in the owner's slots |
| WeightedCellCells.FillInternalFaceWeightedAsWritten | src/parallel/decompose/decompositionMethods/decompositionMethod/decompositionMethod.C:765-774 | one internal face as written: both rows get the other side's id, the owner's slot gets the face area, and the neighbour's slot keeps its old weight |
| WeightedCellCells.NeighbourWeightUnwritten | src/parallel/decompose/decompositionMethods/decompositionMethod/decompositionMethod.C:774 | as written, the slot for the owner in the neighbour's row never receives the face area, although the intended area is defined |
| WeightedCellCells.FillInternalWeighted | src/parallel/decompose/decompositionMethods/decompositionMethod/decompositionMethod.C:763-775 | the corrected internal loop: each side's row gets the other's id and the face area |
| WeightedCellCells.FillInternalFaceWeighted | src/parallel/decompose/decompositionMethods/decompositionMethod/decompositionMethod.C:765-774 | one internal face, corrected: each side's row gets the other's id and the face area in the same slot |
| WeightedCellCells.FillCoupledWeighted | src/parallel/decompose/decompositionMethods/decompositionMethod/decompositionMethod.C:778-808 | after the coupled faces, ids and areas fill the whole uncompacted rows |
| WeightedCellCells.FillCoupledFaceWeighted | src/parallel/decompose/decompositionMethods/decompositionMethod/decompositionMethod.C:789-805 | one coupled face appends the id across it and the face area to its owner's row, unless the id is the owner itself |
| WeightedCellCells.FillRowsWeighted | src/parallel/decompose/decompositionMethods/decompositionMethod/decompositionMethod.C:756-808 | each slot range holds the cell's uncompacted ids and their face areas |
| WeightedCellCells.RawRowsWeighted | src/parallel/decompose/decompositionMethods/decompositionMethod/decompositionMethod.C:709-808 | allocates ascending offsets from zero, one slot range per coarse cell, and fills each range with the cell's uncompacted ids and their face areas |
| WeightedCellCells.CompactRowWeighted | src/parallel/decompose/decompositionMethods/decompositionMethod/decompositionMethod.C:832-840 | ids and weights are compacted together, so each kept id keeps its own weight |
| WeightedCellCells.DedupCellWeighted | src/parallel/decompose/decompositionMethods/decompositionMethod/decompositionMethod.C:825-843 | one more row of ids and weights is compacted and its end offset recorded, the rows before it staying compacted |
| WeightedCellCells.DedupCellsWeighted | src/parallel/decompose/decompositionMethods/decompositionMethod/decompositionMethod.C:823-844 | every row of ids and weights is compacted, with the shared offsets at the compacted row starts |
| WeightedCellCells.DedupRowsWeighted | src/parallel/decompose/decompositionMethods/decompositionMethod/decompositionMethod.C:814-847 | both storages become the concatenations of the compacted rows, with shared offsets |
| WeightedCellCells.CalcCellCellsWeighted | src/parallel/decompose/decompositionMethods/decompositionMethod/decompositionMethod.C:647-848 | the corrected weighted graph: each row is the graph row, and its weights are the first linking face areas, with the same offsets for both lists |
| CoarseDecomposition.Expand | src/parallel/decompose/decompositionMethods/decompositionMethod/decompositionMethod.C:301-306 | every fine cell gets its coarse cell's processor, so cells of one coarse cell stay together |
| CoarseDecomposition.DecomposeCoarse | src/parallel/decompose/decompositionMethods/decompositionMethod/decompositionMethod.C:271-309 | each mesh cell's processor is the one the strategy gives its coarse cell on the coarse graph |
| ConstrainedDecomposition.CountConstraints | src/parallel/decompose/decompositionMethods/decompositionMethod/decompositionMethod.C:866-889 | counts the faces in the face sets, the connections and the unblocked faces |
| ConstrainedDecomposition.UnconstrainedMeaning | src/parallel/decompose/decompositionMethods/decompositionMethod/decompositionMethod.C:897 | the counts sum to zero exactly when all sets are empty, there are no connections and every face is blocked |
| ConstrainedDecomposition.UnconstrainedEverywhereMeaning | src/parallel/decompose/decompositionMethods/decompositionMethod/decompositionMethod.C:861-897 | the reduced counts sum to zero exactly when this process's sets are empty, it has no connections and every face is blocked, and the other processes' counts are zero |
| ConstrainedDecomposition.SetSizesZero | src/parallel/decompose/decompositionMethods/decompositionMethod/decompositionMethod.C:866-871 | the face-set count is zero exactly when every set is empty |
| ConstrainedDecomposition.CountUnblockedZero | src/parallel/decompose/decompositionMethods/decompositionMethod/decompositionMethod.C:881-889 | the unblocked count is zero exactly when every face is blocked |
| ConstrainedDecomposition.FirstCellMeaning | src/parallel/decompose/decompositionMethods/decompositionMethod/decompositionMethod.C:950-958 | the first cell of a region is in that region, and no earlier cell is; it is absent exactly when no cell is in the region |
| ConstrainedDecomposition.CentresAreFirstCells | src/parallel/decompose/decompositionMethods/decompositionMethod/decompositionMethod.C:948-958 | each region's centre is its first cell's centre, or the maximum point for an empty region |
| ConstrainedDecomposition.RegionCentres | src/parallel/decompose/decompositionMethods/decompositionMethod/decompositionMethod.C:948-958 | the loop computes the first-cell centres |
| ConstrainedDecomposition.RegionWeights | src/parallel/decompose/decompositionMethods/decompositionMethod/decompositionMethod.C:963-981 | with weights each region's weight is the sum of its cells' weights; otherwise it is the region's number of cells |
| ConstrainedDecomposition.RegionSumsTotal | src/parallel/decompose/decompositionMethods/decompositionMethod/decompositionMethod.C:963-973 | the region weights add up to the total cell weight |
| ConstrainedDecomposition.UnitRegionSum | src/parallel/decompose/decompositionMethods/decompositionMethod/decompositionMethod.C:974-981 | summing unit weights gives each region's cell count |
| ConstrainedDecomposition.TotalUpdate | src/parallel/decompose/decompositionMethods/decompositionMethod/decompositionMethod.C:971 | adding to one region's weight adds the same to the total |
| ConstrainedDecomposition.Connect | src/parallel/decompose/decompositionMethods/decompositionMethod/decompositionMethod.C:998-1024 | fails exactly when one face is blocked and the other is not. Between blocked faces nothing changes. Between unblocked faces the second face's cells take the first owner's processor and no other cell changes |
| ConstrainedDecomposition.ConnectAll | src/parallel/decompose/decompositionMethods/decompositionMethod/decompositionMethod.C:996-1025 | a successful result has one processor per cell; a failure carries the mismatch message |
| ConstrainedDecomposition.ConnectAllFatal | src/parallel/decompose/decompositionMethods/decompositionMethod/decompositionMethod.C:996-1025 | enforcing the connections fails exactly when some connection is mismatched |
| ConstrainedDecomposition.ConnectAllBlocked | src/parallel/decompose/decompositionMethods/decompositionMethod/decompositionMethod.C:1002-1016 | connections between blocked faces change nothing |
| ConstrainedDecomposition.EnforceConnections | src/parallel/decompose/decompositionMethods/decompositionMethod/decompositionMethod.C:996-1025 | the loop succeeds exactly when the specification does and then leaves its result |
| ConstrainedDecomposition.FacesCellsMembers | src/parallel/decompose/decompositionMethods/decompositionMethod/decompositionMethod.C:1125-1134 | a cell is claimed through a face list exactly when it is next to one of its faces |
| ConstrainedDecomposition.PointsCellsMembers | src/parallel/decompose/decompositionMethods/decompositionMethod/decompositionMethod.C:1122-1135 | a cell is claimed through a point list exactly when it is next to a face using one of the points |
| ConstrainedDecomposition.SetCellsMembers | src/parallel/decompose/decompositionMethods/decompositionMethod/decompositionMethod.C:1119-1135 | a cell is claimed by a face set exactly when it is next to a face sharing a point with the set |
| ConstrainedDecomposition.ClaimedUnion | src/parallel/decompose/decompositionMethods/decompositionMethod/decompositionMethod.C:1119-1135 | claiming two cell sets one after the other equals claiming their union |
| ConstrainedDecomposition.ClaimFace | src/parallel/decompose/decompositionMethods/decompositionMethod/decompositionMethod.C:1127-1133 | the owner and any neighbour of the face take the processor |
| ConstrainedDecomposition.ClaimFaces | src/parallel/decompose/decompositionMethods/decompositionMethod/decompositionMethod.C:1124-1134 | the cells of the point's faces take the processor |
| ConstrainedDecomposition.ClaimPoints | src/parallel/decompose/decompositionMethods/decompositionMethod/decompositionMethod.C:1121-1135 | the cells of the faces at the face's points take the processor |
| ConstrainedDecomposition.ClaimSet | src/parallel/decompose/decompositionMethods/decompositionMethod/decompositionMethod.C:1119-1135 | the cells claimed by the face set take the processor |
| ConstrainedDecomposition.ClaimAllUntouched | src/parallel/decompose/decompositionMethods/decompositionMethod/decompositionMethod.C:1107-1137 | a cell that no face set claims keeps its processor |
| ConstrainedDecomposition.ClaimAllStep | src/parallel/decompose/decompositionMethods/decompositionMethod/decompositionMethod.C:1107-1137 | the last face set overrides the earlier ones on the cells it claims |
| ConstrainedDecomposition.ClaimAllLastClaim | src/parallel/decompose/decompositionMethods/decompositionMethod/decompositionMethod.C:1107-1137 | a cell ends on the processor of the last set that claims it |
| ConstrainedDecomposition.EnforceFaceSets | src/parallel/decompose/decompositionMethods/decompositionMethod/decompositionMethod.C:1107-1137 | the loop over the sets computes the specification of the claims |
| ConstrainedDecomposition.DecomposeConstrained | src/parallel/decompose/decompositionMethods/decompositionMethod/decompositionMethod.C:851-1179 | when no process has a face set, a connection or an unblocked face, the centres are decomposed directly, with the cell weights when any process has weights and unit weights otherwise. Otherwise the result is the constrained decomposition. The call fails exactly when a connection is mismatched |
| ConstrainedDecomposition.DecomposeRegions | src/parallel/decompose/decompositionMethods/decompositionMethod/decompositionMethod.C:929-1137 | the constrained path computes the region decomposition followed by the connections and the face sets, and fails exactly on a mismatched connection |
| ConstrainedDecomposition.RegionsStayTogether | src/parallel/decompose/decompositionMethods/decompositionMethod/decompositionMethod.C:929-990 | without face sets or connections, two cells of one region end on the same processor |
| ConstrainedDecomposition.SetConstraints | src/parallel/decompose/decompositionMethods/decompositionMethod/decompositionMethod.C:1182-1208 | the lists are the constraints applied in order to the reset lists |
| ConstrainedDecomposition.NoConstraintsUnconstrained | src/parallel/decompose/decompositionMethods/decompositionMethod/decompositionMethod.C:1182-1208 | with no constraints the decomposition is unconstrained |
| DynamicFields.GrownCapacity | src/OpenFOAM/fields/Fields/DynamicField/DynamicFieldI.H:212-216 | the grown capacity holds the request and is at least the growth formula, being one of the two |
| DynamicFields.DynamicField.Empty | src/OpenFOAM/fields/Fields/DynamicField/DynamicFieldI.H:29-33 | an empty field with no capacity |
| DynamicFields.DynamicField.WithCapacity | src/OpenFOAM/fields/Fields/DynamicField/DynamicFieldI.H:37-47 | an empty field with the given capacity |
| DynamicFields.DynamicField.Filled | src/OpenFOAM/fields/Fields/DynamicField/DynamicFieldI.H:51-71 | n copies of a value, with capacity n |
| DynamicFields.DynamicField.FromList | src/OpenFOAM/fields/Fields/DynamicField/DynamicFieldI.H:75-93 | the list's elements, with capacity equal to its size |
| DynamicFields.DynamicField.CopyAsWritten | src/OpenFOAM/fields/Fields/DynamicField/DynamicFieldI.H:122-129 | the copy as written: the source's elements are allocated, but the capacity is the source's |
| DynamicFields.DynamicField.Copy | src/OpenFOAM/fields/Fields/DynamicField/DynamicFieldI.H:122-129 | the corrected copy: same elements, capacity equal to what is allocated |
| DynamicFields.DynamicField.Move | src/OpenFOAM/fields/Fields/DynamicField/DynamicFieldI.H:146-156 | takes over the source's storage, size and capacity and leaves the source empty with no capacity |
| DynamicFields.DynamicField.ReuseAsWritten | src/OpenFOAM/fields/Fields/DynamicField/DynamicFieldI.H:132-143 | the reusing constructor as written: with reuse it moves; without, it copies the elements into an allocation of their size, takes the source's capacity and zeroes the source's capacity while the source keeps its elements |
| DynamicFields.ReuseWithoutReuseBreaksSource | src/OpenFOAM/fields/Fields/DynamicField/DynamicFieldI.H:132-143 | as written, constructing without reuse from a field of one element and capacity two leaves the source addressing more than its capacity and the new field claiming more than it allocated |
| DynamicFields.DynamicField.Reuse | src/OpenFOAM/fields/Fields/DynamicField/DynamicFieldI.H:132-143 | the corrected reusing constructor: it moves with reuse and copies with its own capacity, leaving the source untouched, without; both fields stay valid |
| DynamicFields.DynamicField.SetCapacity | src/OpenFOAM/fields/Fields/DynamicField/DynamicFieldI.H:170-187 | reallocates to exactly the capacity, truncating the contents if it is smaller |
| DynamicFields.DynamicField.Reserve | src/OpenFOAM/fields/Fields/DynamicField/DynamicFieldI.H:191-224 | contents unchanged; the capacity grows by the policy only when the request exceeds it, and the storage is kept otherwise |
| DynamicFields.DynamicField.SetSize | src/OpenFOAM/fields/Fields/DynamicField/DynamicFieldI.H:228-261 | the size becomes the request; the common prefix is kept; the capacity grows by the policy only when needed |
| DynamicFields.DynamicField.SetSizeFill | src/OpenFOAM/fields/Fields/DynamicField/DynamicFieldI.H:265-300 | truncates, or extends with copies of the value |
| DynamicFields.DynamicField.Clear | src/OpenFOAM/fields/Fields/DynamicField/DynamicFieldI.H:304-307 | no elements remain; capacity and storage are kept |
| DynamicFields.DynamicField.ClearStorage | src/OpenFOAM/fields/Fields/DynamicField/DynamicFieldI.H:311-315 | no elements and no capacity |
| DynamicFields.DynamicField.Shrink | src/OpenFOAM/fields/Fields/DynamicField/DynamicFieldI.H:339-354 | capacity reduced to the size when larger; contents unchanged |
| DynamicFields.DynamicField.Append | src/OpenFOAM/fields/Fields/DynamicField/DynamicFieldI.H:358-369 | the value is added at the end, growing the capacity by the policy when full |
| DynamicFields.DynamicField.AppendSeq | src/OpenFOAM/fields/Fields/DynamicField/DynamicFieldI.H:373-393 | the list's elements are added at the end, in order |
| DynamicFields.DynamicField.AppendList | src/OpenFOAM/fields/Fields/DynamicField/DynamicFieldI.H:373-393 | the other field's elements are added at the end; appending a field to itself is the fatal case |
| DynamicFields.DynamicField.Remove | src/OpenFOAM/fields/Fields/DynamicField/DynamicFieldI.H:397-412 | returns the last element and removes it; capacity and storage are kept |
| DynamicFields.DynamicField.Access | src/OpenFOAM/fields/Fields/DynamicField/DynamicFieldI.H:418-429 | the field grows to include the index; existing elements are kept |
| DynamicFields.DynamicField.AssignValue | src/OpenFOAM/fields/Fields/DynamicField/DynamicFieldI.H:433-439 | every element becomes the value |
| DynamicFields.DynamicField.Assign | src/OpenFOAM/fields/Fields/DynamicField/DynamicFieldI.H:443-468 | the contents become the other field's; the capacity is kept when large enough, or becomes the other's size |
| DynamicFields.DynamicField.MoveAssign | src/OpenFOAM/fields/Fields/DynamicField/DynamicFieldI.H:472-486 | takes over the other's storage, size and capacity and empties it |
| DynamicFields.DynamicField.AssignList | src/OpenFOAM/fields/Fields/DynamicField/DynamicFieldI.H:490-509 | the contents become the list; the capacity is kept when large enough, or becomes the list's size |
| DynamicFields.DynamicField.MoveAssignList | src/OpenFOAM/fields/Fields/DynamicField/DynamicFieldI.H:513-526 | the contents become the list, with capacity equal to its size |
| DynamicFields.CopyThenAppendOverruns | src/OpenFOAM/fields/Fields/DynamicField/DynamicFieldI.H:122-129 | a copy as written of a field with spare capacity has capacity beyond its allocation, so an append skips reallocation |
| DynamicFields.CopyThenAppend | src/OpenFOAM/fields/Fields/DynamicField/DynamicFieldI.H:358-369 | after the corrected copy, an append stays within the allocation and adds the value |
| Tmps.Tmp.FromPointer | src/OpenFOAM/memory/tmp/tmpI.H:59-71 | a temporary, reusable or not, holding an unshared object |
| Tmps.Tmp.FromRef | src/OpenFOAM/memory/tmp/tmpI.H:75-79 | a constant reference to the object |
| Tmps.Tmp.Copy | src/OpenFOAM/memory/tmp/tmpI.H:83-101 | shares the object; copying a temporary raises its count to one, and the count is kept for a reference |
| Tmps.Tmp.Move | src/OpenFOAM/memory/tmp/tmpI.H:105-127 | the new handle takes kind and object; a temporary source loses its object |
| Tmps.Tmp.Transfer | src/OpenFOAM/memory/tmp/tmpI.H:131-157 | transfers a reusable temporary when allowed and otherwise shares it with its count raised |
| Tmps.Tmp.Ref | src/OpenFOAM/memory/tmp/tmpI.H:197-217 | a temporary's object, for modification |
| Tmps.Tmp.Get | src/OpenFOAM/memory/tmp/tmpI.H:295-309 | the object, which is never null for a valid handle |
| Tmps.Tmp.Ptr | src/OpenFOAM/memory/tmp/tmpI.H:221-249 | a reusable temporary hands over its unshared object and becomes empty; otherwise a new copy is returned |
| Tmps.Tmp.Clear | src/OpenFOAM/memory/tmp/tmpI.H:253-269 | a temporary deletes an unshared object or lowers its count, then drops it; a reference is left alone |
| Tmps.Tmp.AssignPointer | src/OpenFOAM/memory/tmp/tmpI.H:357-378 | the handle becomes a reusable temporary owning the object; its old temporary object (if another) is deleted when unshared or loses a count and stays alive when shared, and an old referenced object is left unchanged |
| Tmps.Tmp.Assign | src/OpenFOAM/memory/tmp/tmpI.H:382-407 | takes the other temporary's kind and object and leaves it empty; its own old temporary object is deleted when unshared or loses a count when shared, and an old referenced object is left unchanged |
| Tmps.Tmp.MoveAssign | src/OpenFOAM/memory/tmp/tmpI.H:411-438 | takes the other handle's kind and object, a temporary source losing it; its own old temporary object is deleted when unshared or loses a count when shared, and an old referenced object is left unchanged |
| Tmps.ValidIffNotEmpty | src/OpenFOAM/memory/tmp/tmpI.H:169-186 | a handle is valid exactly when it is not empty |
| Tmps.ShareThenClear | src/OpenFOAM/memory/tmp/tmpI.H:253-269 | clearing one of two handles sharing an object keeps it alive and unshared for the other |
| TmpNrcs.TmpNrc.FromPointer | src/OpenFOAM/memory/tmpNrc/tmpNrcI.H:32-36 | a temporary owning the pointer, possibly null |
| TmpNrcs.TmpNrc.FromRef | src/OpenFOAM/memory/tmpNrc/tmpNrcI.H:40-44 | a constant reference to the object |
| TmpNrcs.TmpNrc.Copy | src/OpenFOAM/memory/tmpNrc/tmpNrcI.H:48-66 | the copy takes over a temporary and the source becomes a reference to the same object |
| TmpNrcs.TmpNrc.Move | src/OpenFOAM/memory/tmpNrc/tmpNrcI.H:70-93 | a temporary's object passes to the new handle and leaves the source |
| TmpNrcs.TmpNrc.Transfer | src/OpenFOAM/memory/tmpNrc/tmpNrcI.H:96-121 | when allowed the source is emptied; otherwise it becomes a reference |
| TmpNrcs.TmpNrc.Ref | src/OpenFOAM/memory/tmpNrc/tmpNrcI.H:162-182 | an allocated temporary's object, for modification |
| TmpNrcs.TmpNrc.Get | src/OpenFOAM/memory/tmpNrc/tmpNrcI.H:223-237 | the object, for reading |
| TmpNrcs.TmpNrc.Ptr | src/OpenFOAM/memory/tmpNrc/tmpNrcI.H:186-206 | a temporary hands over its object and becomes empty; a reference returns a new copy |
| TmpNrcs.TmpNrc.Clear | src/OpenFOAM/memory/tmpNrc/tmpNrcI.H:210-217 | a temporary deletes its object and becomes empty; a reference is left alone |
| TmpNrcs.TmpNrc.AssignPointer | src/OpenFOAM/memory/tmpNrc/tmpNrcI.H:285-298 | the handle owns the new object; its own old temporary object is deleted (so assigning its own object deletes it first), and an old referenced object is left unchanged |
| TmpNrcs.TmpNrc.Assign | src/OpenFOAM/memory/tmpNrc/tmpNrcI.H:302-327 | takes over the other temporary's object and empties the other; its own old temporary object is deleted, and an old referenced object is left unchanged |
| TmpNrcs.TmpNrc.MoveAssign | src/OpenFOAM/memory/tmpNrc/tmpNrcI.H:331-358 | takes the other's kind and object, a temporary source losing it; its own old temporary object is deleted, and an old referenced object is left unchanged |
| TmpNrcs.ValidIffNotEmpty | src/OpenFOAM/memory/tmpNrc/tmpNrcI.H:134-151 | a handle is valid exactly when it is not empty |
| TmpNrcs.SingleOwner | src/OpenFOAM/memory/tmpNrc/tmpNrcI.H:48-121 | after a copy, transfer or move of a temporary, exactly one of the two handles owns the object |
| RemoteDatas.FirstProcOp | src/OpenFOAM/primitives/RemoteData/RemoteDataI.H:68-83 | the result is one of the two operands |
| RemoteDatas.SmallestEqOp | src/OpenFOAM/primitives/RemoteData/RemoteDataI.H:100-111 | the result is one of the two operands |
| RemoteDatas.GreatestEqOp | src/OpenFOAM/primitives/RemoteData/RemoteDataI.H:114-125 | the result is one of the two operands |
| RemoteDatas.SmallestFirstEqOp | src/OpenFOAM/primitives/RemoteData/RemoteDataI.H:128-139 | the result is one of the two operands |
| RemoteDatas.GreatestFirstEqOp | src/OpenFOAM/primitives/RemoteData/RemoteDataI.H:142-153 | the result is one of the two operands |
| RemoteDatas.Equal | src/OpenFOAM/primitives/RemoteData/RemoteDataI.H:158-168 | equal exactly when processor, element and data agree |
| RemoteDatas.NotEqual | src/OpenFOAM/primitives/RemoteData/RemoteDataI.H:171-179 | the negation of equality |
| RemoteDatas.Variable.FirstProcEq | src/OpenFOAM/primitives/RemoteData/RemoteDataI.H:86-97 | the variable becomes what the binary first-process operator returns for its old value and the operand |
| RemoteDatas.Variable.SmallestEq | src/OpenFOAM/primitives/RemoteData/RemoteDataI.H:100-111 | the variable is updated by the smallest-value rule |
| RemoteDatas.Variable.GreatestEq | src/OpenFOAM/primitives/RemoteData/RemoteDataI.H:114-125 | the variable is updated by the greatest-value rule |
| RemoteDatas.PairVariable.SmallestFirstEq | src/OpenFOAM/primitives/RemoteData/RemoteDataI.H:128-139 | the variable is updated by the smallest-first-component rule |
| RemoteDatas.PairVariable.GreatestFirstEq | src/OpenFOAM/primitives/RemoteData/RemoteDataI.H:142-153 | the variable is updated by the greatest-first-component rule |
| RemoteDatas.FirstProcOpChoice | src/OpenFOAM/primitives/RemoteData/RemoteDataI.H:68-83 | takes the second operand exactly when it is valid and the first is invalid or on a lower processor; the result is valid when either is; of two valid operands it keeps the higher processor |
| RemoteDatas.InvalidRightIsNoOp | src/OpenFOAM/primitives/RemoteData/RemoteDataI.H:86-153 | an invalid right operand leaves every in-place operator's target unchanged |
| RemoteDatas.InvalidLeftTakesRight | src/OpenFOAM/primitives/RemoteData/RemoteDataI.H:86-153 | an invalid target takes a valid right operand under every operator |
| RemoteDatas.StrictComparison | src/OpenFOAM/primitives/RemoteData/RemoteDataI.H:100-153 | between valid operands the right one is taken only when strictly smaller or greater, so ties keep the target |
| RemoteDatas.ReduceSmallestIsMinimum | src/OpenFOAM/primitives/RemoteData/RemoteDataI.H:100-111 | folding smallestEqOp over values yields one of them, valid iff any is, and no valid value is smaller |
| RemoteDatas.ReduceFirstProcIsGreatest | src/OpenFOAM/primitives/RemoteData/RemoteDataI.H:86-97 | folding firstProcEqOp yields one of the values, valid iff any is, from the highest processor among the valid ones |
| LagrangianStates.Wrap | src/Lagrangian/Lagrangian/LagrangianState/LagrangianState.H:92-98 | the 32-bit label reduction: the identity within the label range and congruent modulo 2^32 outside it |
| LagrangianStates.NamedStatesToGroups | src/Lagrangian/Lagrangian/LagrangianState/LagrangianState.H:79-102 | each named state maps to the group of the same name, and both internal-mesh states map to the internal-mesh group |
| LagrangianStates.NamedGroupsToStates | src/Lagrangian/Lagrangian/LagrangianState/LagrangianState.H:105-126 | each named group maps to the state of the same name, and the internal-mesh group maps to none |
| LagrangianStates.PatchStateToGroup | src/Lagrangian/Lagrangian/LagrangianState/LagrangianState.H:91-122 | patch k's state and patch k's group map to each other |
| LagrangianStates.StateToGroupShift | src/Lagrangian/Lagrangian/LagrangianState/LagrangianState.H:91-98 | every state outside the named ones maps to its label minus one |
| LagrangianStates.GroupToStateShift | src/Lagrangian/Lagrangian/LagrangianState/LagrangianState.H:115-122 | every group outside the named ones maps to its label plus one, wrapping to none at the largest label |
| LagrangianStates.StateRoundTrip | src/Lagrangian/Lagrangian/LagrangianState/LagrangianState.H:79-126 | state to group to state is the identity except for the internal-mesh states and the two labels whose shift lands on a named group |
| LagrangianStates.GroupRoundTrip | src/Lagrangian/Lagrangian/LagrangianState/LagrangianState.H:79-126 | group to state to group is the identity except for the internal-mesh group, -1, and the two labels whose shift lands on a named state |

## Left out

- Communication between processors: `returnReduce`, `reduce`, `gSum`, `syncTools::swapBoundaryFaceList` and the `globalIndex` offsets exchange. What they bring from the other processors is an input: the maximum weight count, the component sums of the integer weights, the numbers of cell weights, face-set faces, connections and unblocked faces, the global ids across coupled faces and the offset of this processor's numbering.
- Weights.ScaleWeights: the conversion from real weights to integers (`ceil(scale*weights[i])` with `scale = INT32_MAX/(2*sum)`) uses floating point and is an input, so the method starts from the converted integers. Sums of integer weights are unbounded, so 32-bit overflow of `label` is not modelled.
- Integer width elsewhere: cell, face and offset counts are unbounded naturals. A bounded `label` is modelled only in LagrangianState.
- LagrangianStates.Wrap: `label` is taken as the default 32-bit build (it is 64-bit when WM_LABEL_SIZE is 64). `static_cast<label>(state) - 3 + 2` at the smallest label plus one and plus two, and `group - 2 + 3` at the largest label, overflow a signed integer, which is undefined behaviour in C++. The model gives these the two's-complement wrap, so the exceptions that StateToGroupShift, GroupToStateShift, StateRoundTrip and GroupRoundTrip state at those labels hold only under that choice.
- Which boundary patches count as coupled (`pp.coupled() && (parallel || !isA<processorPolyPatch>(pp))`) is an input flag per boundary face, and the `parallel` argument with it.
- The partitioning strategies (the graph and point `decompose` overloads), `regionSplit` and the strategy selectors are not part of this model. The strategies are function parameters; the region split is an input.
- The second regionSplit across processors (FaceCellWave at decompositionMethod.C:1032-1091) and the debug consistency check (1140-1172) are not modelled: they need parallel communication.
- `applyConstraints` (decompositionMethod.C:1211-1233), `decompose(mesh, cellWeights)` (1236-1285), the constructors and `New` selectors, and the dictionary reading are outside the modelled core.
- ConstrainedDecomposition.SetConstraints: each constraint's `add` is a function on the constraint lists, because the constraint classes are not part of this model.
- ConstrainedDecomposition.EnforceFaceSets: a face set with processor -1 takes the processor of its first face's owner, so an empty such set is excluded by precondition, as the source reads `set[0]`.
- ConstrainedDecomposition.DecomposeConstrained: the empty face set with processor -1 is excluded only on the constrained path; without constraints on any process the point decomposition is returned and the sets are not read (decompositionMethod.C:897-911). In a parallel run, such a set that is empty on this process while another process has constraints reaches decompositionMethod.C:1115, which reads `set[0]` of an empty list; the model excludes that input by precondition rather than modelling the out-of-range read.
- DynamicFields.DynamicField.FromList, DynamicFields.DynamicField.MoveAssignList: the `List<T>&&` overloads (DynamicFieldI.H:85-93, 513-526) also leave the moved-from list empty; the model takes the list as a value, so the moved-from list is not modelled.
- RemoteDatas.FirstProcOp: "first" in the source's comments is followed as the code does it, keeping the valid operand on the greater processor.
- RemoteData constructors and stream operators, and `remote(e)`, which asks Pstream for the processor: not modelled.
- DynamicField constructors from a list with a map or indirect addressing (DynamicFieldI.H:97-118) are not modelled. `resize` is the same as `SetSize`.
- DynamicFields.DynamicField.SetCapacity: always reallocates to exactly the new capacity; the source's `List::setSize` keeps the old allocation when its length already equals the new capacity, which the model does not distinguish.
- DynamicFields.DynamicField.Move: the moved-from list is modelled as left empty with a fresh empty storage rather than an aliasing detail of `List::transfer`.
- Every fatal error in DynamicField, tmp and tmpNrc is a precondition: self-assignment, assigning a null pointer, dereferencing a deallocated temporary, and taking a shared object.
- tmp and tmpNrc: `typeName` messages, the contents of the object copied by `ptr()` on a reference, and destructors are not modelled. An object is a heap cell with an alive flag and, for `tmp`, a reference count.
- LagrangianState names and stream operators are not modelled.

## Findings

| source | as written | input that shows it | evidently intended | confidence | as-written member | corrected member |
|---|---|---|---|---|---|---|
| src/parallel/decompose/decompositionMethods/decompositionMethod/decompositionMethod.C:774 | the face area is written to `w[ownIndex]` twice, and `w[neiIndex]` is never written | any mesh with an internal face: the neighbour's row gets the owner's id, but its weight slot keeps what it held before | `w[neiIndex] = mesh.magFaceAreas()[faceI]` | not executed | WeightedCellCells.NeighbourWeightUnwritten | WeightedCellCells.CalcCellCellsWeighted |
| src/OpenFOAM/fields/Fields/DynamicField/DynamicFieldI.H:122-129 | the copy constructor allocates `lst.size()` elements but copies `capacity_` from `lst` | copy a field of capacity 2 holding one element, then append: `setSize(2)` takes the no-reallocation branch and writes beyond the single allocated element | the copy's capacity is the size it allocates, as in the other copying constructors | not executed | DynamicFields.CopyThenAppendOverruns | DynamicFields.CopyThenAppend |
| src/OpenFOAM/fields/Fields/DynamicField/DynamicFieldI.H:139-142 | without reuse, the constructor copies the addressed elements into an allocation of their size, takes `lst.capacity_` and then zeroes `lst.capacity_` although `lst` keeps its elements | construct without reuse from a field holding one element in room for two: the source then addresses one element with capacity 0, and the new field claims capacity 2 over an allocation of one | without reuse, a plain copy whose capacity is what it allocates, the source left as it was | not executed | DynamicFields.ReuseWithoutReuseBreaksSource | DynamicFields.DynamicField.Reuse |
