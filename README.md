# Iota tile assignments

This project models the tile-assignment algebra of XLA's sharding
representation (`xla/hlo/ir/tile_assignment.cc`) and proves properties about it.

A tile assignment says which device owns each tile of a sharded array. It is an
n-dimensional array of device ids. The compact *iota* form writes it as three
lists `(dims, reshape_dims, transpose_perm)`. These stand for the array you get
in four steps:

1. count up `0, 1, 2, ...` over an array of shape `reshape_dims`;
2. permute its axes by `transpose_perm`;
3. keep the elements in the same order;
4. read them under the shape `dims`.

The text form is `[dims]<=[reshape_dims]T(transpose_perm)`.

The model covers:

- **Canonicalisation** of `(reshape_dims, transpose_perm)`: drop size-1 axes and merge runs of axes that stay in major-to-minor order. It is an in-place algorithm on arrays.
- **Transpose classification**: whether a permutation does nothing, only moves size-1 axes, or really transposes.
- **Decanonicalisation**: splitting every reshape dimension into its prime factors, with the matching expanded permutation and index tables.
- **The iota form itself**:
  - its creation, which canonicalises;
  - its meaning as a dense array;
  - element lookup (`value_at`);
  - its transpose: the noop, reshape, single-dimension, pure and regrouping paths, including the greedy factor grouping with look-ahead swaps.
- **The text form** and a reader for it.
- **The `TileAssignment` wrapper**, an object that holds the iota form when one is known. It also holds the dense array, filled in from the iota form at most once. Modelled operations:
  - construction and copying;
  - the lazy `MaybeMaterializeFullArray`;
  - indexing, dimensions, element count and `first`;
  - `UsesDevice` and equality;
  - `Reshape` and `Transpose`.

The dense array library (`Array<int64_t>`) is not part of this model. It is
replaced by a value-level `DenseArrays.DenseArray` with row-major indexing,
`FillIota`, `Reshape` and `TransposeDimensions`.

Modules, one per file:

| file | module | models |
|---|---|---|
| `option.dfy` | `Options` | an optional value (`std::optional`) |
| `permutations.dfy` | `Permutations` | permutations as lists, permuting, flattening |
| `shapes.dfy` | `Shapes` | products of sizes, row-major linearisation |
| `dense_array.dfy` | `DenseArrays` | the dense array of device ids |
| `canonicalize.dfy` | `Canonicalization` | `CanonicalizeIotaDims` |
| `transpose_kind.dfy` | `TransposeKinds` | `GetTransposeKind` |
| `transpose_algebra.dfy` | `TransposeAlgebra` | what dropping size-1 axes, merging runs and composing permutations do to the transposed count-up |
| `decanonicalize.dfy` | `Decanonicalization` | `FullyDecanonicalize` |
| `iota.dfy` | `Iota` | `IotaTileAssignment`: `Create`, `ToArray`, `value_at` |
| `iota_transpose.dfy` | `IotaTranspose` | `IotaTileAssignment::Transpose` |
| `text.dfy` | `Printing` | `IotaTileAssignment::Print` |
| `tile_assignment.dfy` | `TileAssignments` | the `TileAssignment` class |

Every source path below is relative to the repository root.

## Model

| member | source | states |
|---|---|---|
| Permutations.PermutationCompose | third_party/xla/xla/hlo/ir/tile_assignment.cc:304-311 | composing two permutations of the same length gives a permutation, so the composed transpose permutation is again a permutation |
| Permutations.FlattenPermuted | third_party/xla/xla/hlo/ir/tile_assignment.cc:416-428 | concatenating groups taken in permuted order keeps the same multiset of entries as concatenating them in order |
| Shapes.LinearizeDelinearize | third_party/xla/xla/hlo/ir/tile_assignment.cc:452-475 | turning a flat offset below the product of the sizes into a row-major index and back gives the offset again |
| Shapes.DelinearizeLinearize | third_party/xla/xla/hlo/ir/tile_assignment.cc:452-475 | turning an in-bounds index into a row-major offset and back gives the index again |
| Shapes.LinearizeBound | third_party/xla/xla/hlo/ir/tile_assignment.cc:454-459 | the row-major offset of an in-bounds index is below the product of the sizes |
| Shapes.DelinearizeInBounds | third_party/xla/xla/hlo/ir/tile_assignment.cc:463-468 | the index recovered from an offset below the product is in bounds |
| Shapes.ProductPermute | third_party/xla/xla/hlo/ir/tile_assignment.cc:272-275 | permuting the sizes keeps their product, so the transposed sizes describe the same number of devices |
| Shapes.ProductMultiset | third_party/xla/xla/hlo/ir/tile_assignment.cc:99-109 | two size lists with the same multiset of entries have the same product |
| DenseArrays.IotaArray | third_party/xla/xla/hlo/ir/tile_assignment.cc:220-221 | the filled array is well formed, has the given sizes, and holds k at flat position k |
| DenseArrays.Reshape | third_party/xla/xla/hlo/ir/tile_assignment.cc:223 | reshaping to sizes of the same product keeps the elements in the same order under the new sizes |
| DenseArrays.TransposeDimensions | third_party/xla/xla/hlo/ir/tile_assignment.cc:222 | the transposed array is well formed and its sizes are the permuted sizes |
| DenseArrays.TransposeAt | third_party/xla/xla/hlo/ir/tile_assignment.cc:222 | the transposed array at index i holds the original array at i scattered back through the permutation |
| Canonicalization.NumberNonUnitDims | third_party/xla/xla/hlo/ir/tile_assignment.cc:67-75 | fills the old-to-new table, which is -1 for a size-1 axis and otherwise the number of non-unit axes before it, and returns how many non-unit axes there are |
| Canonicalization.RemoveUnitDims | third_party/xla/xla/hlo/ir/tile_assignment.cc:66-92 | afterwards the array prefix holds exactly the non-unit sizes, and the permutation is renumbered onto them with the unit axes left out |
| Canonicalization.MergeRuns | third_party/xla/xla/hlo/ir/tile_assignment.cc:93-109 | the in-place merge sweep computes the merge function, which reports whether any run was merged |
| Canonicalization.MergeNothingIff | third_party/xla/xla/hlo/ir/tile_assignment.cc:99-112 | a merge sweep changes nothing exactly when no two consecutive permutation entries count up by one |
| Canonicalization.MergeFromProduct | third_party/xla/xla/hlo/ir/tile_assignment.cc:99-109 | merging keeps every size positive and keeps the product of the sizes |
| Canonicalization.DropUnitSizesFacts | third_party/xla/xla/hlo/ir/tile_assignment.cc:66-92 | dropping the size-1 axes keeps every size positive and keeps the product |
| Canonicalization.RenumberPermutation | third_party/xla/xla/hlo/ir/tile_assignment.cc:83-90 | the renumbered permutation is a permutation of the remaining axes |
| Canonicalization.CanonLoopFacts | third_party/xla/xla/hlo/ir/tile_assignment.cc:64-113 | the drop-and-merge loop ends with a permutation of the remaining axes, positive sizes of the same product, no size-1 axis, no mergeable run, and no more axes than it started with |
| Canonicalization.CanonicalizeIotaDims | third_party/xla/xla/hlo/ir/tile_assignment.cc:58-114 | the in-place algorithm leaves in the array prefixes exactly the canonical form of the original sizes and permutation |
| Canonicalization.CanonicalizeFacts | third_party/xla/xla/hlo/ir/tile_assignment.cc:58-114 | the canonical form is a permutation over positive sizes with the same product, it is canonical (at most one axis, or no size-1 axis and no mergeable run), and it is never longer |
| Canonicalization.CanonicalizeIdempotent | third_party/xla/xla/hlo/ir/tile_assignment.cc:58-114 | canonicalising a canonical form changes nothing |
| Canonicalization.CanonicalizeCanonical | third_party/xla/xla/hlo/ir/tile_assignment.cc:58-114 | a form that is already canonical is returned unchanged |
| Canonicalization.CanonicalizeAllUnit | third_party/xla/xla/hlo/ir/tile_assignment.cc:58-114 | two or more axes that all have size 1 canonicalise to the empty form |
| TransposeKinds.GetTransposeKind | third_party/xla/xla/hlo/ir/tile_assignment.cc:122-136 | the one-pass classification equals the declarative one: Transpose iff two non-unit axes change order; otherwise Reshape iff some position takes a size-1 axis from elsewhere while its own axis has another size; otherwise Noop |
| TransposeKinds.NoReorderIff | third_party/xla/xla/hlo/ir/tile_assignment.cc:116-136 | a permutation keeps the non-unit axes in order iff, with the unit axes dropped, it is the identity |
| TransposeKinds.NoReorderKeepsNonUnitSizes | third_party/xla/xla/hlo/ir/tile_assignment.cc:116-136 | when the kind is not Transpose, the permuted sizes have the same non-unit sizes in the same order (that the flat order of the devices is unchanged is TransposeAlgebra.NoReorderKeepsValues) |
| TransposeKinds.NoopKeepsDims | third_party/xla/xla/hlo/ir/tile_assignment.cc:271 | a Noop permutation leaves the sizes unchanged (that the array is unchanged is TransposeAlgebra.NoopKeepsArray) |
| TransposeKinds.NoopIffSameDims | third_party/xla/xla/hlo/ir/tile_assignment.cc:116-136 | outside Transpose, the kind is Noop exactly when permuting leaves the sizes unchanged |
| TransposeKinds.DropPermuteCommute | third_party/xla/xla/hlo/ir/tile_assignment.cc:304-309 | dropping the unit sizes after permuting equals permuting the dropped sizes by the renumbered permutation |
| TransposeAlgebra.UnitAxesOffset | third_party/xla/xla/hlo/ir/tile_assignment.cc:66-92 | dropping the size-1 axes and renumbering the permutation leaves the element read at every offset of the transposed count-up unchanged |
| TransposeAlgebra.NoReorderOffset | third_party/xla/xla/hlo/ir/tile_assignment.cc:116-136 | a permutation that keeps the non-unit axes in order reads every element in place |
| TransposeAlgebra.NoReorderKeepsValues | third_party/xla/xla/hlo/ir/tile_assignment.cc:276-279 | a permutation that is not a real transpose keeps the flat order of the elements, so re-creating the same reshape form under the permuted sizes is right |
| TransposeAlgebra.NoopKeepsArray | third_party/xla/xla/hlo/ir/tile_assignment.cc:271 | transposing by a Noop permutation gives back the same array, so returning the assignment itself is right |
| TransposeAlgebra.FoldOffset | third_party/xla/xla/hlo/ir/tile_assignment.cc:99-107 | folding the next axis of a run into the run's first axis keeps the sizes positive, the product, and the element read at every offset |
| TransposeAlgebra.MergeFromOffset | third_party/xla/xla/hlo/ir/tile_assignment.cc:93-109 | a whole merge sweep keeps the sizes positive, the product, and the element read at every offset |
| TransposeAlgebra.CanonLoopOffset | third_party/xla/xla/hlo/ir/tile_assignment.cc:64-113 | the drop-and-merge rounds end with a permutation over positive sizes of the same product that reads the same element at every offset |
| TransposeAlgebra.CanonicalizeOffset | third_party/xla/xla/hlo/ir/tile_assignment.cc:58-114 | the canonical pair stands for the same transposed count-up as the pair it came from |
| TransposeAlgebra.ComposeOffset | third_party/xla/xla/hlo/ir/tile_assignment.cc:304-311 | reading through a transpose by P of a transpose by q reads, at every offset, what one transpose by the composed permutation reads |
| TransposeAlgebra.TransposeTwice | third_party/xla/xla/hlo/ir/tile_assignment.cc:304-311 | transposing an array by P and then by q is transposing it once by the composed permutation |
| Decanonicalization.SmallestFactor | third_party/xla/xla/hlo/ir/tile_assignment.cc:153-168 | the reference factor of x >= 2 divides x, lies between 2 and x, and no number from 2 below it divides x |
| Decanonicalization.PrimeFactorsCorrect | third_party/xla/xla/hlo/ir/tile_assignment.cc:146-168 | the reference factor list of x multiplies to x and holds only primes, so every factor is at least 2 |
| Decanonicalization.DivideOut | third_party/xla/xla/hlo/ir/tile_assignment.cc:159-164 | dividing out an odd trial divisor leaves an odd remainder with no divisor below the next trial; the peeled factors followed by the factors of the remainder are the factors of the input |
| Decanonicalization.PrimeFactorsOf | third_party/xla/xla/hlo/ir/tile_assignment.cc:153-168 | trial division (first 2, then odd i while i*i <= rest, then the prime left over) yields exactly the prime factorisation in ascending order |
| Decanonicalization.FactorDims | third_party/xla/xla/hlo/ir/tile_assignment.cc:152-170 | the new reshape sizes are the factor lists of each size, concatenated, and the offset table marks where each original size's factors start and end |
| Decanonicalization.AppendBlock | third_party/xla/xla/hlo/ir/tile_assignment.cc:179-185 | appends one original axis's block of factor positions to the permutation and origin lists and keeps the position table exact |
| Decanonicalization.ExpandPermutation | third_party/xla/xla/hlo/ir/tile_assignment.cc:171-186 | the new permutation lists each original axis's factor block in permuted order; each entry's origin is its original axis; the table lists, per original axis, exactly the positions with that origin |
| Decanonicalization.FullyDecanonicalize | third_party/xla/xla/hlo/ir/tile_assignment.cc:148-188 | the four result fields are the concatenated factor lists, the block-expanded permutation, the origin of each entry, and the per-axis positions table |
| Decanonicalization.FactorsProduct | third_party/xla/xla/hlo/ir/tile_assignment.cc:148-170 | the factored sizes have the same product as the original sizes |
| Decanonicalization.FactorsPrime | third_party/xla/xla/hlo/ir/tile_assignment.cc:148-170 | every factored size is prime |
| Decanonicalization.BlocksCoverRange | third_party/xla/xla/hlo/ir/tile_assignment.cc:169-181 | the factor blocks of the original axes, in order, cover 0 .. n-1 exactly once, n being the number of factors |
| Decanonicalization.ExpandedPermutation | third_party/xla/xla/hlo/ir/tile_assignment.cc:177-186 | expanding a permutation by blocks gives a permutation of all the factors |
| Decanonicalization.ExpandedEntriesInBlocks | third_party/xla/xla/hlo/ir/tile_assignment.cc:177-186 | each entry of the expanded permutation lies in the factor block of the original axis its origin names |
| Decanonicalization.PositionsCorrect | third_party/xla/xla/hlo/ir/tile_assignment.cc:183-184 | the positions listed for a value are exactly the positions holding it, in increasing order |
| Iota.ToArray | third_party/xla/xla/hlo/ir/tile_assignment.cc:217-229 | the materialised array is well formed and has the assignment's sizes |
| Iota.CreateFromDims | third_party/xla/xla/hlo/ir/tile_assignment.cc:192-195 | the one-reshape-axis form of positive sizes is well formed and has those sizes |
| Iota.CreateFromDimsCountsUp | third_party/xla/xla/hlo/ir/tile_assignment.cc:192-195 | its array is the plain count-up array 0, 1, 2, ... under the given sizes |
| Iota.Create | third_party/xla/xla/hlo/ir/tile_assignment.cc:197-214 | copies, canonicalises in place, and gives the canonical form, or reshape sizes [1] with permutation [0] when nothing is left |
| Iota.CreatedArray | third_party/xla/xla/hlo/ir/tile_assignment.cc:197-214 | the created assignment stands for the count-up over the given reshape sizes, transposed by the given permutation and read under the given sizes: canonicalising, and the [1]/[0] fallback, keep the array |
| Iota.CreatedValid | third_party/xla/xla/hlo/ir/tile_assignment.cc:197-214 | the created assignment is well formed: its sizes are the given ones, and its reshape form is canonical and no longer than the given one |
| Iota.CreateCanonicalUnchanged | third_party/xla/xla/hlo/ir/tile_assignment.cc:197-214 | creating from a form that is already canonical keeps it as given |
| Iota.CreateIdempotent | third_party/xla/xla/hlo/ir/tile_assignment.cc:197-214 | creating again from a created assignment's reshape form gives the same assignment |
| Iota.CreateAllUnit | third_party/xla/xla/hlo/ir/tile_assignment.cc:207-212 | reshape sizes that are all 1 (two or more of them) become [1] with permutation [0] |
| Iota.LinearIndex | third_party/xla/xla/hlo/ir/tile_assignment.cc:454-459 | the Horner loop computes the row-major offset of the index |
| Iota.ReshapeIndex | third_party/xla/xla/hlo/ir/tile_assignment.cc:460-468 | the minor-to-major division loop gives the index, in the reshape axes, of the element at that offset of the transposed array |
| Iota.ValueAt | third_party/xla/xla/hlo/ir/tile_assignment.cc:452-475 | the element computed directly from the index equals the materialised array's element at that index, and is below the number of devices |
| Iota.ElementAt | third_party/xla/xla/hlo/ir/tile_assignment.cc:452-475 | the array's element at an index is the count-up value at the source offset of its row-major offset |
| Iota.ValuesInRange | third_party/xla/xla/hlo/ir/tile_assignment.cc:217-225 | every element of the array is a device id from 0 to the element count minus 1 |
| Iota.FirstIsZero | third_party/xla/xla/hlo/ir/tile_assignment.cc:552-555 | the array is non-empty and its first element is 0 |
| Iota.EveryDeviceOccurs | third_party/xla/xla/hlo/ir/tile_assignment.cc:217-225 | every id below the element count occurs in the array |
| Iota.OccursIff | third_party/xla/xla/hlo/ir/tile_assignment.cc:629-632 | an id occurs in the array iff 0 <= id < element count |
| IotaTranspose.PermuteDims | third_party/xla/xla/hlo/ir/tile_assignment.cc:272-275 | the loop builds the permuted sizes |
| IotaTranspose.ScanNonUnitDims | third_party/xla/xla/hlo/ir/tile_assignment.cc:283-301 | the scan returns the non-unit sizes and the map from each axis to its non-unit position (or -1). The pure flag is set iff there are at most as many non-unit sizes as reshape axes and the i-th non-unit size equals the size of the reshape axis the permutation puts at i |
| IotaTranspose.PurePerm | third_party/xla/xla/hlo/ir/tile_assignment.cc:304-309 | the new permutation is the old transpose permutation composed with the renumbered (unit axes dropped) axis permutation |
| IotaTranspose.PureTransposeMatches | third_party/xla/xla/hlo/ir/tile_assignment.cc:302-303 | in the pure case the non-unit sizes are exactly the transposed reshape sizes, so there are as many of them as reshape axes |
| IotaTranspose.PureTransposePerm | third_party/xla/xla/hlo/ir/tile_assignment.cc:304-310 | the composed permutation is a permutation of the reshape axes |
| IotaTranspose.PureTransposeStaysPure | third_party/xla/xla/hlo/ir/tile_assignment.cc:302-311 | the non-unit sizes of the transposed sizes are the reshape sizes under the composed permutation, so the result is again a pure transpose |
| IotaTranspose.NoReorderArray | third_party/xla/xla/hlo/ir/tile_assignment.cc:276-279 | on the Reshape path, re-creating the reshape form under the permuted sizes stands for the dense transpose of the input's array |
| IotaTranspose.SingleReshapeArray | third_party/xla/xla/hlo/ir/tile_assignment.cc:280-282 | with one reshape axis, creating from the sizes and the axis permutation stands for the dense transpose of the input's array |
| IotaTranspose.PureTransposeOffset | third_party/xla/xla/hlo/ir/tile_assignment.cc:302-311 | in the pure case, the count-up transposed by the composed permutation reads, at every offset, what the dense transpose of the input's array reads |
| IotaTranspose.PureTransposeArray | third_party/xla/xla/hlo/ir/tile_assignment.cc:302-312 | the pure result stands for the dense transpose of the input's array |
| IotaTranspose.GenerateCandidate | third_party/xla/xla/hlo/ir/tile_assignment.cc:360-390 | a found candidate is the current factor position, and after at most one swap within the same original axis its factor divides the target. With no candidate nothing was swapped: the current factor does not divide the target, and neither does any later factor of the same original axis |
| IotaTranspose.StartGroup | third_party/xla/xla/hlo/ir/tile_assignment.cc:395-397 | the first candidate for a new target is the current factor position and divides the whole target, after at most one swap within the same original axis. With no candidate the grouping is stuck at that position: neither the current factor nor any later factor of the same original axis divides the target |
| IotaTranspose.FillGroup | third_party/xla/xla/hlo/ir/tile_assignment.cc:395-406 | taking candidates for one target keeps the factors a rearrangement within each original axis, keeps the groups consecutive slices of the factor permutation, and leaves what is left of the target times the group's factor product equal to the target. When it stops before the end of the factor permutation it is stuck there: the next factor does not divide what is left, and neither does any later factor of the same original axis |
| IotaTranspose.GroupFactors | third_party/xla/xla/hlo/ir/tile_assignment.cc:391-415 | when grouping succeeds, the groups, in order, are the whole factor permutation, and each group's factors multiply to its target size. When it fails, the groups before some target are complete, that target is left with a remainder other than 1, and the factor permutation is used up or stuck |
| IotaTranspose.GroupingComplete | third_party/xla/xla/hlo/ir/tile_assignment.cc:391-415 | when every target so far is matched and the factors have the same product as the targets, the loop ends with both every target and every factor used |
| IotaTranspose.FlattenGroups | third_party/xla/xla/hlo/ir/tile_assignment.cc:416-426 | the flattened permutation lists the groups of the non-unit axes in the order the axis permutation takes them |
| IotaTranspose.RegroupedPermutation | third_party/xla/xla/hlo/ir/tile_assignment.cc:416-428 | the flattened permutation is a permutation of all the factors |
| IotaTranspose.RegroupedValid | third_party/xla/xla/hlo/ir/tile_assignment.cc:427-430 | the regrouped result is a well-formed assignment whose sizes are the permuted sizes |
| IotaTranspose.RegroupedMatchesNewDims | third_party/xla/xla/hlo/ir/tile_assignment.cc:391-430 | taken in the permuted order, the groups multiply to the non-unit sizes of the permuted sizes |
| IotaTranspose.RegroupTranspose | third_party/xla/xla/hlo/ir/tile_assignment.cc:314-430 | a result of the general path is the creation from the rearranged prime factors and the flattened group permutation, and the grouping it rests on holds. No result means grouping failed as described for GroupFactors, over the positions of each reshape axis in the expanded permutation |
| IotaTranspose.PureTranspose | third_party/xla/xla/hlo/ir/tile_assignment.cc:302-312 | the pure path keeps the reshape dimensions, renumbers the permutation onto the non-unit axes, and gives a well-formed assignment with the permuted sizes that stands for the dense transpose of the input's array |
| IotaTranspose.Transpose | third_party/xla/xla/hlo/ir/tile_assignment.cc:266-431 | any result is well formed with the permuted sizes. By case: Noop returns the input; Reshape re-creates it under the new sizes; one reshape axis creates from (dims, perm); the pure case gives the pure result; the general path gives the regrouped result. Only the general path can fail, and only when grouping fails. On every path but the general one the result stands for the dense transpose of the input's array |
| Printing.Print | third_party/xla/xla/hlo/ir/tile_assignment.cc:433-444 | the text opens with `[`, and its first `]` closes the sizes and is followed by `<=[`. Its partners are ReadBackPrint (the text reads back as the assignment) and PrintInjective (different assignments print differently) |
| Printing.Decimal | third_party/xla/xla/hlo/ir/tile_assignment.cc:435 | a number prints as a non-empty string of digits |
| Printing.ReadDecimalRoundTrip | third_party/xla/xla/hlo/ir/tile_assignment.cc:435 | reading a printed number gives the number back |
| Printing.Join | third_party/xla/xla/hlo/ir/tile_assignment.cc:435-441 | a joined list holds only digits and commas |
| Printing.ReadListJoin | third_party/xla/xla/hlo/ir/tile_assignment.cc:435-441 | reading a comma-joined list gives the list back, the empty list included |
| Printing.ReadBackPrint | third_party/xla/xla/hlo/ir/tile_assignment.cc:433-444 | reading back the text of a well-formed assignment gives the assignment, although the permutation clause is omitted for a single reshape axis |
| Printing.PrintInjective | third_party/xla/xla/hlo/ir/tile_assignment.cc:433-444 | two well-formed assignments with the same text are equal |
| TileAssignments.AsWrittenAcceptsNegative | third_party/xla/xla/hlo/ir/tile_assignment.cc:629-630 | the iota-form test as written reports device -1 as used although -1 is not in the assignment's array |
| TileAssignments.IotaUsesDevice | third_party/xla/xla/hlo/ir/tile_assignment.cc:629-630 | the corrected iota-form test holds iff the device is in the array the assignment stands for |
| TileAssignments.TryIotaTranspose | third_party/xla/xla/hlo/ir/tile_assignment.cc:600-605 | an iota transpose result is well formed with the permuted sizes and, unless it comes from the general path, stands for the dense transpose; no result means a real transpose, more than one reshape axis, not the pure case, and failed grouping |
| TileAssignments.TileAssignment.FromIota | third_party/xla/xla/hlo/ir/tile_assignment.cc:584-587 | an assignment built from an iota form has no array yet and stands for that form's array |
| TileAssignments.TileAssignment.FromArray | third_party/xla/xla/hlo/ir/tile_assignment.cc:591 | an assignment built from an array has no iota form and stands for that array |
| TileAssignments.TileAssignment.Copy | third_party/xla/xla/hlo/ir/tile_assignment.cc:477-482 | a copy shares the iota form and the materialised array and stands for the same array |
| TileAssignments.TileAssignment.MaybeMaterializeFullArray | third_party/xla/xla/hlo/ir/tile_assignment.cc:651-659 | afterwards the array is materialised and equals what the assignment stands for, and an array already present is kept |
| TileAssignments.TileAssignment.GetArray | third_party/xla/xla/hlo/ir/tile_assignment.cc:634-649 | returns the array the assignment stands for, materialising it if needed, without changing what it stands for |
| TileAssignments.TileAssignment.Get | third_party/xla/xla/hlo/ir/tile_assignment.cc:528-531 | the device at an index, read from the array or computed from the iota form, is the element of the array the assignment stands for |
| TileAssignments.TileAssignment.Dimensions | third_party/xla/xla/hlo/ir/tile_assignment.cc:533-536 | the sizes reported from either representation are the sizes of the array the assignment stands for |
| TileAssignments.TileAssignment.NumElements | third_party/xla/xla/hlo/ir/tile_assignment.cc:547-550 | the count reported is both the array's length and the product of its sizes |
| TileAssignments.TileAssignment.First | third_party/xla/xla/hlo/ir/tile_assignment.cc:552-555 | the array is non-empty and the reported device, 0 when nothing is materialised, is its first element |
| TileAssignments.TileAssignment.UsesDevice | third_party/xla/xla/hlo/ir/tile_assignment.cc:629-632 | the device test holds iff the device occurs in the array the assignment stands for, in both representations |
| TileAssignments.TileAssignment.Equals | third_party/xla/xla/hlo/ir/tile_assignment.cc:521-526 | with two iota forms, the forms are compared; otherwise the two arrays are compared; neither assignment changes what it stands for |
| TileAssignments.TileAssignment.Reshape | third_party/xla/xla/hlo/ir/tile_assignment.cc:580-592 | the new assignment stands for the same devices in the same order under the new sizes; an iota form keeps its reshape sizes and permutation |
| TileAssignments.TileAssignment.Transpose | third_party/xla/xla/hlo/ir/tile_assignment.cc:594-609 | the result has the permuted sizes. A Noop permutation gives a copy. Otherwise the iota result is used when there is one, and the result falls back to the dense transpose of the full array only when there is no iota form or the iota transpose failed, which happens only on the general path. On every path but a successful general iota one, the result stands for the dense transpose of the original array |

## Left out

- Locking (`absl::Mutex`), `shared_ptr` ownership, the packed byte storage of the iota form, and the copy and move assignment operators (`tile_assignment.cc:231-264, 484-519`). These concern memory and concurrency, not the values. The model keeps one optional array field that is filled at most once.
- `Each` and `EachStatus` (`tile_assignment.cc:557-578`). They only hand every element to a caller's callback after `MaybeMaterializeFullArray`, which is modelled.
- `TileAssignment::Print` and `ToString` (`tile_assignment.cc:611-627`) for the dense form, and the `devices=` prefix. Only the iota text form is modelled. `Printing.ReadBack` is a reference reader written to state the round trip; the source has no such operation.
- `num_dimensions` and `dim(n)` (`tile_assignment.cc:538-546`) are the length and an entry of `Dimensions`.
- Integer widths: the model uses unbounded integers. It leaves out 64-bit overflow of products and offsets, the `int` truncation of `dim_size` in `value_at`, and the `int i; i * i` overflow in the trial division.
- Debug checks (`DCHECK`) become preconditions. For example, `IsPermutation(transpose_perm, |reshape_dims|)` and equal element counts.
- Iota.ValueAt: requires at least one dimension, because the source reads `index[0]` unconditionally.
- Iota.Valid: also requires the reshape form to be canonical and every size to be positive. Every iota form the modelled operations build has these properties. The public constructor at `tile_assignment.cc:248-259` does not canonicalise, and forms built directly through it are not modelled. With a size of 0, the trial division in `FullyDecanonicalize` does not terminate.
- Canonicalization.CanonicalizeIotaDims: requires every reshape size to be positive, while the source accepts a size of 0. Every iota form the modelled operations build has positive sizes, and the array facts about canonicalisation rely on a positive product.
- Iota.Create: requires positive reshape sizes for the same reason. With a size of 0, the trial division in `FullyDecanonicalize` would not terminate on the general transpose path.
- IotaTranspose.Transpose: on the general regrouping path, the result is not proved to stand for the dense transpose of the input's array. That would need three array facts that are not proved: splitting every reshape axis into its prime factors keeps the array; the look-ahead swaps of two factors of one axis keep it; and transposing the factor groups as blocks is the transpose of the non-unit axes.
- IotaTranspose.Transpose: the failure case is stated as the state grouping stopped in (`RegroupFailed`), not as a closed-form condition on the input sizes and permutation.
- IotaTranspose.Transpose: the `CHECK_LE` at `tile_assignment.cc:324` is not proved. It needs unique prime factorisation to show that there are no more non-unit sizes than prime factors. The `CHECK_EQ` at lines 427-428 is established through `RegroupedPermutation`.
- TileAssignments.TileAssignment.Transpose: for the same reason, an iota result of the general path is not proved to stand for the same array as the dense fallback would.
- TileAssignments.TileAssignment.Equals: comparing two iota forms is not proved to agree with comparing their arrays.
- The by-reference captures of the `generate_candidate` lambda are modelled as parameters passed in and results returned.
- `absl::c_linear_search` is modelled as sequence membership.

## Findings

| source | as written | input that shows it | evidently intended | confidence | as-written member | corrected member |
|---|---|---|---|---|---|---|
| third_party/xla/xla/hlo/ir/tile_assignment.cc:630 | the iota-form `UsesDevice` checks only `device < num_elements()` | device -1 with any iota assignment, e.g. `[4]<=[4]`: reported as used, while the dense form of the same assignment reports it as unused | `0 <= device && device < num_elements()`, matching the dense branch | low (device ids are non-negative by convention); not executed | TileAssignments.IotaUsesDeviceAsWritten, TileAssignments.AsWrittenAcceptsNegative | TileAssignments.IotaUsesDevice, used by TileAssignments.TileAssignment.UsesDevice |
