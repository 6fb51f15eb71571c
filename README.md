# Vietoris–Rips persistent homology over Z/2, modelled in Dafny

This project models the combinatorial core of a small Python library for
topological data analysis. It has four layers.

1. **Simplices and complexes.**
   - A simplex is a finite set of vertex numbers.
   - A simplicial complex keeps its simplices in a dictionary from dimension to set.
   - A filtered complex also keeps a weight for every simplex. Its checked insertion refuses a simplex with a missing facet or with a facet heavier than the new simplex.
   - The filtered complex also answers the filtration ordering, the weight ordering, edge neighbours and `cap`.
2. **Vietoris–Rips construction.**
   - The skeleton builder adds every point as a vertex of weight 0, and every pair closer than epsilon as an edge weighted by its distance.
   - Three expansion strategies then fill in the cliques of the edge graph up to a given dimension, each weighted by its heaviest facet:
     - brute force over combinations of faces;
     - incremental, with an explicit work stack;
     - inductive, dimension by dimension.
3. **Persistence diagrams.** A dictionary from dimension to a Counter of frozen persistence points, with a running point count.
4. **Persistence reductions.** The standard Z/2 column reduction of the boundary matrix (Zomorodian and Carlsson, "Computing Persistent Homology", 2005), in four variants:
   - dense, in-place on a 0/1 matrix (PersHom1);
   - sparse, on sets of rows (PersHom2);
   - the earlier three-stage dense reducer with per-dimension lists (PersHomZ2Old);
   - a cocycle-based dual algorithm (PersHom4).

Each source file has its own module. Values are datatypes and functions. Objects whose fields the source updates are classes with `modifies` frames. Every loop is a method, proved against a ghost specification function. The main results are these:

- **Expansions.** Each expansion strategy is proved to build the clique complex of the skeleton's edge graph up to the requested dimension, weighted by the maximum of the facet weights. So the three strategies agree on every skeleton whose metric is non-negative and symmetric. Brute force agrees with the inductive strategy for a non-negative metric (`BruteForceCliques.BruteForceAgreesWithInductive`), because it starts its maximum at 0. The incremental strategy agrees with the inductive one for a symmetric metric (`IncrementalCliques.StrategiesAgree`), because it re-weighs each edge by the metric of its endpoints in set order, while the skeleton uses `metric(i, j)` with i < j. Each result is a filtration (`IncrementalCliques.SkeletonThenExpansion`, `BruteForceCliques.SkeletonThenBruteForce`).
- **Column reduction.** `ColumnReduction.Reduce` is the column reduction written as a function. The dense reducer (PersHom1, PersHomZ2Old) and the sparse reducer (PersHom2) are proved to compute exactly it. Built on the same ordering and weights, PersHom1 and PersHom2 therefore reduce the same matrix and yield the same pairing and the same diagram (`SparsePersistence.DenseAndSparseAgree`).
- **PersHom4.** It is proved against its own cocycle-run specification `CocyclePersistence.CoRun`, which keeps its invariants: every cocycle holds its own index, cocycles only grow, and there is one pair per column.
- **PersHomZ2Old dimensions.** Reduction of a graded boundary stays graded (`ColumnReduction.ReduceGraded`). So every pair joins a simplex to one exactly one dimension higher (`OldPersistence.PairDimensions`). PersHomZ2Old files each pair under the dimension of its column's simplex, while PersHom1 and PersHom2 file it under its row's simplex. So PersHomZ2Old lists every pair one dimension higher than the other reducers.

Weights are `real`; they are only compared and maximised. The metric is an uninterpreted function `(nat, nat) -> real` on point indices.

## Model

| member | source | states |
|---|---|---|
| Simplices.Simplex.Dim | Complexes/Simplex.py:43-45 | the dimension is the number of vertices minus one; it is -1 exactly for the empty simplex |
| Simplices.Simplex.Facets | Complexes/Simplex.py:52-55 | a simplex is a facet iff it is this simplex with exactly one vertex removed |
| Simplices.FacetCount | Complexes/Simplex.py:52-55 | there are exactly as many facets as vertices, and each has dimension one less |
| Simplices.FacetIffSubsetOneSmaller | Complexes/Simplex.py:52-55 | the facets are exactly the sub-simplices with one dimension less |
| Simplices.Simplex.Plus | Complexes/Simplex.py:38-41 | `s + v` holds v and the vertices of s and nothing else; its dimension grows by one iff v was not a vertex, and otherwise it equals s |
| Simplices.Simplex.Intersect | Complexes/Simplex.py:67-69 | vertex-set intersection; the result has dimension -1 iff the two simplices are disjoint |
| Simplices.Simplex.Union | Complexes/Simplex.py:71-75 | the union contains this simplex and every argument, and each of its vertices comes from one of them |
| Simplices.Simplex.PFaces | Complexes/Simplex.py:63-65 | fails exactly for p < -1, where `combinations` raises; otherwise `p_faces(p)` is exactly the set of sub-simplices of dimension p |
| Simplices.FacetsArePFaces | Complexes/Simplex.py:52-65 | for a non-empty simplex `p_faces(dim - 1)` succeeds and yields exactly its facets |
| DimIndex.BucketIsDimensionSlice | Complexes/FilteredSimplicialComplex.py:51-55 | the set under key p is exactly the stored simplices of dimension p, and empty for an absent key |
| DimIndex.MemberIsInOwnBucket | Complexes/SimplicialComplex.py:22-28 | a simplex is stored iff its dimension is a key and it is in that key's set |
| DimIndex.InsertAdds | Complexes/SimplicialComplex.py:41-44 | filing a simplex under its dimension keeps the index by dimension and adds exactly that simplex |
| DimIndex.Canonical | Complexes/FilteredSimplicialComplex.py:33-38 | two dictionaries by dimension are equal iff they hold the same simplices |
| Extrema.Max | Complexes/FilteredSimplicialComplex.py:40-42 | `max` of a non-empty set is an element that no element exceeds |
| Extrema.Min | PersistentHomology/PersHom4.py:86-88 | `min` of a non-empty set is an element that exceeds no element |
| Sorting.ListOf | Complexes/FilteredSimplicialComplex.py:107-112 | listing a set yields each element exactly once |
| Sorting.SortBy | Complexes/FilteredSimplicialComplex.py:107-112 | the result is sorted by ascending key and is a permutation of the input |
| Sorting.AscendingUnique | Complexes/FilteredSimplicialComplex.py:114-115 | two ascending sequences holding the same values are equal |
| SimplicialComplexes.SimplicialComplex.constructor | Complexes/SimplicialComplex.py:10-13 | a new complex is empty and keeps the `check_valid` flag |
| SimplicialComplexes.SimplicialComplex.Contains | Complexes/SimplicialComplex.py:22-28 | membership is exactly being stored, and it is false when the simplex's dimension has no entry |
| SimplicialComplexes.SimplicialComplex.Dim | Complexes/SimplicialComplex.py:30-32 | the dimension of a non-empty complex is attained by a stored simplex and bounds all of them |
| SimplicialComplexes.SimplicialComplex.Size | Complexes/SimplicialComplex.py:34-39 | the per-dimension sizes add up to the number of stored simplices |
| SimplicialComplexes.SimplicialComplex.AddVertex | Complexes/SimplicialComplex.py:41-44 | the simplex is filed under its dimension; the stored simplices grow by exactly it |
| SimplicialComplexes.SimplicialComplex.AddSimplex | Complexes/SimplicialComplex.py:46-56 | it fails iff checking is on, the simplex is not a vertex and some facet is missing; a failure changes nothing; a success adds exactly the simplex |
| SimplicialComplexes.ReAddIsIdempotent | Complexes/SimplicialComplex.py:43-44 | adding a simplex that is already stored leaves the dictionary unchanged |
| FilteredComplexes.FilteredComplex.constructor | Complexes/FilteredSimplicialComplex.py:12-16 | a new filtered complex has no simplices and no weights and keeps the `check_valid` flag |
| FilteredComplexes.FilteredComplex.Contains | Complexes/FilteredSimplicialComplex.py:25-31 | membership is exactly being stored, and it is false when the simplex's dimension has no entry |
| FilteredComplexes.FilteredComplex.Equals | Complexes/FilteredSimplicialComplex.py:33-38 | two complexes are equal iff their weight maps are equal (the simplex dictionaries follow) |
| FilteredComplexes.FilteredComplex.Dim | Complexes/FilteredSimplicialComplex.py:40-42 | the dimension of a non-empty complex is attained by a stored simplex and bounds all of them |
| FilteredComplexes.FilteredComplex.Size | Complexes/FilteredSimplicialComplex.py:44-49 | the per-dimension sizes add up to the number of stored simplices |
| FilteredComplexes.FilteredComplex.PSimplices | Complexes/FilteredSimplicialComplex.py:51-55 | `p_simplices(p)` is exactly the stored simplices of dimension p |
| FilteredComplexes.FilteredComplex.Put | Complexes/FilteredSimplicialComplex.py:57-61 | the simplex is filed under its dimension and given the weight, overwriting an old weight; nothing else changes |
| FilteredComplexes.FilteredComplex.AddSimplex | Complexes/FilteredSimplicialComplex.py:63-76 | a vertex is always inserted. With checking on, a higher simplex fails with MissingFacet when a facet is absent and with HeavierFacet when a facet weighs more. A failure changes nothing; a success stores the simplex with its weight. A checked insertion of a new simplex keeps the complex a filtration |
| FilteredComplexes.FilteredComplex.CheckFacets | Complexes/FilteredSimplicialComplex.py:67-75 | the facet loop passes iff every facet is stored and weighs at most the new weight, and each error names a facet that shows it |
| FilteredComplexes.CheckedInsertKeepsFiltration | Complexes/FilteredSimplicialComplex.py:63-76 | inserting a new simplex whose facets fit keeps every facet no heavier than its simplex |
| FilteredComplexes.FilteredComplex.GetWeight | Complexes/FilteredSimplicialComplex.py:78-83 | the stored weight of a stored simplex, and NotInComplex exactly for an absent one |
| FilteredComplexes.FilteredComplex.PSimplexCount | Complexes/FilteredSimplicialComplex.py:85-88 | the number of stored simplices of dimension p, and 0 for an absent dimension |
| FilteredComplexes.FilteredComplex.Reweight | Complexes/FilteredSimplicialComplex.py:100-105 | it fails iff the simplex is absent, and a failure changes nothing; otherwise only that simplex's weight changes, never the simplex sets |
| FilteredComplexes.FilteredComplex.GetEdgeNeighbours | Complexes/FilteredSimplicialComplex.py:90-98 | u is returned iff u differs from v and {u, v} is a stored edge; the result is empty when there are no edges |
| FilteredComplexes.FilteredComplex.GetSimplexOrdering | Complexes/FilteredSimplicialComplex.py:107-112 | the ordering lists every stored simplex exactly once, by non-decreasing weight |
| FilteredComplexes.FilteredComplex.GetWeightOrdering | Complexes/FilteredSimplicialComplex.py:114-115 | the weights in ascending order, as a permutation of the weights of the stored simplices |
| FilteredComplexes.OrderingsAligned | Complexes/FilteredSimplicialComplex.py:107-115 | the weight ordering has the same length as the simplex ordering and holds at each position that simplex's weight |
| FilteredComplexes.Restrict | Complexes/FilteredSimplicialComplex.py:117-123 | keeps exactly the simplices of weight at most the limit, with their weights |
| FilteredComplexes.FilteredComplex.Cap | Complexes/FilteredSimplicialComplex.py:117-123 | `cap(limit)` is a fresh unchecked complex holding exactly the simplices of weight at most the limit, with their weights |
| FilteredComplexes.CapPrefix | Complexes/FilteredSimplicialComplex.py:117-123 | the simplices before the first one heavier than the limit, in filtration order, are exactly those within the limit |
| FilteredComplexes.CapKeepsFiltration | Complexes/FilteredSimplicialComplex.py:117-123 | capping a filtration gives a filtration |
| FilteredComplexes.SizeWeights | PersistentHomology/test_SpeedTest.py:16-22 | the test complex holds exactly the subsets of the vertex set |
| FilteredComplexes.SizeWeightsAreFiltration | PersistentHomology/test_SpeedTest.py:16-22 | weighting every subset by its size (the empty one by -1) gives a filtration |
| FilteredComplexes.SizeOrderInsertPasses | PersistentHomology/test_SpeedTest.py:16-22 | in the test's level-by-level order, once every smaller subset is stored at its size weight, the checked insert of a subset at its own size finds every facet and none heavier |
| VRBase.VRBuilder.constructor | Complexes/VR/Base.py:17-23 | a new builder holds the points, metric and epsilon, no complex, and an unset skeleton flag |
| SkeletonBruteForce.ComputeSkeleton | Complexes/VR/Skeleton/SkeletonBruteForce.py:18-26 | a fresh complex replaces the old one. It holds each point as a vertex of weight 0 and each pair i < j as an edge iff their distance is below epsilon, weighted by that distance. The skeleton flag is set |
| SkeletonBruteForce.AddVertices | Complexes/VR/Skeleton/SkeletonBruteForce.py:20-21 | afterwards the complex holds exactly the vertices of all points, each of weight 0 |
| SkeletonBruteForce.AddShortEdges | Complexes/VR/Skeleton/SkeletonBruteForce.py:22-25 | after the pairs (i, j) with j > i, the complex holds exactly the short edges among the pairs visited so far |
| SkeletonBruteForce.SkeletonShape | Complexes/VR/Skeleton/SkeletonBruteForce.py:18-25 | a skeleton has no simplex above dimension 1, and every edge weighs less than epsilon |
| SkeletonBruteForce.SkeletonMember | Complexes/VR/Skeleton/SkeletonBruteForce.py:22-25 | every edge of a skeleton joins two points and weighs their distance |
| SkeletonBruteForce.SkeletonIsFiltration | Complexes/VR/Skeleton/SkeletonBruteForce.py:18-26 | with a non-negative metric the skeleton is a filtration |
| Cliques.LowerNbrs | Complexes/VR/Expansion/Incremental.py:19-25 | the lower neighbours of v are exactly the u < v joined to v by an edge |
| Cliques.CommonLower | Complexes/VR/Expansion/Inductive.py:35-40 | u is a common lower neighbour iff the simplex is non-empty and u is a lower neighbour of each of its vertices |
| Cliques.CofaceIsClique | Complexes/VR/Expansion/Inductive.py:41-42 | adding a common lower neighbour to a clique gives a clique one dimension higher, with the new vertex below all the others |
| Cliques.CliqueSplits | Complexes/VR/Expansion/Inductive.py:35-42 | every clique of dimension at least 1 is its lowest vertex added to the rest, and that vertex is a common lower neighbour of the rest |
| Cliques.LowerNeighbours | Complexes/VR/Expansion/Inductive.py:17-23 | `lower_neighbours(v)` returns exactly the lower neighbours of v in the complex |
| FacetWeights.MaxFacetWeightIsMax | Complexes/VR/Expansion/Inductive.py:28 | the facet maximum is the weight of a facet, and no facet weighs more |
| FacetWeights.FacetMax | Complexes/VR/Expansion/Inductive.py:28 | the maximum facet weight when all facets are stored, and NotInComplex exactly when one is not |
| FacetWeights.MaxWeightOf | Complexes/VR/Expansion/Incremental.py:47 | `max` over the facet weights fails iff some facet is absent; otherwise it is the weight of a facet that bounds them all |
| FacetWeights.ReweightLevel | Complexes/VR/Expansion/Inductive.py:27-29 | every simplex of dimension p gets its facet maximum, and other dimensions keep their weights; a missing facet stops it with NotInComplex |
| FacetWeights.ReweightByFacets | Complexes/VR/Expansion/Inductive.py:25-29 | `compute_weights` fails with NoSimplices exactly on an empty complex and with NotInComplex exactly when a facet is missing. Otherwise vertices and edges keep their weights, and every higher simplex weighs the maximum of its facets |
| FacetWeights.FacetMaxDetermined | Complexes/VR/Expansion/Inductive.py:25-29 | two weightings with the same simplices and the same vertex and edge weights that both take facet maxima are equal |
| FacetWeights.FacetMaxIsFiltration | Complexes/VR/Expansion/Inductive.py:25-29 | facet-maximum weights over edges that fit their vertices form a filtration |
| InductiveExpansion.CommonLowerNeighbours | Complexes/VR/Expansion/Inductive.py:35-40 | the intersection of the vertices' lower neighbours; `None` for the empty simplex |
| InductiveExpansion.AddCofaces | Complexes/VR/Expansion/Inductive.py:41-42 | every `simplex + n` for a candidate n is added with weight 0 |
| InductiveExpansion.ExpandLevel | Complexes/VR/Expansion/Inductive.py:33-42 | one dimension k adds every coface of a (k-1)-simplex with a common lower neighbour |
| InductiveExpansion.ExpandLevels | Complexes/VR/Expansion/Inductive.py:32-42 | the dimensions 2 to `dim` are expanded in increasing order, each from the level before |
| InductiveExpansion.ComputeExpansion | Complexes/VR/Expansion/Inductive.py:31-43 | without a complex it fails with NoComplex. Otherwise the complex is expanded, and the weighting fails exactly on an empty or facet-incomplete expansion. On success lower weights are kept and higher simplices take facet maxima |
| InductiveExpansion.ExpansionAddsOnlyHigher | Complexes/VR/Expansion/Inductive.py:31-43 | the expansion only adds simplices of dimensions 2 to k and keeps every vertex and edge with its weight |
| InductiveExpansion.ExpansionIsCliqueComplex | Complexes/VR/Expansion/Inductive.py:31-43 | on a graph, a simplex of dimension at least 2 is in the expansion iff it has dimension at most k and is a clique |
| InductiveExpansion.ExpansionFacetsComplete | Complexes/VR/Expansion/Inductive.py:31-43 | every facet of every added simplex is in the expansion |
| InductiveExpansion.SkeletonExpansionSucceeds | Complexes/VR/Expansion/Inductive.py:31-43 | the expansion of a skeleton is empty iff there are no points, and its facets are complete, so the weighting cannot fail on a missing facet |
| InductiveExpansion.InductiveIsVietorisRips | Complexes/VR/Expansion/Inductive.py:25-43 | after expansion and weighting, the complex keeps the skeleton's vertices and edges with their weights. Its higher simplices are exactly the cliques up to `dim`, and it is a filtration |
| IncrementalExpansion.PushCofaces | Complexes/VR/Expansion/Incremental.py:33-37 | one coface per candidate is pushed, each with strictly fewer candidates, and the work still to generate grows by exactly the simplex's children |
| IncrementalExpansion.AddCofaces | Complexes/VR/Expansion/Incremental.py:27-37 | the work stack ends with every simplex generated from the start simplex added with weight 0 |
| IncrementalExpansion.Walk | Complexes/VR/Expansion/Incremental.py:29-37 | while the stack is not empty the top entry is visited; at the end everything generated from the stack has been added with weight 0, and no other weight changed |
| IncrementalExpansion.ChildGood | Complexes/VR/Expansion/Incremental.py:33-37 | a pushed entry keeps the stack invariant: its candidates are exactly the common lower neighbours of its coface, which is one dimension higher, and they are fewer |
| IncrementalExpansion.ExpandVertices | Complexes/VR/Expansion/Incremental.py:53-56 | every vertex's cofaces are generated and added with weight 0 |
| IncrementalExpansion.ReweightEdges | Complexes/VR/Expansion/Incremental.py:40-43 | every edge of the new complex is reweighted to the distance between its endpoints |
| IncrementalExpansion.ComputeWeights | Complexes/VR/Expansion/Incremental.py:39-48 | it fails with NoSimplices exactly on an empty complex and with NotInComplex exactly when a facet is missing. On success vertices keep their weight, edges weigh their length and higher simplices take facet maxima |
| IncrementalExpansion.ComputeExpansion | Complexes/VR/Expansion/Incremental.py:50-58 | without a complex it fails with NoComplex; without vertices it returns and changes nothing. Otherwise the new complex gets all generated simplices, is weighted, and replaces the complex |
| IncrementalExpansion.ExpandAndWeigh | Complexes/VR/Expansion/Incremental.py:53-57 | with vertices present, weighting fails only on a facet-incomplete expansion; otherwise edges weigh their lengths and higher simplices take facet maxima |
| IncrementalCliques.VertexGen | Complexes/VR/Expansion/Incremental.py:27-37 | the stack started at vertex v generates exactly the cliques up to `level` whose top vertex is v |
| IncrementalCliques.IncrementalIsInductive | Complexes/VR/Expansion/Incremental.py:50-58 | the simplices generated from all vertices are exactly those of the inductive expansion |
| IncrementalCliques.IncrementalFacetsComplete | Complexes/VR/Expansion/Incremental.py:50-58 | every facet of every generated simplex is generated, so weighting cannot fail on a skeleton |
| IncrementalCliques.IncrementalIsVietorisRips | Complexes/VR/Expansion/Incremental.py:39-58 | for a non-negative symmetric metric, after expansion and weighting, the complex keeps the skeleton's vertices and edges with their weights. Its higher simplices are exactly the cliques up to `dim` |
| IncrementalCliques.StrategiesAgree | Complexes/VR/Expansion/Incremental.py:50-58 | for a symmetric metric, the incremental and the inductive strategy give the same weighted complex |
| IncrementalCliques.SkeletonThenExpansion | Complexes/VR/Expansion/Incremental.py:50-58 | for a non-negative symmetric metric, building the skeleton and then expanding incrementally succeeds and yields the Vietoris–Rips filtration up to `dim` |
| BruteForceExpansion.Choices | Complexes/VR/Expansion/ExpansionBruteForce.py:20 | the combinations of r elements of L are exactly the subsets of L with r elements |
| BruteForceExpansion.ScanPairs | Complexes/VR/Expansion/ExpansionBruteForce.py:21-27 | the pair loop's flag is set iff every two chosen simplices meet; then the running maximum is the largest of 0 and their weights |
| BruteForceExpansion.TryChoice | Complexes/VR/Expansion/ExpansionBruteForce.py:21-31 | a choice is added as its union, weighted by its heaviest member, iff its members pairwise meet and the union has dimension k |
| BruteForceExpansion.ExpandLevel | Complexes/VR/Expansion/ExpansionBruteForce.py:20-31 | one dimension adds the union of every accepted choice of k+1 faces of dimension k-1 |
| BruteForceExpansion.ExpandLevels | Complexes/VR/Expansion/ExpansionBruteForce.py:19-33 | dimensions from 2 upwards are processed in increasing order, stopping after the first one with fewer than k+1 simplices |
| BruteForceExpansion.ComputeExpansion | Complexes/VR/Expansion/ExpansionBruteForce.py:16-33 | without a skeleton it fails before any change. A missing complex fails only when there is a dimension to expand. Otherwise the levels are added |
| BruteForceExpansion.ChoiceIsFacets | Complexes/VR/Expansion/ExpansionBruteForce.py:28-31 | an accepted choice of k+1 faces whose union has dimension k is exactly the facets of that union |
| BruteForceCliques.AddedIff | Complexes/VR/Expansion/ExpansionBruteForce.py:20-31 | a k-simplex is added iff all its facets are stored |
| BruteForceCliques.AddedAreCliques | Complexes/VR/Expansion/ExpansionBruteForce.py:20-31 | once the lower dimensions hold exactly the cliques, the added k-simplices are exactly the k-cliques |
| BruteForceCliques.HeaviestOfFacets | Complexes/VR/Expansion/ExpansionBruteForce.py:22-31 | with non-negative weights, the maximum of 0 and the facet weights is the facet maximum |
| BruteForceCliques.NoHigherClique | Complexes/VR/Expansion/ExpansionBruteForce.py:32-33 | when fewer than k+1 k-simplices exist, there is no clique above dimension k, so the early stop loses nothing |
| BruteForceCliques.BruteForceIsExpansion | Complexes/VR/Expansion/ExpansionBruteForce.py:16-33 | for a non-negative metric, on a skeleton the brute-force result has the inductive expansion's simplices and low weights and takes facet maxima above |
| BruteForceCliques.BruteForceAgreesWithInductive | Complexes/VR/Expansion/ExpansionBruteForce.py:16-33 | for a non-negative metric, the brute-force and the inductive strategy give the same weighted complex |
| BruteForceCliques.BruteForceGivesVietorisRips | Complexes/VR/Expansion/ExpansionBruteForce.py:16-33 | for a non-negative metric, the brute-force expansion of a skeleton is its Vietoris–Rips filtration up to `dim` |
| BruteForceCliques.SkeletonThenBruteForce | Complexes/VR/Expansion/ExpansionBruteForce.py:16-33 | for a non-negative metric, building the skeleton and then expanding by brute force succeeds and yields the Vietoris–Rips filtration |
| PersDiagrams.AddTo | PersistentHomology/PersHomBase.py:50-54 | after `add_point(p)`, p is counted once more under its dimension, every other count is unchanged, and the dimension becomes a key |
| PersDiagrams.GroupedCounts | PersistentHomology/PersHomBase.py:50-54 | grouping a set of points counts each once under its own dimension and nothing else |
| PersDiagrams.GroupedAdd | PersistentHomology/PersHomBase.py:50-54 | adding a new point to the grouping of S gives the grouping of S plus that point |
| PersDiagrams.PersDiag.constructor | PersistentHomology/PersHomBase.py:21-23 | a new diagram has no points and a count of 0 |
| PersDiagrams.PersDiag.AddPoint | PersistentHomology/PersHomBase.py:50-54 | the point is counted once more under its dimension, duplicates included, and the point count grows by one |
| PersDiagrams.PersDiag.Equals | PersistentHomology/PersHomBase.py:28-36 | two diagrams are equal iff their counts, their dimension keys and every per-dimension Counter agree |
| PersDiagrams.PersDiag.PPoints | PersistentHomology/PersHomBase.py:44-48 | `p_points(p)` yields each distinct point with a positive count under p once, and nothing for an absent p |
| PersDiagrams.PersDiag.Points | PersistentHomology/PersHomBase.py:38-42 | `points` yields each distinct point of any dimension once |
| PersDiagrams.PersDiag.PPointsAreSlice | PersistentHomology/PersHomBase.py:38-48 | in a well-filed diagram, `p_points(p)` is exactly the points of dimension p |
| PersDiagrams.GetPersDiag | PersistentHomology/PersHomBase.py:67-69 | the diagram once `compute` has set it, and a failure before |
| PersDiagrams.ReducedFits | PersistentHomology/PersHom1.py:67-76 | every row and column of the final pairing is a position of the filtration |
| PersDiagrams.EmitPairs | PersistentHomology/PersHom1.py:67-76 | the fresh diagram holds one point per pairing entry: born at the row, dead at the column, weighted by the weight list, in the dimension of the row's simplex |
| PersDiagrams.ReducedOrdered | PersistentHomology/PersHom1.py:53-76 | reducing a boundary whose rows all lie above their columns, over ascending weights, gives a diagram whose every point has born_index < die_index and born <= die |
| Boundaries.ReadFiltration | PersistentHomology/PersHom1.py:19-24 | the ordering lists every simplex once by non-decreasing weight, and the weight list is aligned with it |
| Boundaries.BuildIndex | PersistentHomology/PersHom1.py:20-22 | the index maps each listed simplex to its position |
| Boundaries.FacetColumn | PersistentHomology/PersHom2.py:26-34 | a column is built iff every missing facet is the empty simplex; it is then the set of facet positions |
| Boundaries.ListedIffClosed | PersistentHomology/PersHom1.py:28-31 | the ordering lists every non-empty facet iff the complex is closed under facets |
| Boundaries.SparseBoundary | PersistentHomology/PersHom2.py:25-34 | it fails iff some listed simplex has a non-empty facet that is not listed; otherwise column i is exactly the positions of the facets of simplex i |
| Boundaries.DenseBoundary | PersistentHomology/PersHom1.py:25-33 | it fails iff a non-empty facet is unlisted; otherwise entry [j, i] is 1 iff simplex j is a facet of simplex i |
| Boundaries.EarlierFacetsBoundary | PersistentHomology/PersHomZ2Old.py:95-104 | entry [j, i] is 1 iff j < i and simplex j is a facet of simplex i |
| Boundaries.EarlierFacetsAreAll | PersistentHomology/PersHomZ2Old.py:101-104 | when every facet precedes its coface in the ordering (as `Boundaries.LighterFacetsFirst` gives when facets weigh strictly less), looking only at earlier positions finds every facet |
| Boundaries.FacetsFirstIffTriangular | PersistentHomology/PersHom1.py:25-33 | every row of the facet-position boundary is in range, and every row lies strictly above its column iff every facet comes before its coface in the ordering |
| Boundaries.LighterFacetsFirst | Complexes/FilteredSimplicialComplex.py:107-112 | in the ordering sorted by weight, a complex whose facets all weigh strictly less than their cofaces lists every facet before its coface |
| ColumnReduction.Low | PersistentHomology/PersHom2.py:37-40 | the last row is absent iff the column is empty, and otherwise it is the largest row of the column |
| ColumnReduction.SymDiff | PersistentHomology/PersHom2.py:42-50 | a row is in the sum iff it is in exactly one of the two columns |
| ColumnReduction.LowDrops | PersistentHomology/PersHom1.py:60-63 | adding a column with the same last row strictly lowers the last row, so the inner loop ends |
| ColumnReduction.Settle | PersistentHomology/PersHom1.py:60-63 | the inner loop ends with a zero column or one whose last row is unpaired, never with a higher last row |
| ColumnReduction.Reduce | PersistentHomology/PersHom1.py:53-65 | after i columns, later columns are untouched. Every pair joins a row to an earlier column whose last row it is, and every non-zero processed column is paired with its last row |
| ColumnReduction.LowsDistinct | PersistentHomology/PersHom1.py:53-65 | after the reduction, no two non-zero columns share their last row |
| ColumnReduction.PairingInjective | PersistentHomology/PersHom1.py:53-65 | no column is paired with two rows |
| ColumnReduction.SettleTriangular | PersistentHomology/PersHom1.py:60-63 | settling a column against earlier columns that all lie below k leaves only rows below k |
| ColumnReduction.ReduceKeepsTriangular | PersistentHomology/PersHom1.py:53-65 | column additions keep every row of a triangular boundary above its column |
| ColumnReduction.ReduceForward | PersistentHomology/PersHom1.py:53-65 | on a boundary whose rows all lie above their columns, the reduction pairs every row with a later column: the birth index is below the death index |
| ColumnReduction.ReduceBelow | PersistentHomology/PersHom1.py:53-65 | reduction creates no row outside the matrix |
| ColumnReduction.ReduceGraded | PersistentHomology/PersHomZ2Old.py:145-150 | reducing a graded boundary keeps it graded, so every pair joins a column one grade above its row |
| DenseReduction.LastOne | PersistentHomology/PersHom1.py:36-39 | the scan returns the last row holding a 1, or nothing for a zero column |
| DenseReduction.AddColMod2 | PersistentHomology/PersHom1.py:41-47 | column x becomes the mod-2 sum of columns x and y; every other column is unchanged |
| DenseReduction.SettleDense | PersistentHomology/PersHom1.py:60-63 | the in-place while loop leaves column i settled against the earlier columns, and returns its last row |
| DenseReduction.ReduceColumn | PersistentHomology/PersHom1.py:54-65 | one iteration of the column loop moves the matrix and `low` from the reduction state after i columns to the one after i+1 |
| DenseReduction.ReduceDense | PersistentHomology/PersHom1.py:53-65 | the in-place reduction ends with the matrix and `low` of the functional reduction |
| DenseReduction.CopyMatrix | PersistentHomology/PersHomZ2Old.py:126 | a fresh copy with the same columns |
| DensePersistence.FacetColumns | PersistentHomology/PersHom1.py:25-33 | column i holds exactly the positions of the facets of simplex i |
| DensePersistence.PersHom1.constructor | PersistentHomology/PersHom1.py:17-34 | stores the ordering, weights and boundary, with no diagram and no working matrix |
| DensePersistence.NewPersHom1 | PersistentHomology/PersHom1.py:17-34 | construction succeeds iff the complex is closed under facets; then the ordering lists the complex, the weights are aligned and ascend, the boundary has the facet positions, and it is triangular iff every facet precedes its coface |
| DensePersistence.PersHom1.Compute | PersistentHomology/PersHom1.py:49-76 | the working matrix ends as the reduced boundary. The diagram holds one point per pair of the reduction, and the count is the number of pairs. On a triangular boundary over ascending weights every point has born_index < die_index and born <= die |
| SparsePersistence.PersHom2.constructor | PersistentHomology/PersHom2.py:17-35 | stores the ordering, weights and boundary, with no diagram |
| SparsePersistence.NewPersHom2 | PersistentHomology/PersHom2.py:17-35 | construction succeeds iff the complex is closed under facets; then the ordering lists the complex, the weights are aligned and ascend, boundary column i is the facet positions of simplex i, and the boundary is triangular iff every facet precedes its coface |
| SparsePersistence.PersHom2.GetLastInCol | PersistentHomology/PersHom2.py:37-40 | the largest row of the working column, or nothing for an empty one |
| SparsePersistence.PersHom2.AddCol | PersistentHomology/PersHom2.py:42-50 | column i becomes the symmetric difference of columns i and j; every other column, column j included, is unchanged |
| SparsePersistence.PersHom2.SettleColumn | PersistentHomology/PersHom2.py:60-63 | the while loop settles column i against the paired earlier columns and returns its last row |
| SparsePersistence.PersHom2.ReduceColumn | PersistentHomology/PersHom2.py:58-64 | settling column i and recording its last row takes the reduction from stage i to stage i + 1 |
| SparsePersistence.PersHom2.ReduceColumns | PersistentHomology/PersHom2.py:52-64 | the working copy ends as the reduced boundary and `low` as its pairing |
| SparsePersistence.PersHom2.Compute | PersistentHomology/PersHom2.py:52-76 | the working copy ends as the reduced boundary while the boundary is untouched. The diagram holds one point per pair of the reduction, and it is the same pairing PersHom1 computes on the same ordering (`SparsePersistence.DenseAndSparseAgree`). On a triangular boundary over ascending weights every point has born_index < die_index and born <= die |
| SparsePersistence.DenseAndSparseAgree | PersistentHomology/PersHom2.py:52-76 | PersHom1 and PersHom2 built on the same ordering and weights have equal boundary columns, the same reduction and the same grouped diagram |
| SparsePersistence.EmptySimplexPairsBackward | PersistentHomology/PersHom2.py:25-34 | for the ordering [{0}, {}] (the vertex at 0.0 before the empty simplex at 5.0), column 0 holds row 1, the boundary is not triangular, and the reduction pairs row 1 with column 0: a point born after it dies |
| OldPersistence.Diags.constructor | PersistentHomology/PersHomZ2Old.py:25-26 | a new per-dimension list store is empty |
| OldPersistence.Diags.Diag | PersistentHomology/PersHomZ2Old.py:38-41 | `diag(d)` is the list under d, and empty exactly for an unseen d |
| OldPersistence.Diags.AddPoint | PersistentHomology/PersHomZ2Old.py:48-51 | the point is appended to its dimension's list, keeping duplicates and order; other dimensions are unchanged |
| OldPersistence.Diags.Points | PersistentHomology/PersHomZ2Old.py:32-36 | `points` yields (point, dim) exactly for the points listed under dim |
| OldPersistence.Tagged | PersistentHomology/PersHomZ2Old.py:32-36 | a dimension's list is yielded point by point, each paired with that dimension |
| OldPersistence.ToWeights | PersistentHomology/PersHomZ2Old.py:152-158 | each index point becomes the point of the weights at its birth and death positions, in the same order |
| OldPersistence.EarlierFacetsGraded | PersistentHomology/PersHomZ2Old.py:101-104 | every row of the earlier-facet boundary is a simplex one dimension below its column |
| OldPersistence.PairDimensions | PersistentHomology/PersHomZ2Old.py:145-150 | every pair of the reduction joins a simplex to one exactly one dimension higher. So filing under the column's dimension puts each pair one dimension above PersHom1's filing |
| OldPersistence.AddIndexPoint | PersistentHomology/PersHomZ2Old.py:148-149 | each pair is listed once more under the dimension of its column's simplex |
| OldPersistence.IndexDiagram | PersistentHomology/PersHomZ2Old.py:146-149 | the fresh diagram lists, up to order, the index pair of every row of the pairing under the dimension of its column's simplex, and nothing else; every index is in range |
| OldPersistence.WeighDimension | PersistentHomology/PersHomZ2Old.py:155-157 | a dimension's list of index points is turned, in order, into the list of their weight points |
| OldPersistence.PersHomZ2Old.constructor | PersistentHomology/PersHomZ2Old.py:92-104 | the ordering and weights of the complex, a boundary with the earlier facets, and no stage run yet; that boundary is triangular and the weights ascend |
| OldPersistence.PersHomZ2Old.ReduceBoundary | PersistentHomology/PersHomZ2Old.py:124-143 | a reduced copy of the boundary, which is untouched, and the pairing of the functional reduction |
| OldPersistence.PersHomZ2Old.ConstructIPersDiag | PersistentHomology/PersHomZ2Old.py:145-150 | it fails iff the boundary is not reduced. Otherwise it lists each pair under the dimension of its column's simplex |
| OldPersistence.PersHomZ2Old.ConstructPersDiag | PersistentHomology/PersHomZ2Old.py:152-158 | it fails iff the index diagram is missing. Otherwise each index point becomes its weight point under the same dimension, in the same order |
| OldPersistence.WeighDiagrams | PersistentHomology/PersHomZ2Old.py:152-158 | the fresh diagram has the dimensions of the index diagram in the same order, and each dimension's list is the weight points of its index points, in order |
| OldPersistence.ListForward | PersistentHomology/PersHomZ2Old.py:145-150 | when every pair has its row before its column, every index point listed under a dimension has born < die |
| OldPersistence.ToWeightsOrdered | PersistentHomology/PersHomZ2Old.py:152-158 | over ascending weights, index points with born < die become weight points with born <= die |
| OldPersistence.PersHomZ2Old.Compute | PersistentHomology/PersHomZ2Old.py:119-122 | the three stages in order: the reduced pairing, the index points by column dimension and the weight points. On the triangular boundary every listed index point has born < die, and with ascending weights every weight point has born <= die |
| OldPersistence.PersHomZ2Old.GetBoundary | PersistentHomology/PersHomZ2Old.py:160-162 | the reduced boundary, or BoundaryNotReduced before `reduce_boundary` |
| OldPersistence.PersHomZ2Old.GetIPersDiags | PersistentHomology/PersHomZ2Old.py:164-166 | the index diagram, or IndexDiagramMissing before it is built |
| OldPersistence.PersHomZ2Old.GetPersDiags | PersistentHomology/PersHomZ2Old.py:168-170 | the weight diagram, or DiagramMissing before it is built |
| OldPersistence.PersHomZ2Old.GetIPersDiag | PersistentHomology/PersHomZ2Old.py:172-173 | the index points of one dimension, and a failure before the index diagram exists |
| OldPersistence.PersHomZ2Old.GetPersDiag | PersistentHomology/PersHomZ2Old.py:175-176 | the weight points of one dimension, and a failure before the weight diagram exists |
| CocyclePersistence.AntiTranspose | PersistentHomology/PersHom4.py:39-45 | the coboundary is the anti-transpose of the boundary |
| CocyclePersistence.AntiTransposedIff | PersistentHomology/PersHom4.py:39-45 | r is in boundary column c iff n-1-c is in coboundary column n-1-r |
| CocyclePersistence.XorOfMember | PersistentHomology/PersHom4.py:74-83 | a row is in the sum of the chosen cocycles iff an odd number of them hold it |
| CocyclePersistence.XorOfStep | PersistentHomology/PersHom4.py:78-83 | adding one more cocycle to the sum is a symmetric difference with it |
| CocyclePersistence.Toggle | PersistentHomology/PersHom4.py:79-83 | the toggling loop leaves the symmetric difference of the running set and the cocycle |
| CocyclePersistence.CollectIndices | PersistentHomology/PersHom4.py:74-83 | `indices` is the sum of the cocycles of the unmarked positions n-1-j over the boundary column |
| CocyclePersistence.ExtendCocycles | PersistentHomology/PersHom4.py:102-105 | p is added to the cocycle of every other index, and every other cocycle is unchanged |
| CocyclePersistence.CoRun | PersistentHomology/PersHom4.py:66-105 | the run of the descending loop from the top down to i keeps one cocycle per simplex |
| CocyclePersistence.CoStepGood | PersistentHomology/PersHom4.py:84-105 | one iteration keeps the invariant and only grows cocycles. The invariant: each cocycle holds its own index, all indices are in range, and each column is paired at most once with both ends marked |
| CocyclePersistence.CoRunGood | PersistentHomology/PersHom4.py:66-105 | the invariant holds at every stage of the run |
| CocyclePersistence.CoRunGrows | PersistentHomology/PersHom4.py:102-105 | cocycles only grow as the run goes down |
| CocyclePersistence.CollectedAbove | PersistentHomology/PersHom4.py:74-83 | on a triangular boundary, every index collected at step i lies above i |
| CocyclePersistence.CoStepForward | PersistentHomology/PersHom4.py:74-105 | one iteration keeps every cocycle entry above the current index (apart from the cocycle's own index) and records only pairs whose p lies above i |
| CocyclePersistence.CoRunForward | PersistentHomology/PersHom4.py:66-105 | on a triangular boundary every pair (p, i) of the run has p > i, so born_index n-1-p is below die_index n-1-i |
| CocyclePersistence.CoPointsOrdered | PersistentHomology/PersHom4.py:88-100 | pairs with p > i over ascending weights give points with born_index < die_index and born <= die |
| CocyclePersistence.PairedPass | PersistentHomology/PersHom4.py:86-105 | with non-empty `indices`, p is their minimum and in range; i and p are marked, the pair (p, i) is recorded, and the cocycles are extended |
| CocyclePersistence.CoPass | PersistentHomology/PersHom4.py:74-105 | one pass of the loop body moves the state to the next stage of the run. The diagram grows by the point born at n-1-p and dead at n-1-i, in the dimension of the simplex at n-1-p, and nothing happens when `indices` is empty |
| CocyclePersistence.CoReduce | PersistentHomology/PersHom4.py:68-105 | starting from singleton cocycles and an empty diagram, the passes from the last index down reach the final state of the cocycle run. The diagram then holds exactly one point per pair of that run |
| CocyclePersistence.PersHom4.constructor | PersistentHomology/PersHom4.py:20-46 | stores the ordering, weights, dimension, boundary and its anti-transpose, with no diagram |
| CocyclePersistence.PersHom4.Compute | PersistentHomology/PersHom4.py:63-105 | the diagram holds exactly one point per pair of the cocycle run, and the count is the number of pairs. On a triangular boundary over ascending weights every point has born_index < die_index and born <= die |
| CocyclePersistence.NewPersHom4 | PersistentHomology/PersHom4.py:20-46 | it fails with NoSimplices exactly on an empty complex, whose dimension raises, and with a boundary error exactly when the complex is not closed under facets. Otherwise it stores the ordering, the aligned weights, the dimension, the facet positions and the coboundary. The weights ascend, and the boundary is triangular iff every facet precedes its coface |
| CocyclePersistence.Assemble | PersistentHomology/PersHom4.py:39-46 | a fresh object holding the given ordering, weights, dimension and boundary with its anti-transposed coboundary, and no diagram |

## Left out

- Points are opaque indices, and the metric is an uninterpreted function on index pairs. numpy arrays and float arithmetic are not modelled: weights are `real`, and the dense matrices are 2-D `bool` arrays.
- The order in which Python visits a `set` or `dict` (including `low.items()`) is left open: every such loop picks an arbitrary next element. The filtration ordering is specified as sorted and a permutation, not by its tie order.
- SparsePersistence.DenseAndSparseAgree: the agreement of PersHom1 and PersHom2 is proved for the same ordering. Two constructions from one complex may break weight ties differently, and the model does not prove their diagrams equal then.
- On a metric that is negative somewhere, brute force floors a simplex's weight at 0 where the inductive strategy takes the facet maximum. On an asymmetric metric, the incremental strategy re-weighs an edge by `metric` of its endpoints in set order. The agreement lemmas therefore require a non-negative or a symmetric metric, and the model makes no claim outside those cases.
- OldPersistence.IndexDiagram: the lists of PersHomZ2Old's index diagram are fixed only up to order (as multisets), because their order follows the pairing dictionary's iteration order.
- `Simplex.__hash__`, `__contains__` and `get_vertices` are the datatype itself and its `vertices` field. `Simplex.__eq__` compares hashes, and the model abstracts it as structural equality of vertex sets. Equality through a hash collision, and against non-Simplex objects, is not modelled. `Simplex.faces` (it yields raw tuples), `Simplex.__iter__` and all `__repr__` methods are not modelled.
- `isinstance` checks and the `ValueError` they raise are not modelled: Dafny's types rule them out.
- SimplicialComplexes.SimplicialComplex.Dim and FilteredComplexes.FilteredComplex.Dim require a non-empty complex, since `max` of no keys raises. Where a caller reaches that case (`compute_weights`, PersHom4's constructor), the raise is modelled as an error result.
- `VRBase.get_complex` is plain field access. Complexes/VR/Skeleton/Sklearn.py, the Čech files and the Homology/ Smith-normal-form files are not part of this model.
- PersistentHomology/PersHom3.py is not part of this model. PersHom4's result is proved against its own cocycle-run specification. Its equality with the reducers' diagrams (which the speed test prints but never asserts) is not proved.
- PersHom4's unused private helpers `__get_last_in_col` and `__add_col` (PersistentHomology/PersHom4.py:48-61) are not modelled. Its stored dimension is kept but not used by `compute`, as in the source.
- Timing and printing in the speed test are not modelled. Its subset-complex scenario is stated as `FilteredComplexes.SizeWeightsAreFiltration` and `FilteredComplexes.SizeOrderInsertPasses`. The run of the test's loops as one sequence of `add_simplex` calls is not composed into a single statement.
- Pair ordering (born_index < die_index and born <= die) is proved only when every facet precedes its coface in the ordering, which makes the boundary triangular (`Boundaries.FacetsFirstIffTriangular`). `Boundaries.LighterFacetsFirst` gives this when every facet weighs strictly less than its coface. The source does not guarantee it in general, and the model makes no claim outside that case. Two inputs break it:
  - a checked complex with the vertex {0} at 0.0 and the empty simplex at 5.0. Vertices skip the facet check, and the empty simplex has no facets, so both inserts pass. The reduction then pairs the empty simplex (index 1, weight 5.0) with the vertex (index 0, weight 0.0), as `SparsePersistence.EmptySimplexPairsBackward` shows;
  - an unchecked complex with the edge {0,1} inserted before its vertices, all at 0.0. The source's tie order then lists the edge first. The model leaves tie order open, so it allows this ordering but does not exhibit it.
- DensePersistence.PersHom1.Compute: pair ordering is stated under a triangular boundary and ascending weights, not for every input (see above).
- SparsePersistence.PersHom2.Compute: pair ordering is stated under a triangular boundary and ascending weights, not for every input (see above).
- CocyclePersistence.PersHom4.Compute: pair ordering is stated under a triangular boundary and ascending weights, not for every input (see above).
- The range and initialisation assertions of PersHom1's `__add_col` are preconditions of `DenseReduction.AddColMod2`, not error results: every caller meets them.
- PersHomZ2Old's `get_ipers_diag` and `get_pers_diag` read a possibly missing stage without the assertion the other getters have, so in the source they raise an AttributeError. The model returns the same failures the asserting getters return.
