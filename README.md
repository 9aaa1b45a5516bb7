# MODA subgraph matching: the Grochow–Kellis engine in Dafny

MODA finds the copies of a small query graph H inside a larger input graph G (network-motif
discovery). This project models its matching engine, which follows Grochow and Kellis, and
proves properties of the model. The engine has three parts:

- **Graph helpers** (`MODA.Impl/Extensions.cs`):
  - neighbour lists (`GetNeighbors`);
  - the completeness test (`IsComplete`);
  - cloning (`Clone`);
  - the degree-ordered prefix of the vertices (`GetDegreeSequence`);
  - the mapping-equivalence test (`IsIsomorphicWith`).
- **The recursive extension search** (`MODA.Impl/ModaAlgorithms.cs`). `IsomorphicExtension` grows a partial map f from query vertices to input vertices, one vertex at a time:
  - `GetMostConstrainedNeighbour` picks the next query vertex m;
  - `ChooseNeighboursOfRange` lists the input candidates n;
  - `IsNeighbourIncompatible` prunes candidates;
  - `CanSupport` is the degree filter for a seed pair;
  - three memo dictionaries keyed by vertex sets cache the picks, the candidate lists and the induced subgraphs.
- **The root-elimination driver** `Algorithm2` (`MODACrossPlatform/MODA.Impl/ModaAlgorithms.2.cs`). It clones G and walks a degree-sorted prefix of G's vertices (the roots). For each root g it:
  - seeds `{h -> g}` for every query vertex h that g supports;
  - files the results in buckets keyed by each mapping's last value;
  - removes g from the clone.

  Finally it concatenates the buckets.

## How the model is built

| Dafny file | module | source file | flavour |
|---|---|---|---|
| `collections.dfy` | `Collections` | the List/HashSet operations the source calls | functions + lemmas |
| `graphs.dfy` | `Graphs` | the QuickGraph `UndirectedGraph` operations used | datatype + functions |
| `mappings.dfy` | `Mappings` | the `Dictionary<string,string>` partial map and the `Mapping` record | datatypes + functions |
| `extensions.dfy` | `Extensions` | `MODA.Impl/Extensions.cs` | functions + lemmas |
| `moda_algorithms.dfy` | `ModaAlgorithms` | `MODA.Impl/ModaAlgorithms.cs` | class + methods with loops, lemmas |
| `root_elimination.dfy` | `RootElimination` | `MODACrossPlatform/MODA.Impl/ModaAlgorithms.2.cs` | methods with loops, lemmas |

- **Graphs are values**: `Graph(vertices, edges, allowParallelEdges)`.
  - Vertices are kept in enumeration order and edges in insertion order.
  - Degree counts the incident edges, as QuickGraph's `AdjacentDegree` does.
  - The caller's graph is a value, so no operation of the driver can modify it.
- **The partial map** is a sequence of (query vertex, input vertex) pairs in insertion order.
  - `Keys`, `Values` and `LastValue` read it as `Keys.ToArray()`, `Values.ToArray()` and `Function.Last().Value` do.
  - `AsMap` is the function it denotes.
- **The memo dictionaries** are a class `MemoCaches` with three `map<set<string>, …>` fields, which the search methods update in place.
  - The keys are sets, because the key comparer treats two key arrays as equal when they hold the same vertices.
  - The driver creates the object fresh on every call.
- **The counter-indexed removal loops** are methods with `while`/`for` loops. They are proved against the functions `Without`, `Scan` and `AddAll`.
- **`Algorithm2`** is a method whose loop shrinks the clone. It ends with `RemoveVertex` applied for every root.

### Where the code departs from the intended design

- **`InputSubGraph` comes from the shrinking clone.** The base case computes it from the graph handed to `IsomorphicExtension`, and the driver hands it the clone. The model states it as bounded above by the caller's graph and below by the clone it was built on.
- **The memo tables are never cleared while the clone shrinks.** An entry may therefore mention vertices that are no longer in the clone. The table invariant, `MemoCaches.Valid`, bounds each entry by the caller's graph from above and by the current clone from below. It never claims that an entry equals a recomputation on the current clone.
- **Results need not be edge-preserving.** `IsNeighbourIncompatible` accepts a candidate as soon as it meets an unmapped neighbour of m. So the model proves only what each search step checked, not that the final map is an isomorphism.
- **The first batch of extensions is not filtered.** The first non-empty batch is taken whole (`AddRange`); only later batches go through the injectivity and duplicate checks. Results are still injective when the seed is, because every step picks a fresh input vertex.

## Model

| member | source | states |
|---|---|---|
| Collections.AddAll | MODA.Impl/ModaAlgorithms.cs:232-235 | adding items to a HashSet: the result holds exactly the old and the new items, keeps the old ones as its prefix, and has no repeats if the old set had none |
| Collections.AddAllConcat | MODA.Impl/ModaAlgorithms.cs:195-238 | adding a concatenation to a HashSet is the same as adding its two parts one after the other |
| Collections.FirstIndex | MODA.Impl/ModaAlgorithms.cs:222 | List.IndexOf: a position holding x with no x before it |
| Collections.RemoveFirst | MODA.Impl/Extensions.cs:94 | List/HashSet Remove: if x is absent nothing changes, otherwise the length drops by one; no element is invented; on a list without repeats exactly x goes |
| Collections.RemoveFirstAt | MODA.Impl/ModaAlgorithms.cs:222 | when `local[j - counter]` does not occur earlier, `Remove` takes out exactly that position |
| Collections.WithoutSpec | MODA.Impl/ModaAlgorithms.cs:215-231 | the filtered list holds exactly the elements outside `used_range` |
| Graphs.AdjacentEdges | MODA.Impl/Extensions.cs:87 | AdjacentEdges(v) holds exactly the edges of the graph incident to v |
| Graphs.TryGetEdge | MODA.Impl/ModaAlgorithms.cs:68-69 | a found edge is an edge of the graph between the two vertices; none is found only if they are not adjacent |
| Graphs.TryGetEdgeFindsTheEdge | MODA.Impl/ModaAlgorithms.cs:69 | in a simple graph TryGetEdge returns the unique edge between the two vertices |
| Graphs.AddVertex | MODA.Impl/ModaAlgorithms.cs:71 | adds the vertex once and keeps the edges |
| Graphs.AddVerticesAndEdge | MODA.Impl/ModaAlgorithms.cs:56 | adds both ends as vertices; appends the edge, except that a graph refusing parallel edges keeps an existing one, and then the edge is appended exactly when its ends were not adjacent |
| Graphs.AddEdgeKeepsNoParallel | MODA.Impl/ModaAlgorithms.cs:61-71 | adding an edge to a graph that refuses parallel edges keeps it without parallel edges |
| Graphs.AddEdgeKeepsEnds | MODA.Impl/ModaAlgorithms.cs:54-57 | a graph built only by AddVerticesAndEdge has as vertices exactly the ends of its edges |
| Graphs.RemoveVertex | MODACrossPlatform/MODA.Impl/ModaAlgorithms.2.cs:90 | drops the vertex and exactly the edges incident to it; the other vertices stay |
| Graphs.KeepNotIncident | MODACrossPlatform/MODA.Impl/ModaAlgorithms.2.cs:90 | the surviving edges are exactly those not incident to the vertex, still without parallels |
| Graphs.RemoveVertexWellFormed | MODACrossPlatform/MODA.Impl/ModaAlgorithms.2.cs:90 | removing a vertex keeps a simple graph simple and only loses edges |
| Mappings.AsMap | MODA.Impl/ModaAlgorithms.cs:102-107 | the dictionary's key set is the set of the map's keys |
| Mappings.AsMapAt | MODA.Impl/ModaAlgorithms.cs:56 | with distinct keys, `partialMap[k]` is the value stored with k |
| Mappings.Put | MODA.Impl/ModaAlgorithms.cs:107 | `newPartialMap[m] = n` for a new key m appends the pair (m, n) |
| Mappings.FindSameFunction | MODACrossPlatform/MODA.Impl/ModaAlgorithms.2.cs:62 | Find(x => x.Equals(mapping)): a hit is an equal mapping of the list; a miss means no mapping of the list is equal |
| Extensions.Endpoints | MODA.Impl/Extensions.cs:89-93 | the ends of the adjacent edges: exactly the vertices incident to one of them |
| Extensions.NeighborsSpec | MODA.Impl/Extensions.cs:67-100 | GetNeighbors has no repeats and holds exactly the vertices other than v adjacent to v; it is empty for a blank v |
| Extensions.NeighbourIsVertex | MODA.Impl/Extensions.cs:67-100 | every neighbour is a vertex of the graph |
| Extensions.NeighbourJoined | MODA.Impl/Extensions.cs:67-100 | a neighbour of v is a vertex other than v, joined to v by an edge, and v is not blank |
| Extensions.JoinedNeighbour | MODA.Impl/Extensions.cs:67-100 | conversely, a vertex other than a non-blank v and joined to it is a neighbour of v |
| Extensions.NeighborsMonotone | MODA.Impl/Extensions.cs:87-94 | a graph with fewer edges has fewer neighbours |
| Extensions.NeighborsSymmetric | MODA.Impl/Extensions.cs:87-94 | for non-blank names, v is a neighbour of u exactly when u is a neighbour of v |
| Extensions.WrapInt32 | MODA.Impl/Extensions.cs:64 | C# unchecked int arithmetic: the result is in the int range and equals the exact value when that fits |
| Extensions.ProductOfConsecutiveIsEven | MODA.Impl/Extensions.cs:64 | V(V-1) is even, so the division by 2 is exact |
| Extensions.IsCompleteWithoutOverflow | MODA.Impl/Extensions.cs:62-65 | up to 46341 vertices, IsComplete holds exactly when 2·EdgeCount = V(V-1) |
| Extensions.PairsCard | MODA.Impl/Extensions.cs:58 | a set of n vertices has n(n-1)/2 unordered pairs |
| Extensions.EdgePairsCard | MODA.Impl/Extensions.cs:64 | without parallel edges or loops, the edge count equals the number of vertex pairs joined |
| Extensions.CompleteIffAllPairsAdjacent | MODA.Impl/Extensions.cs:57-65 | for a simple graph of up to 46341 vertices, IsComplete holds exactly when every two distinct vertices are adjacent |
| Extensions.AddVerticesAndEdgeRange | MODA.Impl/Extensions.cs:117 | adding a range of edges to a graph that allows parallel edges appends them all |
| Extensions.AddVerticesAndEdgeRangeVertices | MODA.Impl/Extensions.cs:117 | the range adds as vertices exactly the ends of its edges |
| Extensions.CloneSpec | MODA.Impl/Extensions.cs:114-120 | the clone has the same edges, is simple, and its vertices are exactly the vertices of degree > 0 |
| Extensions.CloneVertexCount | MODA.Impl/Extensions.cs:118 | the vertex counts agree exactly when the graph has no isolated vertex |
| Extensions.InsertByDegree | MODA.Impl/Extensions.cs:142-145 | inserting into the sorted list adds exactly one copy of the vertex |
| Extensions.InsertByDegreeOrdered | MODA.Impl/Extensions.cs:142-145 | insertion keeps the degrees non-increasing |
| Extensions.InsertByDegreeStable | MODA.Impl/Extensions.cs:142-145 | insertion puts the new vertex before the earlier vertices of equal degree, with their order unchanged |
| Extensions.SortByDegreeDescending | MODA.Impl/Extensions.cs:142-145 | OrderByDescending(degree) is a permutation with non-increasing degrees |
| Extensions.SortByDegreeDescendingStable | MODA.Impl/Extensions.cs:142-145 | the sort is stable: vertices of equal degree keep their input order |
| Extensions.PermutationKeepsDistinct | MODA.Impl/Extensions.cs:134-144 | a permutation of a list without repeats has no repeats |
| Extensions.GetDegreeSequenceSpec | MODA.Impl/Extensions.cs:129-150 | the result is a stable, degree-descending permutation of the first min(count, V) vertices, without repeats; an empty graph gives an empty result |
| Extensions.FindDegreeMismatch | MODA.Impl/Extensions.cs:32-33 | the Find returns a vertex whose two degrees differ, or nothing only when all degrees agree |
| Extensions.SecondDegreeLoopNeverFails | MODA.Impl/Extensions.cs:46-52 | once the Find found no mismatch, the second degree loop cannot return false |
| Extensions.IsIsomorphicWithRejects | MODA.Impl/Extensions.cs:14-29 | false for a null other mapping, different key sets, different value sets, or different edge counts |
| Extensions.IsIsomorphicWithDecision | MODA.Impl/Extensions.cs:32-54 | past the first tests: inputSubgraph.IsComplete() if some degree differs, true otherwise |
| Extensions.IsIsomorphicWithReflexive | MODA.Impl/Extensions.cs:11-55 | a mapping is isomorphic with itself |
| ModaAlgorithms.MemoCaches.constructor | MODACrossPlatform/MODA.Impl/ModaAlgorithms.2.cs:26-29 | the three tables start empty |
| ModaAlgorithms.EmptyCachesValid | MODACrossPlatform/MODA.Impl/ModaAlgorithms.2.cs:26-29 | freshly created tables satisfy the table invariant |
| ModaAlgorithms.ValidShrinks | MODACrossPlatform/MODA.Impl/ModaAlgorithms.2.cs:90 | the table invariant survives the clone losing edges (entries are bounded by the caller's graph, not equal to recomputation) |
| ModaAlgorithms.ScanMembers | MODA.Impl/ModaAlgorithms.cs:266-309 | the scan over `domain[i..]` holds exactly the vertices outside the domain next to one of `domain[i..]` |
| ModaAlgorithms.ScanFrontier | MODA.Impl/ModaAlgorithms.cs:310-317 | the scan is empty exactly when no domain vertex has a neighbour outside the domain; otherwise its first element is such a neighbour |
| ModaAlgorithms.ScanPickOk | MODA.Impl/ModaAlgorithms.cs:310-317 | the stored pick is "" when there is no frontier and a frontier vertex otherwise |
| ModaAlgorithms.ScanCandidatesOk | MODA.Impl/ModaAlgorithms.cs:194-239 | the candidate set has no repeats; it holds every neighbour of the range outside the range, and nothing else |
| ModaAlgorithms.RemoveLoopStep | MODA.Impl/ModaAlgorithms.cs:216-230 | one step of the counter loop: removing or skipping `local[j - counter]` extends the kept prefix by the filter of `original[j]` |
| ModaAlgorithms.RemoveUsed | MODA.Impl/ModaAlgorithms.cs:215-231 | the counter-indexed removal loop leaves exactly the elements outside `used_range`, in their original order; `local.Count + counter` stays the original length |
| ModaAlgorithms.AddEach | MODA.Impl/ModaAlgorithms.cs:232-235 | the foreach of `result.Add(item)` is adding the list to the HashSet |
| ModaAlgorithms.NeighboursOutside | MODA.Impl/ModaAlgorithms.cs:197-231 | one iteration: the neighbours of `range[i]` outside the range, also when there are none |
| ModaAlgorithms.ScanNeighbours | MODA.Impl/ModaAlgorithms.cs:266-309 | the domain walked from last to first, each neighbour list filtered and appended in order, is the scan |
| ModaAlgorithms.GetMostConstrainedNeighbour | MODA.Impl/ModaAlgorithms.cs:253-322 | a hit returns the stored entry and changes nothing; a miss stores and returns the first scanned vertex, or "" when the scan is empty; the pick is "" exactly when there is no frontier, and otherwise a frontier vertex |
| ModaAlgorithms.GatherNeighbours | MODA.Impl/ModaAlgorithms.cs:194-238 | the HashSet filled from the range walked from last to first is the set of the scan |
| ModaAlgorithms.ChooseNeighboursOfRange | MODA.Impl/ModaAlgorithms.cs:189-245 | a hit returns the stored entry; a miss stores and returns the HashSet of the scan; every candidate is outside the range and next to it in the caller's graph, and every such neighbour in the current graph is a candidate |
| ModaAlgorithms.GapBeforeMiss | MODA.Impl/ModaAlgorithms.cs:159-163 | reaching an unmapped neighbour after only compatible ones means "compatible" |
| ModaAlgorithms.MissAt | MODA.Impl/ModaAlgorithms.cs:164-168 | a mapped neighbour whose image is not next to n, after only compatible ones, means "incompatible" |
| ModaAlgorithms.NoMiss | MODA.Impl/ModaAlgorithms.cs:185 | when every neighbour is mapped and compatible, the loop ends with "compatible" |
| ModaAlgorithms.FindMappedMiss | MODA.Impl/ModaAlgorithms.cs:157-169 | the early-exit loop returns true exactly when some neighbour of m is mapped to a non-neighbour of n before any unmapped neighbour is met |
| ModaAlgorithms.IsNeighbourIncompatible | MODA.Impl/ModaAlgorithms.cs:149-186 | true exactly when, walking m's neighbours in order, a mapped one whose image is not next to n comes before the first unmapped one |
| ModaAlgorithms.AllMappedMiss | MODA.Impl/ModaAlgorithms.cs:157-169 | with all of m's neighbours mapped, the walk finds a miss exactly when some image is not next to n |
| ModaAlgorithms.IncompatibleWhenAllMapped | MODA.Impl/ModaAlgorithms.cs:157-185 | with all of m's neighbours mapped, the answer is false exactly when n is next to the image of every neighbour of m |
| ModaAlgorithms.FittingPairMembers | MODA.Impl/ModaAlgorithms.cs:344-355 | a fitting pair by positions is a fitting pair by members, and back |
| ModaAlgorithms.FindFittingPair | MODA.Impl/ModaAlgorithms.cs:344-358 | the nested backward loops return true exactly when some neighbour of g has at least the degree of some neighbour of h |
| ModaAlgorithms.CanSupport | MODA.Impl/ModaAlgorithms.cs:335-359 | false when deg(g) < deg(h); otherwise true exactly when a neighbour pair (h', g') has deg(g') >= deg(h') |
| ModaAlgorithms.MaxDegree | MODA.Impl/ModaAlgorithms.cs:348 | the largest degree in a non-empty list, attained by a member |
| ModaAlgorithms.MinDegree | MODA.Impl/ModaAlgorithms.cs:348 | the smallest degree in a non-empty list, attained by a member |
| ModaAlgorithms.SupportsByExtremes | MODA.Impl/ModaAlgorithms.cs:338-358 | g supports h exactly when deg(g) >= deg(h), both have neighbours, and the largest neighbour degree of g is at least the smallest of h; in particular never when h or g has no neighbour |
| ModaAlgorithms.ImageGraph | MODA.Impl/ModaAlgorithms.cs:53-57 | MapOnInputSubGraph has one image edge per query edge, in order, and no repeated vertex |
| ModaAlgorithms.ImageGraphVertices | MODA.Impl/ModaAlgorithms.cs:54-57 | its vertices are exactly the ends of the image edges |
| ModaAlgorithms.ImageGraphIsImage | MODA.Impl/ModaAlgorithms.cs:54-57 | the edge k of MapOnInputSubGraph is (f(u), f(v)) for the query edge k = (u, v) |
| ModaAlgorithms.BuildMapOnInputSubGraph | MODA.Impl/ModaAlgorithms.cs:53-57 | the foreach over the query edges builds that image |
| ModaAlgorithms.UniqueEdge | MODA.Impl/ModaAlgorithms.cs:69 | in a simple graph an edge is the only one between its ends |
| ModaAlgorithms.AddFoundEdge | MODA.Impl/ModaAlgorithms.cs:69-72 | adding the found edge covers the pair and loses nothing |
| ModaAlgorithms.CoverRow | MODA.Impl/ModaAlgorithms.cs:66-73 | the inner j loop adds, for every later key, the graph's edges between key[i] and it, and only edges of the graph among the keys |
| ModaAlgorithms.BuildInputSubgraph | MODA.Impl/ModaAlgorithms.cs:63-74 | the double loop builds a graph that refuses parallel edges, holds none, and has as edges exactly the edges of the graph between mapped vertices |
| ModaAlgorithms.TotalMap | MODA.Impl/ModaAlgorithms.cs:50 | a map with as many distinct query keys as H has vertices maps every query vertex |
| ModaAlgorithms.GrowsInjective | MODA.Impl/ModaAlgorithms.cs:94-107 | steps that always pick an input vertex outside the current range keep an injective map injective |
| ModaAlgorithms.CompletesPrefix | MODA.Impl/ModaAlgorithms.cs:102-110 | a completion of f + [(m, n)] is a completion of f whose next entry is (m, n) |
| ModaAlgorithms.GrowsFromStep | MODA.Impl/ModaAlgorithms.cs:95-110 | one legal step followed by legal steps is a legal growth |
| ModaAlgorithms.ExtendsLift | MODA.Impl/ModaAlgorithms.cs:95-110 | a result of the search from f + [(m, n)], with m on the frontier and n a compatible fresh candidate, is a result of the search from f |
| ModaAlgorithms.LiftAll | MODA.Impl/ModaAlgorithms.cs:95-110 | the same for a whole list of results |
| ModaAlgorithms.FrontierNeighbour | MODA.Impl/ModaAlgorithms.cs:88 | a vertex on the frontier of a prefix's keys is a query neighbour of one of that prefix's keys |
| ModaAlgorithms.SameSideAsSeed | MODA.Impl/ModaAlgorithms.cs:88-110 | when no query edge leaves S, every vertex the search adds lies on the same side of S as the first one |
| ModaAlgorithms.GrownConnected | MODA.Impl/ModaAlgorithms.cs:88-110 | a complete map grown by search steps from its first entry proves the query graph connected |
| ModaAlgorithms.OneEntryConnected | MODA.Impl/ModaAlgorithms.cs:47-134 | a search from a one-entry map that returns anything ran on a connected query graph |
| ModaAlgorithms.ExtendsInjective | MODA.Impl/ModaAlgorithms.cs:94-129 | results from an injective start are injective |
| ModaAlgorithms.CandidateFacts | MODA.Impl/ModaAlgorithms.cs:94-95 | a candidate n is outside the range and next to it in the caller's graph |
| ModaAlgorithms.ExtendedMapFacts | MODA.Impl/ModaAlgorithms.cs:102-107 | adding an unmapped query vertex keeps the keys distinct and within H |
| ModaAlgorithms.CopyMap | MODA.Impl/ModaAlgorithms.cs:102-106 | the copy loop reproduces the dictionary entry by entry |
| ModaAlgorithms.ValuesDistinctCountIsInjective | MODA.Impl/ModaAlgorithms.cs:119 | `new HashSet(values).Count == Count` holds exactly when the map is injective |
| ModaAlgorithms.AdmitFacts | MODA.Impl/ModaAlgorithms.cs:119-128 | admitting an item keeps the list or appends the item, and then only an injective one; an injective item ends up with an equal in the list; no second equal mapping enters |
| ModaAlgorithms.AdmitAllExtends | MODA.Impl/ModaAlgorithms.cs:117-129 | the merge keeps the old list as its prefix and takes new members only from the batch, injective ones only |
| ModaAlgorithms.AdmitAllCovers | MODA.Impl/ModaAlgorithms.cs:117-129 | every injective mapping of the batch has an equal in the merge, and a list without duplicate functions stays so |
| ModaAlgorithms.MergeBatchesStep | MODA.Impl/ModaAlgorithms.cs:111-129 | one more batch: taken whole while the list is empty, merged through AdmitAll otherwise |
| ModaAlgorithms.MergeBatchesMerged | MODA.Impl/ModaAlgorithms.cs:111-129 | the merged list holds only mappings of the batches and an equal of every injective one; the first non-empty batch is its prefix; it is empty exactly when every batch is |
| ModaAlgorithms.MergedFirst | MODA.Impl/ModaAlgorithms.cs:111-114 | while every earlier batch was empty, the list becomes the new batch whole |
| ModaAlgorithms.MergedMore | MODA.Impl/ModaAlgorithms.cs:115-129 | a later batch merged into a non-empty list keeps the merge properties |
| ModaAlgorithms.SearchedStep | MODA.Impl/ModaAlgorithms.cs:94-110 | the next candidate's batch extends the record of searched candidates: results from f plus m -> n, empty when n fails the test, and complete for the extended map on a connected query graph |
| ModaAlgorithms.AddIfNew | MODA.Impl/ModaAlgorithms.cs:119-128 | the lambda body computes Admit: the item is appended exactly when its map is injective and no mapping of the list is equal to it |
| ModaAlgorithms.AddNewIsomorphisms | MODA.Impl/ModaAlgorithms.cs:117-129 | the ForEach computes AdmitAll; so the merge keeps the old list as a prefix, appends only injective items of the batch, represents every injective item, and admits no duplicate function |
| ModaAlgorithms.CompleteMapping | MODA.Impl/ModaAlgorithms.cs:50-82 | the base case returns the map with its image graph; on a table hit the InputSubGraph is the stored entry and the tables are unchanged; on a miss the table gains exactly that key, mapped to a graph without parallel edges whose edges are exactly the current graph's edges between mapped vertices |
| ModaAlgorithms.BaseCaseExtends | MODA.Impl/ModaAlgorithms.cs:50-82 | the base-case mapping is a result of the search from a complete map |
| ModaAlgorithms.FrontierVertexFacts | MODA.Impl/ModaAlgorithms.cs:89-90 | a non-blank pick is a query vertex not yet in the domain, so the recursion measure `VertexCount - Count` drops |
| ModaAlgorithms.ExtendWith | MODA.Impl/ModaAlgorithms.cs:101-110 | f' = f plus m -> n, then its extensions: all are results of the search from f and from f', with no duplicate function; on a connected query graph every embedding agreeing with f' has a result |
| ModaAlgorithms.IsomorphicExtension | MODA.Impl/ModaAlgorithms.cs:47-134 | every result has exactly `VertexCount` entries, begins with f, and grows by legal steps (each picking a non-blank frontier vertex); it carries the image graph and an induced subgraph; no two results are equal; injective starts give injective results; a complete f returns just itself; no frontier returns nothing; started from a non-empty f on a connected query graph, every embedding of H in the current graph that agrees with f has a result with that function; started from one entry on a query graph that is not connected, nothing is returned; the memo tables stay valid |
| ModaAlgorithms.ExtendAcross | MODA.Impl/ModaAlgorithms.cs:92-133 | the candidate foreach: candidate t yields batch t (nothing when it fails the test, otherwise the results from f plus m -> candidate, complete for that map on a connected query graph); the list is exactly MergeBatches of the batches, i.e. the first non-empty batch whole and later ones admitted one by one; all are results from f, with no duplicates |
| ModaAlgorithms.TryCandidate | MODA.Impl/ModaAlgorithms.cs:94-131 | one pass of the foreach: candidate t adds its batch to the searched record and the list becomes the merge of one more batch |
| ModaAlgorithms.EmbedsNeighbour | MODA.Impl/ModaAlgorithms.cs:94 | an embedding sends a query neighbour of u to an input neighbour of u's image |
| ModaAlgorithms.AgreesInjective | MODA.Impl/ModaAlgorithms.cs:119 | a map that agrees with an embedding is injective |
| ModaAlgorithms.CompleteFindsAll | MODA.Impl/ModaAlgorithms.cs:50-82 | a complete map misses no embedding: every embedding agreeing with it is its own function |
| ModaAlgorithms.PickInFrontier | MODA.Impl/ModaAlgorithms.cs:88-89 | on a connected query graph an incomplete non-empty map always has a frontier pick, and a blank pick means there is no embedding at all |
| ModaAlgorithms.EmbeddingCompatible | MODA.Impl/ModaAlgorithms.cs:96-99 | the image of m under an embedding agreeing with f never fails the compatibility test |
| ModaAlgorithms.CandidateCovers | MODA.Impl/ModaAlgorithms.cs:93-107 | the image of m under an embedding agreeing with f is among the candidates, passes the test, and the embedding agrees with f plus m -> that image |
| ModaAlgorithms.CandidatesFindAll | MODA.Impl/ModaAlgorithms.cs:92-133 | when each candidate's batch misses no embedding for its extended map, the merged list misses no embedding agreeing with f |
| RootElimination.SampleCount | MODACrossPlatform/MODA.Impl/ModaAlgorithms.2.cs:20 | a positive numberOfSamples is kept; otherwise VertexCount / 3 rounded down |
| RootElimination.RemoveAllSpec | MODACrossPlatform/MODA.Impl/ModaAlgorithms.2.cs:37-91 | removing the roots one by one keeps the clone simple, only loses edges, and leaves exactly the vertices that are not roots |
| RootElimination.RootStillPresent | MODACrossPlatform/MODA.Impl/ModaAlgorithms.2.cs:37-90 | with distinct roots, root i is still in the clone when processed exactly when it has an edge in G, and the clone then loses exactly that root |
| RootElimination.ExtendsSeedShape | MODACrossPlatform/MODA.Impl/ModaAlgorithms.2.cs:46-47 | a result from the seed {h -> g} has VertexCount entries, begins with (h, g), and maps every query vertex |
| RootElimination.ExtendsSeedInjective | MODACrossPlatform/MODA.Impl/ModaAlgorithms.2.cs:46-47 | a result from a singleton seed is injective |
| RootElimination.SeededFacts | MODACrossPlatform/MODA.Impl/ModaAlgorithms.2.cs:41-47 | a result seeded at g for a supported h is total, injective, starts at g, and carries the image of the query edges |
| RootElimination.GainedOnlyTrans | MODACrossPlatform/MODA.Impl/ModaAlgorithms.2.cs:56-74 | what the buckets gained over two stretches is what they gained in each |
| RootElimination.FiledGrows | MODACrossPlatform/MODA.Impl/ModaAlgorithms.2.cs:56-74 | a mapping filed stays filed as the buckets grow |
| RootElimination.HoldsGrows | MODACrossPlatform/MODA.Impl/ModaAlgorithms.2.cs:56-74 | a map held in a bucket stays held as the buckets grow |
| RootElimination.GrowsTrans | MODACrossPlatform/MODA.Impl/ModaAlgorithms.2.cs:39-87 | buckets that grow twice grow |
| RootElimination.FiledHolds | MODACrossPlatform/MODA.Impl/ModaAlgorithms.2.cs:58-73 | a filed mapping's function is held |
| RootElimination.FileMapping | MODACrossPlatform/MODA.Impl/ModaAlgorithms.2.cs:58-73 | a new last value opens a bucket [mapping] at the end of the key order; otherwise the mapping is appended to its bucket unless an equal one is there; other buckets are untouched; no bucket holds two equal mappings |
| RootElimination.FileAll | MODACrossPlatform/MODA.Impl/ModaAlgorithms.2.cs:56-74 | after the foreach every mapping is filed under its last value, buckets only grow, and they gained only these mappings |
| RootElimination.FlattenSize | MODACrossPlatform/MODA.Impl/ModaAlgorithms.2.cs:93-97 | the concatenation's length is the sum of the bucket sizes |
| RootElimination.FlattenMembers | MODACrossPlatform/MODA.Impl/ModaAlgorithms.2.cs:93-97 | the concatenation holds exactly the mappings of the buckets |
| RootElimination.FlattenHolds | MODACrossPlatform/MODA.Impl/ModaAlgorithms.2.cs:93-97 | a function held in some bucket has a mapping in the concatenation |
| RootElimination.FlattenNoTwoSame | MODACrossPlatform/MODA.Impl/ModaAlgorithms.2.cs:93-97 | concatenating buckets that file each mapping under its last value and hold no two equal mappings yields a list in which mappings with the same last value are never equal |
| RootElimination.FlattenFound | MODACrossPlatform/MODA.Impl/ModaAlgorithms.2.cs:93-97 | every mapping of the concatenation was found from a root |
| RootElimination.ResultsSeeded | MODACrossPlatform/MODA.Impl/ModaAlgorithms.2.cs:41-47 | each search result for a supported pair is a result seeded at g and is non-empty |
| RootElimination.RootedFound | MODACrossPlatform/MODA.Impl/ModaAlgorithms.2.cs:46-47 | an embedding sending h to g agrees with the seed, so a complete search from it has a mapping for it |
| RootElimination.SearchFromSeed | MODACrossPlatform/MODA.Impl/ModaAlgorithms.2.cs:46-47 | the search from {h -> g} on the clone returns results seeded at g, keeps the tables valid, and on a connected query graph has a result for every embedding in the clone sending h to g |
| RootElimination.TryPair | MODACrossPlatform/MODA.Impl/ModaAlgorithms.2.cs:41-86 | an unsupported pair changes nothing; a supported one files only mappings seeded at g; buckets only grow; on a connected query graph every embedding in the clone sending h to g is then held in a bucket |
| RootElimination.TryRoot | MODACrossPlatform/MODA.Impl/ModaAlgorithms.2.cs:39-87 | every query vertex is tried against g; if g supports none, the buckets are unchanged; buckets only grow; on a connected query graph every embedding in the clone sending a supported query vertex to g is held |
| RootElimination.CoveredStep | MODACrossPlatform/MODA.Impl/ModaAlgorithms.2.cs:39-87 | after query vertex t, the embeddings rooted at it and at every earlier query vertex are held |
| RootElimination.EveryQueryVertex | MODACrossPlatform/MODA.Impl/ModaAlgorithms.2.cs:39 | covering the query vertices by position covers every query vertex |
| RootElimination.SeededIsFound | MODACrossPlatform/MODA.Impl/ModaAlgorithms.2.cs:37-91 | a result seeded at root i on the clone at that time counts as found from the roots |
| RootElimination.FoundFacts | MODACrossPlatform/MODA.Impl/ModaAlgorithms.2.cs:41-47 | a found mapping is total, injective and carries the image of the query edges, some root supported some query vertex, and the query graph is connected |
| RootElimination.SeededConnected | MODACrossPlatform/MODA.Impl/ModaAlgorithms.2.cs:46-47 | a result seeded at g shows the query graph connected |
| RootElimination.WalkRoots | MODACrossPlatform/MODA.Impl/ModaAlgorithms.2.cs:37-91 | the root loop leaves the clone without the roots, keeps the buckets well formed, files only found mappings, and on a connected query graph holds every embedding rooted at a root on the clone as it stood then |
| RootElimination.Concatenate | MODACrossPlatform/MODA.Impl/ModaAlgorithms.2.cs:93-97 | the final foreach concatenates the buckets in key order |
| RootElimination.Algorithm2 | MODACrossPlatform/MODA.Impl/ModaAlgorithms.2.cs:17-108 | the roots are the degree sequence of the caller's graph for the sample count, without repeats; the clone ends with exactly the vertices of G that have an edge and are not roots, and only G's edges; the buckets are well formed; the result is their concatenation, its length the sum of their sizes, and each result was found from a root; every returned mapping is total over the query vertices, injective and carries the image of the query edges; two returned mappings with the same last value are never the same function; on a connected query graph, every embedding in the clone of root i that sends a query vertex g supports to root i has a returned mapping with that function; on a query graph that is not connected the result is empty |
| RootElimination.FinalCloneSpec | MODACrossPlatform/MODA.Impl/ModaAlgorithms.2.cs:24-91 | after all removals the clone holds the non-root vertices of degree > 0 and only edges of G |
| RootElimination.Algorithm2Results | MODACrossPlatform/MODA.Impl/ModaAlgorithms.2.cs:41-97 | every returned mapping is total over the query vertices, injective, and carries the image of the query edges; a non-empty result means some root supported some query vertex and the query graph is connected |

## Left out

- Console logging and the `StringBuilder` log text (`ModaAlgorithms.2.cs:51-82, 98`): output only.
- `AsString` and `ToQueryGraph`: display formatting and a constructor wrapper over the graph library.
- The static settings `Threshold`, `GetOnlyMappingCounts`, `UseModifiedGrochow` and `QueryGraph`, and the never-read tables `G_NodeNeighbours`/`H_NodeNeighbours`: not read by the modelled code.
- The `try { … } catch { }` around `Remove` and the `x = null` statements: `Remove` of a present element cannot fail, and releasing references has no effect on the values.
- The QuickGraph library itself is not part of this model. Its operations are modelled on the edge list: vertices in insertion order, `AdjacentEdges` in edge order, `RemoveVertex` keeping the remaining order. Hash enumeration order of `HashSet`/`Dictionary` is taken to be insertion order.
- `Mapping`, `Mapping.Equals`, `MappingNodesComparer` and the one-argument `GetNeighbors` are not part of this model:
  - `new Mapping(partialMap)` is taken to start `MapOnInputSubGraph` as an empty graph that allows parallel edges, which `ImageGraph` then fills;
  - `Equals` is taken to be equality of the functions;
  - the comparer is taken to be equality of the key sets;
  - the one-argument `GetNeighbors` is taken to behave like the two-argument one.
- Extensions.GetNeighbors: the `isG` flag is not modelled, because both of its branches do the same thing.
- Extensions.CompleteIffAllPairsAdjacent: proved only for graphs of at most 46341 vertices. Beyond that, `V * (V - 1)` overflows C#'s `int`; `IsComplete` models the wrap-around but no characterisation is claimed there.
- ModaAlgorithms.IsomorphicExtension: does not claim that results are edge-preserving isomorphisms, as the doc comment promises. The compatibility test stops at the first unmapped neighbour, so the contract states only what each search step checked.
- ModaAlgorithms.ChooseNeighboursOfRange: a table hit is bounded by the caller's graph and the current clone, not claimed equal to a recomputation, because the tables are not cleared while the clone shrinks.
- ModaAlgorithms.IsomorphicExtension: completeness (no embedding missed) is proved for a connected query graph, from a non-empty start, for embeddings with non-blank vertex names into the graph searched at that call (the clone as it stands), not into the caller's graph. From a start of two or more entries on a query graph that is not connected, nothing is claimed about what is returned.
- ModaAlgorithms.CanSupport: QuickGraph's `AdjacentDegree` throws `KeyNotFoundException` for a vertex that is not in the graph; the model reads degree 0 there. This happens when a sampled root has no edge (an isolated vertex of G is dropped by `Clone` but can still be a root), at `ModaAlgorithms.2.cs:41` reaching `ModaAlgorithms.cs:338`.
- Extensions.IsIsomorphicWith: the lookup of `otherMapping.MapOnInputSubGraph.AdjacentDegree(node)` at `Extensions.cs:32-33` throws when a vertex of this mapping's image graph is not a vertex of the other's (an image graph has as vertices only the ends of its edges); the model reads degree 0 there.
- RootElimination.Algorithm2: when a sampled root has no edge, the source throws (see ModaAlgorithms.CanSupport above), while the model goes on with degree 0 and that root finds nothing. Completeness is stated for embeddings rooted at a root on the clone as it stood then and sending to it a query vertex it supports; that every such embedding passes `CanSupport` is not proved.
- RootElimination.Algorithm2: requires both graphs to be simple (distinct vertices, no self-loops, no parallel edges); other inputs are not modelled. It also does not state the order of the result beyond "buckets in key-insertion order".
- The expansion-tree path of MODA is not part of this model, and no parallelism exists to model.
