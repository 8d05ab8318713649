# Trustfall query indexer, modelled and verified in Dafny

Trustfall compiles a query into an intermediate representation (IR): a tree
of *components*. Each component has a root vertex and ordered maps of
vertices, regular edges, folds and outputs. A fold's body is a nested
component. Before execution, `IndexedQuery::try_from` validates this tree and
indexes it in one recursive pass (`add_data_from_component`). The pass checks
the tree's structural invariants and fills four maps:

- `vids`: vertex id → the component that declares the vertex;
- `eids`: edge id → `Regular(edge)` or `Fold(fold)`;
- `required_arguments`: the variables the query's filters need;
- `outputs`: output name → `Output`. The output's type is the field type
  wrapped in one non-nullable list layer per enclosing fold.

The pass stops at the first violation and returns an error code from -1 to 14.

The model has two layers.

- **Specification.** Module `Indexed` defines the pass as pure functions.
  `AddComponent` and `AddFoldsFrom` thread the four indices through each step
  in the source's order:
  1. the root check;
  2. vertices, in ascending id order;
  3. outputs;
  4. edges;
  5. each fold, followed at once by its nested component.

  Each step checks its conditions in the source's order and yields the
  source's error code.
- **Implementation.** `IndexBuilder` is a class whose four map fields are
  updated in place, as the source's `&mut` maps are. Its recursive method
  `AddDataFromComponent` has one loop per map, plus the inner loop over each
  vertex's filters. It is proved to compute exactly the specification.
  `WrapOutputType` keeps the source's wrapping loop. `TryFrom` starts from
  empty maps, exactly as the source does.

Module `IndexedProofs` proves what the pass computes without reference to the
order of its steps. Module `QueryProperties` states it for whole queries:

- Indexing succeeds exactly when two things hold:
  - every component is well formed: its root is one of its vertices, its
    outputs are on its own vertices, each edge or fold with id `e` targets
    vertex `e + 1` from a vertex of the component, a regular edge's target is
    also a vertex of the component, and each fold targets the root of its
    nested component;
  - vertex ids, output names and edge and fold ids are each unique across
    the whole tree.
- On success, each index holds exactly the entries the tree declares.

Module `ErrorOrder` proves which error the pass reports, for every code
from 0 to 14. The answer depends on what is registered when the check runs.
Each lemma states the code in terms of two things: the indices before the
component, and what the component itself declares, including the subtrees
of the folds checked before. `ErrorOrder.ComponentRecords` says what a
subtree adds: exactly its vertices and its edge and fold entries, each
under a new key. These lemmas hold for any tree, including one whose
component ids repeat. Module `Scenarios` works through nine small queries.

Representation choices:

- **Ordered maps** (`BTreeMap`) are association lists in ascending key order,
  which is the order the pass visits them. `AssocLists.ToMap` is the map a
  list denotes.
- **Component identity.** The source compares components by pointer
  (`ptr::eq` on `Arc`). Here every component carries an explicit `id`, and
  the whole-query lemmas assume the tree's components have distinct ids
  (`DistinctComponentIds`).
- **Errors.** Each check's failure is a named variant of
  `InvalidIRQueryError`, and `Code()` gives the number the source reports.

One behaviour is easy to get wrong. Suppose an output of a component names a
vertex of one of that component's own nested folds. The variant names suggest
`OutputVertexWrongComponent` (code 2). The code reports `DanglingOutputVertex` (code 1). The
pass checks outputs before it indexes the component's folds, so that vertex
is not yet registered. The model follows the code:
`ErrorOrder.OutputOnUnregisteredVertex` proves the general case, and
`Scenarios.OutputIntoFoldDangling` works through a concrete query.

## Model

| member | source | states |
|---|---|---|
| Indexed.FromCode | trustfall_core/src/ir/indexed.rs:37-40 | every code from -1 to 14 names exactly one check, and the check it names reports that code |
| Indexed.VariableNames | trustfall_core/src/ir/indexed.rs:110-119 | a name is collected from a vertex's filters iff some filter's right-hand side is `Variable(name)`; tags and filters with no right-hand side add nothing |
| Indexed.WrapOutputType | trustfall_core/src/ir/indexed.rs:133-144 | the loop yields the field type wrapped in exactly `foldDepth` non-nullable list layers, and the type unchanged at depth 0 |
| Indexed.IndexBuilder.constructor | trustfall_core/src/ir/indexed.rs:67-70 | the four indices start empty |
| Indexed.IndexBuilder.AddVertexData | trustfall_core/src/ir/indexed.rs:104-120 | the vertex loop and its inner filter loop leave exactly the indices of the vertex step, or report its error (code 0) |
| Indexed.IndexBuilder.AddOutputData | trustfall_core/src/ir/indexed.rs:122-156 | the output loop leaves exactly the indices of the output step, or reports its first error (codes 1, 2, 3 in that order) |
| Indexed.IndexBuilder.AddEdgeData | trustfall_core/src/ir/indexed.rs:158-182 | the edge loop leaves exactly the indices of the edge step, or reports its first error (codes 4 to 9 in that order) |
| Indexed.IndexBuilder.AddDataFromComponent | trustfall_core/src/ir/indexed.rs:91-213 | the in-place pass over a component computes the specification `AddComponent`: the same indices on success, the same first error otherwise; a missing root fails with code -1 before any index is touched |
| Indexed.TryFrom | trustfall_core/src/ir/indexed.rs:42-89 | starting from empty maps, the result is the indexed query or the first error, exactly as the specification `IndexQuery` gives it |
| IndexedProofs.AddVerticesSpec | trustfall_core/src/ir/indexed.rs:104-120 | registering vertices succeeds iff their ids are distinct and not yet registered; each is then owned by the component, and the variables of its filters are added |
| IndexedProofs.AddOutputsSpec | trustfall_core/src/ir/indexed.rs:122-156 | with the component's own vertices registered, recording outputs succeeds iff every output is on a vertex of the component and the names are distinct and new; each name then maps to its output with the wrapped type |
| IndexedProofs.AddEdgesSpec | trustfall_core/src/ir/indexed.rs:158-182 | recording regular edges succeeds iff each edge with id `e` targets vertex `e + 1`, both ends are vertices of the component, and the ids are distinct and new; each id then maps to `Regular(edge)` |
| IndexedProofs.FoldEdgeSpec | trustfall_core/src/ir/indexed.rs:185-207 | recording a fold succeeds iff it targets vertex `e + 1`, starts at a vertex of the component, targets the nested component's root, and has a new id; the id then maps to `Fold(fold)` |
| IndexedProofs.AddComponentSpec | trustfall_core/src/ir/indexed.rs:91-213 | indexing a component succeeds iff every component of its tree is well formed and every vertex id, output name and edge id in the tree is new and declared once; the indices then gain exactly the tree's entries |
| IndexedProofs.AddFoldsFromSpec | trustfall_core/src/ir/indexed.rs:184-210 | indexing the folds from the `i`-th on succeeds iff those folds are well formed and their subtrees can be added; the indices then gain the folds' entries and their subtrees' entries |
| IndexedProofs.NestedSpec | trustfall_core/src/ir/indexed.rs:209-210 | a recorded fold's nested component, indexed one level deeper, followed by the later folds, succeeds iff the later folds are well formed and the subtrees can be added |
| QueryProperties.IndexQueryCharacterized | trustfall_core/src/ir/indexed.rs:67-87 | for a tree of distinct components, `try_from` succeeds iff the query is valid; the result then holds the query unchanged and, as its indices, the maps of the tree's vertex, edge and output entries and the variables its filters need |
| QueryProperties.VidsOfDeclaringComponent | trustfall_core/src/ir/indexed.rs:104-108 | on success, every vertex of every component of the tree is indexed to that component |
| QueryProperties.VidsDeclared | trustfall_core/src/ir/indexed.rs:104-108 | on success, every indexed vertex id is a vertex of the component it is indexed to |
| QueryProperties.OutputsOfDeclaringComponent | trustfall_core/src/ir/indexed.rs:133-152 | on success, each output of the tree is indexed under its name, with its own vertex and its field type wrapped once per fold enclosing its component |
| QueryProperties.OutputsDeclared | trustfall_core/src/ir/indexed.rs:146-152 | on success, every indexed output name is declared by some component of the tree |
| QueryProperties.RequiredArgumentsExact | trustfall_core/src/ir/indexed.rs:110-119 | on success, a name is a required argument iff some filter of some vertex anywhere in the tree takes it as a `Variable` |
| QueryProperties.EidsExact | trustfall_core/src/ir/indexed.rs:178-207 | on success, the indexed edge ids are exactly the ids of the regular edges and folds of all the tree's components |
| QueryProperties.EidsOfDeclaringComponent | trustfall_core/src/ir/indexed.rs:178-207 | on success, each regular edge is indexed as `Regular(edge)` and each fold as `Fold(fold)` under its own id |
| QueryProperties.UnwrapWrapped | trustfall_core/src/ir/indexed.rs:133-144 | removing `depth` non-nullable list layers from the wrapped type gives back the field type |
| QueryProperties.WrappedUnwrapped | trustfall_core/src/ir/indexed.rs:133-144 | a type with `depth` non-nullable list layers is the wrapping of the type under them |
| QueryProperties.CodeRoundTrip | trustfall_core/src/ir/indexed.rs:37-40 | each error has its own code |
| ErrorOrder.AddOutputsKeepsVertices | trustfall_core/src/ir/indexed.rs:122-156 | recording outputs changes neither the vertex index nor the edge index |
| ErrorOrder.ComponentGrows | trustfall_core/src/ir/indexed.rs:91-213 | indexing a component and its subtree keeps every vertex entry and every edge id already indexed |
| ErrorOrder.VertexAlreadyIndexed | trustfall_core/src/ir/indexed.rs:104-108 | once the earlier vertices register, a vertex id registered before the component or repeated within it fails the component with code 0 |
| ErrorOrder.VerticesKeepOthers | trustfall_core/src/ir/indexed.rs:104-108 | registering a component's vertices leaves every other vertex id's entry as it was |
| ErrorOrder.FirstFailingOutput | trustfall_core/src/ir/indexed.rs:122-156 | once root and vertices pass, the first failing output's error is the component's error, before any edge or fold is examined |
| ErrorOrder.OutputOnUnregisteredVertex | trustfall_core/src/ir/indexed.rs:126-128 | an output on a vertex that is neither already registered nor the component's own fails with code 1; this includes a vertex of the component's own nested fold |
| ErrorOrder.OutputOnOtherComponentsVertex | trustfall_core/src/ir/indexed.rs:129-131 | an output on a vertex registered by an earlier component fails with code 2 |
| ErrorOrder.OutputNameAlreadyIndexed | trustfall_core/src/ir/indexed.rs:146-155 | an output on one of the component's own vertices whose name was recorded before the component or by an earlier output fails with code 3 |
| ErrorOrder.FirstFailingEdge | trustfall_core/src/ir/indexed.rs:158-182 | once everything before edge `k` passes, a failing edge `k` gives the component's error, before any later edge or fold is examined |
| ErrorOrder.EdgeCodes | trustfall_core/src/ir/indexed.rs:158-182 | the error of edge `k`, checked in order: id not matching the target (4); a source vertex that is neither registered before the component nor its own, such as a vertex of its own fold (5), or that belongs to another component (6); the same for the target (7, 8); an id recorded before the component or by an earlier edge (9) |
| ErrorOrder.FirstFailingFold | trustfall_core/src/ir/indexed.rs:184-210 | once everything before fold `k` passes, including the earlier folds' subtrees, a failing fold `k` gives the component's error |
| ErrorOrder.ComponentRecords | trustfall_core/src/ir/indexed.rs:91-213 | for any tree, a successful pass over a component adds to the vertex index exactly the vertices of its subtree, each owned by its declaring component, and to the edge index exactly the subtree's edge and fold entries, every key new |
| ErrorOrder.FoldsThroughRecords | trustfall_core/src/ir/indexed.rs:185-210 | the folds `j` to `k - 1` of a component, each followed by its subtree, add exactly those subtrees' vertices and the folds' and subtrees' edge entries, every key new |
| ErrorOrder.FoldCodes | trustfall_core/src/ir/indexed.rs:185-207 | the error of fold `k`, with the subtrees of folds `0` to `k - 1` already indexed: id not matching the target (10); a source vertex registered neither before the component, nor by it, nor by a component of an earlier fold's subtree (11); a source vertex registered before the component or declared in an earlier fold's subtree, by a component of another identity (12); with the source vertex registered to the component's identity, a target that is not the nested root (13), or an id recorded before the component, by one of its regular edges, or by an earlier fold or any edge or fold inside that fold's subtree (14) |
| Scenarios.SingleVertexIndexed | trustfall_core/src/ir/indexed.rs:67-87 | one root vertex with an output at depth 0: success, that output with the unwrapped type, no required arguments |
| Scenarios.WithEdgeIndexed | trustfall_core/src/ir/indexed.rs:110-118 | an edge to a vertex filtered by variable `x`, a tag and a unary filter: `eids` is that edge alone, and `x` is the only required argument |
| Scenarios.MismatchedEdgeRejected | trustfall_core/src/ir/indexed.rs:160-162 | edge 1 targeting vertex 3: failure with code 4 |
| Scenarios.FoldedOutputWrapped | trustfall_core/src/ir/indexed.rs:133-144 | an output inside a fold: its type is the field type in one non-nullable list |
| Scenarios.RepeatedVertexRejected | trustfall_core/src/ir/indexed.rs:105-108 | a vertex id declared by the root and by its folded component: failure with code 0 |
| Scenarios.OutputIntoFoldDangling | trustfall_core/src/ir/indexed.rs:126-128 | a root output on a vertex of its own fold: failure with code 1 |
| Scenarios.EdgeIntoFoldMissing | trustfall_core/src/ir/indexed.rs:171-173 | a root edge whose target is a vertex of its own fold: failure with code 7 |
| Scenarios.FoldFromSubtreeWrongComponent | trustfall_core/src/ir/indexed.rs:192-197 | a root fold whose source vertex was declared by the subtree of the root's earlier fold: failure with code 12 |
| Scenarios.FoldReusesSubtreeEdgeDuplicate | trustfall_core/src/ir/indexed.rs:204-207 | a root fold whose id is the id of an edge inside the subtree of the root's earlier fold: failure with code 14 |

## Left out

- Serialization: the `Serialize`/`Deserialize` derives and the type (de)serializers are derived or foreign code.
- Reference counting: `Arc` is replaced by plain values.
- `ptr::eq`: memory identity is replaced by an explicit component id.
- QueryProperties.IndexQueryCharacterized: assumes the tree's components have distinct ids, as distinct objects have distinct addresses; the other whole-query lemmas carry the same assumption.
- IndexedProofs.AddComponentSpec, IndexedProofs.AddFoldsFromSpec and IndexedProofs.NestedSpec: require `IdsApart`, that is, the subtree's components have distinct ids that no registered vertex's owner has; without it a nested component reusing its parent's id lets an edge onto a parent vertex through, where the source, comparing by address, reports code 6.
- IndexedProofs.AddOutputsSpec, IndexedProofs.AddEdgesSpec and IndexedProofs.FoldEdgeSpec: require `OwnsExactly`, that the registered vertices owned by a component with `c`'s id are exactly `c`'s vertices, which the same distinct-id assumption provides.
- The lemmas of `ErrorOrder` carry neither assumption: which error the pass reports is stated for any tree.
- Machine integers: `eid + 1` and `fold_depth + 1` are unbounded naturals; `usize` overflow is not modelled.
- The invariants listed in the comment at lines 46-66 (interval contiguity of edge ids, every vertex used by an edge, increasing vids, tags before use) are not checked by the source and are not claimed.
- GraphQL types: only their structure is kept, a named type or a list, each nullable or not; no type semantics.
- IR fields: only those the pass reads are kept (root, vertices with each filter's right-hand argument, edge and fold endpoints, a fold's component, output vertex and field type).
- Key order and uniqueness: a component's lists are taken in ascending key order, which is not enforced; a key repeated within one list, which a `BTreeMap` cannot hold, is reported like any other repeat.
- `EdgeKind`'s two `From` impls are its constructors, `Regular` and `Fold`; they have no separate member.
- Indexed.IndexBuilder.AddDataFromComponent: on failure, the contract states the error but not the part-way indices, which `try_from` drops.
- Error payloads: the source's error carries only its code, and so does the model.
