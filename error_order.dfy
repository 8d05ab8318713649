/**
 * Which error the pass reports. The pass stops at the first violation, and
 * the checks run in a fixed order: a component's vertices, then its
 * outputs, then its regular edges, then each fold followed by the fold's
 * nested component. So the error a check reports depends on what is
 * registered when it runs. The lemmas here state each error code in terms of
 * what was registered before the component and of the component itself; they
 * hold for any tree, whether or not its components have distinct ids.
 */
module ErrorOrder {
  import opened IR
  import opened AssocLists
  import opened Indexed
  import opened QueryTree
  import opened IndexedProofs
  import QueryProperties

  // ---------------------------------------------------------------------
  // What each step keeps.
  // ---------------------------------------------------------------------

  /** `t` keeps every vertex entry of `s` and every edge id of `s`. */
  ghost predicate Grows(s: Indices, t: Indices)
  {
    && (forall v | v in s.vids :: v in t.vids && t.vids[v] == s.vids[v])
    && s.eids.Keys <= t.eids.Keys
  }

  lemma GrowsTrans(a: Indices, b: Indices, c: Indices)
    requires Grows(a, b) && Grows(b, c)
    ensures Grows(a, c)
  {
  }

  /** Registering vertices keeps every entry already there, and adds exactly the new vertices' ids. */
  lemma {:induction false} AddVerticesGrows(s: Indices, c: Component, vs: seq<(Vid, Vertex)>)
    requires AddVertices(s, c, vs).Ok?
    ensures Grows(s, AddVertices(s, c, vs).value)
    ensures AddVertices(s, c, vs).value.vids.Keys == s.vids.Keys + Elements(Keys(vs))
    ensures AddVertices(s, c, vs).value.eids == s.eids
    ensures AddVertices(s, c, vs).value.outputs == s.outputs
    decreases |vs|
  {
    if vs != [] {
      var s' := RegisterVertex(s, c, vs[0].0, vs[0].1).value;
      AddVerticesGrows(s', c, vs[1..]);
      GrowsTrans(s, s', AddVertices(s', c, vs[1..]).value);
      assert Keys(vs) == [vs[0].0] + Keys(vs[1..]);
    }
  }

  /** Recording outputs changes neither the vertex nor the edge index. */
  lemma {:induction false} AddOutputsKeepsVertices(s: Indices, c: Component, outs: seq<(string, OutputField)>, depth: nat)
    requires AddOutputs(s, c, outs, depth).Ok?
    ensures AddOutputs(s, c, outs, depth).value.vids == s.vids
    ensures AddOutputs(s, c, outs, depth).value.eids == s.eids
    decreases |outs|
  {
    if outs != [] {
      AddOutputsKeepsVertices(AddOutput(s, c, outs[0].0, outs[0].1, depth).value, c, outs[1..], depth);
    }
  }

  /** Recording outputs adds exactly their names to the output index. */
  lemma {:induction false} AddOutputsNames(s: Indices, c: Component, outs: seq<(string, OutputField)>, depth: nat)
    requires AddOutputs(s, c, outs, depth).Ok?
    ensures AddOutputs(s, c, outs, depth).value.outputs.Keys == s.outputs.Keys + Elements(Keys(outs))
    decreases |outs|
  {
    if outs != [] {
      AddOutputsNames(AddOutput(s, c, outs[0].0, outs[0].1, depth).value, c, outs[1..], depth);
      assert Keys(outs) == [outs[0].0] + Keys(outs[1..]);
    }
  }

  /** Recording regular edges keeps the vertex index and adds exactly their ids to the edge index. */
  lemma {:induction false} AddEdgesRecords(s: Indices, c: Component, edges: seq<(Eid, Edge)>)
    requires AddEdges(s, c, edges).Ok?
    ensures AddEdges(s, c, edges).value.vids == s.vids
    ensures AddEdges(s, c, edges).value.eids.Keys == s.eids.Keys + Elements(Keys(edges))
    decreases |edges|
  {
    if edges != [] {
      AddEdgesRecords(AddEdge(s, c, edges[0].0, edges[0].1).value, c, edges[1..]);
      assert Keys(edges) == [edges[0].0] + Keys(edges[1..]);
    }
  }

  /** Indexing a component, and with it its whole subtree, keeps every entry already there. */
  lemma {:induction false} ComponentGrows(s: Indices, c: Component, depth: nat)
    requires AddComponent(s, c, depth).Ok?
    ensures Grows(s, AddComponent(s, c, depth).value)
    decreases c, 1
  {
    var s1 := AddVertices(s, c, c.vertices).value;
    var s2 := AddOutputs(s1, c, c.outputs, depth).value;
    var s3 := AddEdges(s2, c, c.edges).value;
    AddVerticesGrows(s, c, c.vertices);
    AddOutputsKeepsVertices(s1, c, c.outputs, depth);
    AddEdgesRecords(s2, c, c.edges);
    FoldsFromGrow(s3, c, 0, depth);
    GrowsTrans(s, s1, s3);
    GrowsTrans(s, s3, AddComponent(s, c, depth).value);
  }

  lemma {:induction false} FoldsFromGrow(s: Indices, c: Component, i: nat, depth: nat)
    requires AddFoldsFrom(s, c, i, depth).Ok?
    ensures Grows(s, AddFoldsFrom(s, c, i, depth).value)
    decreases c, 0, |c.folds| - i
  {
    if i < |c.folds| {
      var s1 := AddFoldEdge(s, c, c.folds[i].0, c.folds[i].1).value;
      var s2 := AddComponent(s1, c.folds[i].1.component, depth + 1).value;
      ComponentGrows(s1, c.folds[i].1.component, depth + 1);
      FoldsFromGrow(s2, c, i + 1, depth);
      GrowsTrans(s, s1, s2);
      GrowsTrans(s, s2, AddFoldsFrom(s, c, i, depth).value);
    }
  }

  /** Registering a component's vertices leaves the entries of other vertex ids as they were. */
  lemma VerticesKeepOthers(s: Indices, c: Component, v: Vid)
    requires AddVertices(s, c, c.vertices).Ok?
    requires v !in Keys(c.vertices)
    ensures v in AddVertices(s, c, c.vertices).value.vids <==> v in s.vids
    ensures v in s.vids ==> AddVertices(s, c, c.vertices).value.vids[v] == s.vids[v]
  {
    AddVerticesSpec(s, c, c.vertices);
    OwnedVerticesKeys(c.vertices, c);
    assert v !in ToMap(OwnedVertices(c.vertices, c));
  }

  /** Once a component's vertices are registered, each of them is owned by the component. */
  lemma OwnVertexOwner(s: Indices, c: Component, v: Vid)
    requires AddVertices(s, c, c.vertices).Ok?
    requires v in Keys(c.vertices)
    ensures v in AddVertices(s, c, c.vertices).value.vids
    ensures AddVertices(s, c, c.vertices).value.vids[v] == c
  {
    AddVerticesSpec(s, c, c.vertices);
    OwnedVerticesKeys(c.vertices, c);
    var i := ToMapSource(OwnedVertices(c.vertices, c), v);
  }

  // ---------------------------------------------------------------------
  // Running a step's loop up to an entry, then from it.
  // ---------------------------------------------------------------------

  lemma {:induction false} AddVerticesSplit(s: Indices, c: Component, vs: seq<(Vid, Vertex)>, k: nat)
    requires k <= |vs|
    ensures AddVertices(s, c, vs[..k]).Err? ==> AddVertices(s, c, vs) == AddVertices(s, c, vs[..k])
    ensures AddVertices(s, c, vs[..k]).Ok? ==>
      AddVertices(s, c, vs) == AddVertices(AddVertices(s, c, vs[..k]).value, c, vs[k..])
    decreases k
  {
    if k == 0 {
      assert vs[..k] == [] && vs[k..] == vs;
    } else {
      var first := RegisterVertex(s, c, vs[0].0, vs[0].1);
      assert vs[..k][0] == vs[0] && vs[..k][1..] == vs[1..][..k - 1];
      assert vs[1..][k - 1..] == vs[k..];
      if first.Ok? {
        AddVerticesSplit(first.value, c, vs[1..], k - 1);
      }
    }
  }

  /** Recording outputs `outs` is recording its first `k` outputs, then the rest. */
  lemma {:induction false} AddOutputsSplit(s: Indices, c: Component, outs: seq<(string, OutputField)>, k: nat, depth: nat)
    requires k <= |outs|
    ensures AddOutputs(s, c, outs[..k], depth).Err? ==>
      AddOutputs(s, c, outs, depth) == AddOutputs(s, c, outs[..k], depth)
    ensures AddOutputs(s, c, outs[..k], depth).Ok? ==>
      AddOutputs(s, c, outs, depth) == AddOutputs(AddOutputs(s, c, outs[..k], depth).value, c, outs[k..], depth)
    decreases k
  {
    if k == 0 {
      assert outs[..k] == [] && outs[k..] == outs;
    } else {
      var first := AddOutput(s, c, outs[0].0, outs[0].1, depth);
      assert outs[..k][0] == outs[0] && outs[..k][1..] == outs[1..][..k - 1];
      assert outs[1..][k - 1..] == outs[k..];
      if first.Ok? {
        AddOutputsSplit(first.value, c, outs[1..], k - 1, depth);
      }
    }
  }

  lemma {:induction false} AddEdgesSplit(s: Indices, c: Component, edges: seq<(Eid, Edge)>, k: nat)
    requires k <= |edges|
    ensures AddEdges(s, c, edges[..k]).Err? ==> AddEdges(s, c, edges) == AddEdges(s, c, edges[..k])
    ensures AddEdges(s, c, edges[..k]).Ok? ==>
      AddEdges(s, c, edges) == AddEdges(AddEdges(s, c, edges[..k]).value, c, edges[k..])
    decreases k
  {
    if k == 0 {
      assert edges[..k] == [] && edges[k..] == edges;
    } else {
      var first := AddEdge(s, c, edges[0].0, edges[0].1);
      assert edges[..k][0] == edges[0] && edges[..k][1..] == edges[1..][..k - 1];
      assert edges[1..][k - 1..] == edges[k..];
      if first.Ok? {
        AddEdgesSplit(first.value, c, edges[1..], k - 1);
      }
    }
  }

  /** The folds `j` to `k - 1` of `c`, each followed at once by its nested component. */
  function FoldsThrough(s: Indices, c: Component, j: nat, k: nat, depth: nat): Result<Indices>
    requires j <= k <= |c.folds|
    decreases k - j
  {
    if j == k then Ok(s)
    else
      var s1 :- AddFoldEdge(s, c, c.folds[j].0, c.folds[j].1);
      var s2 :- AddComponent(s1, c.folds[j].1.component, depth + 1);
      FoldsThrough(s2, c, j + 1, k, depth)
  }

  lemma {:induction false} FoldsThroughSplit(s: Indices, c: Component, j: nat, k: nat, depth: nat)
    requires j <= k <= |c.folds|
    ensures FoldsThrough(s, c, j, k, depth).Err? ==>
      AddFoldsFrom(s, c, j, depth) == FoldsThrough(s, c, j, k, depth)
    ensures FoldsThrough(s, c, j, k, depth).Ok? ==>
      AddFoldsFrom(s, c, j, depth) == AddFoldsFrom(FoldsThrough(s, c, j, k, depth).value, c, k, depth)
    decreases k - j
  {
    if j < k {
      var s1 := AddFoldEdge(s, c, c.folds[j].0, c.folds[j].1);
      if s1.Ok? {
        var s2 := AddComponent(s1.value, c.folds[j].1.component, depth + 1);
        if s2.Ok? {
          FoldsThroughSplit(s2.value, c, j + 1, k, depth);
        }
      }
    }
  }

  /** A successful run of folds `j` to `k - 1` records fold `j`, indexes its subtree, and goes on from fold `j + 1`. */
  lemma FoldsThroughStep(s: Indices, c: Component, j: nat, k: nat, depth: nat)
    requires j < k <= |c.folds| && FoldsThrough(s, c, j, k, depth).Ok?
    ensures AddFoldEdge(s, c, c.folds[j].0, c.folds[j].1).Ok?
    ensures var s1 := AddFoldEdge(s, c, c.folds[j].0, c.folds[j].1).value;
      && AddComponent(s1, c.folds[j].1.component, depth + 1).Ok?
      && FoldsThrough(s, c, j, k, depth) ==
         FoldsThrough(AddComponent(s1, c.folds[j].1.component, depth + 1).value, c, j + 1, k, depth)
  {
  }

  // ---------------------------------------------------------------------
  // What a subtree registers.
  // ---------------------------------------------------------------------

  /**
   * Going from `s` to `t` registers exactly the vertex entries of the
   * components `cs` and records exactly the edge entries `es`, every key new.
   */
  ghost predicate Records(s: Indices, t: Indices, cs: seq<(Component, nat)>, es: seq<(Eid, EdgeKind)>)
  {
    && t.vids == s.vids + ToMap(VertexEntries(cs))
    && FreshKeys(Keys(VertexEntries(cs)), s.vids.Keys)
    && t.eids == s.eids + ToMap(es)
    && FreshKeys(Keys(es), s.eids.Keys)
  }

  lemma RecordsNothing(s: Indices)
    ensures Records(s, s, [], [])
  {
    assert VertexEntries([]) == [];
  }

  lemma RecordsConcat(s: Indices, m: Indices, t: Indices, a: seq<(Component, nat)>, b: seq<(Component, nat)>,
                      ea: seq<(Eid, EdgeKind)>, eb: seq<(Eid, EdgeKind)>)
    requires Records(s, m, a, ea) && Records(m, t, b, eb)
    ensures Records(s, t, a + b, ea + eb)
  {
    VertexEntriesConcat(a, b);
    assert t.vids == s.vids + ToMap(VertexEntries(a + b)) by {
      ToMapConcat(VertexEntries(a), VertexEntries(b));
      UnionAssoc(s.vids, ToMap(VertexEntries(a)), ToMap(VertexEntries(b)));
    }
    assert FreshKeys(Keys(VertexEntries(a + b)), s.vids.Keys) by {
      KeysConcat(VertexEntries(a), VertexEntries(b));
      FreshConcat(Keys(VertexEntries(a)), Keys(VertexEntries(b)), s.vids.Keys);
      assert m.vids.Keys == s.vids.Keys + Elements(Keys(VertexEntries(a)));
    }
    assert t.eids == s.eids + ToMap(ea + eb) by {
      ToMapConcat(ea, eb);
      UnionAssoc(s.eids, ToMap(ea), ToMap(eb));
    }
    assert FreshKeys(Keys(ea + eb), s.eids.Keys) by {
      KeysConcat(ea, eb);
      FreshConcat(Keys(ea), Keys(eb), s.eids.Keys);
      assert m.eids.Keys == s.eids.Keys + Elements(Keys(ea));
    }
  }

  /** Recording regular edges adds exactly their entries, each under an id not recorded before. */
  lemma {:induction false} AddEdgesAdds(s: Indices, c: Component, edges: seq<(Eid, Edge)>)
    requires AddEdges(s, c, edges).Ok?
    ensures AddEdges(s, c, edges).value.eids == s.eids + ToMap(RegularEntries(edges))
    ensures FreshKeys(Keys(RegularEntries(edges)), s.eids.Keys)
    decreases |edges|
  {
    if edges == [] {
      assert RegularEntries(edges) == [];
    } else {
      var (e, edge) := edges[0];
      var s' := AddEdge(s, c, e, edge).value;
      AddEdgesAdds(s', c, edges[1..]);
      assert RegularEntries(edges) == [(e, Regular(edge))] + RegularEntries(edges[1..]);
      InsertThenUnion(s.eids, e, Regular(edge), RegularEntries(edges[1..]));
      assert Keys(RegularEntries(edges)) == [e] + Keys(RegularEntries(edges[1..]));
      FreshCons(e, Keys(RegularEntries(edges[1..])), s.eids.Keys);
      assert s'.eids.Keys == s.eids.Keys + {e};
    }
  }

  /** Before its folds, a component registers exactly its own vertices and records exactly its regular edges. */
  lemma OwnRecords(s: Indices, c: Component, depth: nat)
    requires BeforeFold(s, c, depth, 0).Ok?
    ensures Records(s, BeforeFold(s, c, depth, 0).value, [(c, depth)], RegularEntries(c.edges))
  {
    var s1 := AddVertices(s, c, c.vertices).value;
    var s2 := AddOutputs(s1, c, c.outputs, depth).value;
    var t := BeforeFold(s, c, depth, 0).value;
    var own := OwnedVertices(c.vertices, c);
    assert t == AddEdges(s2, c, c.edges).value;
    assert s1.vids == s.vids + ToMap(own) && s1.eids == s.eids && FreshKeys(Keys(c.vertices), s.vids.Keys) by {
      AddVerticesSpec(s, c, c.vertices);
    }
    AddOutputsKeepsVertices(s1, c, c.outputs, depth);
    AddEdgesRecords(s2, c, c.edges);
    AddEdgesAdds(s2, c, c.edges);
    assert [(c, depth)][1..] == [];
    assert VertexEntries([(c, depth)]) == own;
    OwnedVerticesKeys(c.vertices, c);
    assert t.vids == s.vids + ToMap(own);
    assert FreshKeys(Keys(own), s.vids.Keys);
  }

  /** Recording fold `j` adds exactly its entry. */
  lemma FoldEntryRecords(s: Indices, c: Component, j: nat)
    requires j < |c.folds| && AddFoldEdge(s, c, c.folds[j].0, c.folds[j].1).Ok?
    ensures Records(s, AddFoldEdge(s, c, c.folds[j].0, c.folds[j].1).value, [],
                    [(c.folds[j].0, EdgeKind.Fold(c.folds[j].1))])
  {
    var entry := (c.folds[j].0, EdgeKind.Fold(c.folds[j].1));
    assert VertexEntries([]) == [];
    assert ToMap([entry]) == map[entry.0 := entry.1];
    assert Keys([entry]) == [entry.0];
  }

  /** The subtrees of folds `j` to `k - 1` of `c`, in the order the pass visits them. */
  function SubtreesThrough(c: Component, j: nat, k: nat, depth: nat): seq<(Component, nat)>
    requires j <= k <= |c.folds|
    decreases k - j
  {
    if j == k then []
    else Preorder(c.folds[j].1.component, depth + 1) + SubtreesThrough(c, j + 1, k, depth)
  }

  /** The entries of folds `j` to `k - 1` of `c`, each followed by its subtree's, in the order the pass records them. */
  function FoldEntriesThrough(c: Component, j: nat, k: nat): seq<(Eid, EdgeKind)>
    requires j <= k <= |c.folds|
    decreases k - j
  {
    if j == k then []
    else [(c.folds[j].0, EdgeKind.Fold(c.folds[j].1))] + EdgeEntries(c.folds[j].1.component)
         + FoldEntriesThrough(c, j + 1, k)
  }

  /** Running to the last fold visits the whole fold part of the preorder. */
  lemma {:induction false} ThroughAllFolds(c: Component, j: nat, depth: nat)
    requires j <= |c.folds|
    ensures SubtreesThrough(c, j, |c.folds|, depth) == FoldsPreorder(c, j, depth)
    ensures FoldEntriesThrough(c, j, |c.folds|) == FoldsEdgeEntries(c, j)
    decreases |c.folds| - j
  {
    if j < |c.folds| {
      ThroughAllFolds(c, j + 1, depth);
    }
  }

  /**
   * A successful pass over `c` registers exactly the vertices of its
   * subtree, in preorder, and records exactly the subtree's edge entries,
   * every key new: the components need not have distinct ids for this.
   */
  lemma {:induction false} ComponentRecords(s: Indices, c: Component, depth: nat)
    requires AddComponent(s, c, depth).Ok?
    ensures Records(s, AddComponent(s, c, depth).value, Preorder(c, depth), EdgeEntries(c))
    decreases c, 1
  {
    AddComponentThroughFolds(s, c, depth);
    FoldsThroughRecords(BeforeFold(s, c, depth, 0).value, c, 0, |c.folds|, depth);
    ComponentRecordsFinish(s, c, depth);
  }

  /** A successful pass over `c` runs through every fold of `c` after its own vertices, outputs and edges. */
  lemma AddComponentThroughFolds(s: Indices, c: Component, depth: nat)
    requires AddComponent(s, c, depth).Ok?
    ensures BeforeFold(s, c, depth, 0).Ok?
    ensures FoldsThrough(BeforeFold(s, c, depth, 0).value, c, 0, |c.folds|, depth).Ok?
    ensures AddComponent(s, c, depth) == FoldsThrough(BeforeFold(s, c, depth, 0).value, c, 0, |c.folds|, depth)
  {
    FoldsThroughSplit(BeforeFold(s, c, depth, 0).value, c, 0, |c.folds|, depth);
  }

  lemma ComponentRecordsFinish(s: Indices, c: Component, depth: nat)
    requires BeforeFold(s, c, depth, 0).Ok?
    requires FoldsThrough(BeforeFold(s, c, depth, 0).value, c, 0, |c.folds|, depth).Ok?
    requires Records(BeforeFold(s, c, depth, 0).value, FoldsThrough(BeforeFold(s, c, depth, 0).value, c, 0, |c.folds|, depth).value,
                     SubtreesThrough(c, 0, |c.folds|, depth), FoldEntriesThrough(c, 0, |c.folds|))
    ensures Records(s, FoldsThrough(BeforeFold(s, c, depth, 0).value, c, 0, |c.folds|, depth).value,
                    Preorder(c, depth), EdgeEntries(c))
  {
    OwnRecords(s, c, depth);
    ThroughAllFolds(c, 0, depth);
    RecordsConcat(s, BeforeFold(s, c, depth, 0).value, FoldsThrough(BeforeFold(s, c, depth, 0).value, c, 0, |c.folds|, depth).value,
                  [(c, depth)], FoldsPreorder(c, 0, depth), RegularEntries(c.edges), FoldsEdgeEntries(c, 0));
  }

  lemma {:induction false} FoldsThroughRecords(s: Indices, c: Component, j: nat, k: nat, depth: nat)
    requires j <= k <= |c.folds| && FoldsThrough(s, c, j, k, depth).Ok?
    ensures Records(s, FoldsThrough(s, c, j, k, depth).value, SubtreesThrough(c, j, k, depth), FoldEntriesThrough(c, j, k))
    decreases c, 0, k - j, 1
  {
    if j == k {
      RecordsNothing(s);
    } else {
      FoldsThroughStep(s, c, j, k, depth);
      FoldsThroughRecords(Stepped(s, c, j, depth), c, j + 1, k, depth);
      FoldsThroughNext(s, c, j, k, depth);
    }
  }

  /** The indices after fold `j` of `c` is recorded and its subtree indexed. */
  function Stepped(s: Indices, c: Component, j: nat, depth: nat): Indices
    requires j < |c.folds| && AddFoldEdge(s, c, c.folds[j].0, c.folds[j].1).Ok?
    requires AddComponent(AddFoldEdge(s, c, c.folds[j].0, c.folds[j].1).value, c.folds[j].1.component, depth + 1).Ok?
  {
    AddComponent(AddFoldEdge(s, c, c.folds[j].0, c.folds[j].1).value, c.folds[j].1.component, depth + 1).value
  }

  /** Folds `j` to `k - 1` record fold `j`, then its subtree, then folds `j + 1` to `k - 1`. */
  lemma FoldsThroughNext(s: Indices, c: Component, j: nat, k: nat, depth: nat)
    requires j < k <= |c.folds| && FoldsThrough(s, c, j, k, depth).Ok?
    requires AddFoldEdge(s, c, c.folds[j].0, c.folds[j].1).Ok?
    requires AddComponent(AddFoldEdge(s, c, c.folds[j].0, c.folds[j].1).value, c.folds[j].1.component, depth + 1).Ok?
    requires FoldsThrough(Stepped(s, c, j, depth), c, j + 1, k, depth).Ok?
    requires Records(Stepped(s, c, j, depth), FoldsThrough(Stepped(s, c, j, depth), c, j + 1, k, depth).value,
                     SubtreesThrough(c, j + 1, k, depth), FoldEntriesThrough(c, j + 1, k))
    ensures Records(s, FoldsThrough(s, c, j, k, depth).value, SubtreesThrough(c, j, k, depth), FoldEntriesThrough(c, j, k))
    decreases c, 0, k - j, 0
  {
    FoldsThroughStep(s, c, j, k, depth);
    FoldStepRecords(s, c, j, depth);
    RecordsThroughStep(s, Stepped(s, c, j, depth), FoldsThrough(Stepped(s, c, j, depth), c, j + 1, k, depth).value, c, j, k, depth);
  }

  lemma RecordsThroughStep(s: Indices, s2: Indices, t: Indices, c: Component, j: nat, k: nat, depth: nat)
    requires j < k <= |c.folds|
    requires Records(s, s2, Preorder(c.folds[j].1.component, depth + 1),
                     [(c.folds[j].0, EdgeKind.Fold(c.folds[j].1))] + EdgeEntries(c.folds[j].1.component))
    requires Records(s2, t, SubtreesThrough(c, j + 1, k, depth), FoldEntriesThrough(c, j + 1, k))
    ensures Records(s, t, SubtreesThrough(c, j, k, depth), FoldEntriesThrough(c, j, k))
  {
    RecordsConcat(s, s2, t, Preorder(c.folds[j].1.component, depth + 1), SubtreesThrough(c, j + 1, k, depth),
                  [(c.folds[j].0, EdgeKind.Fold(c.folds[j].1))] + EdgeEntries(c.folds[j].1.component),
                  FoldEntriesThrough(c, j + 1, k));
  }

  /** Recording fold `j` and indexing its subtree adds exactly the fold's entry and the subtree's. */
  lemma {:induction false} FoldStepRecords(s: Indices, c: Component, j: nat, depth: nat)
    requires j < |c.folds| && AddFoldEdge(s, c, c.folds[j].0, c.folds[j].1).Ok?
    requires AddComponent(AddFoldEdge(s, c, c.folds[j].0, c.folds[j].1).value, c.folds[j].1.component, depth + 1).Ok?
    ensures var s1 := AddFoldEdge(s, c, c.folds[j].0, c.folds[j].1).value;
      Records(s, AddComponent(s1, c.folds[j].1.component, depth + 1).value,
              Preorder(c.folds[j].1.component, depth + 1),
              [(c.folds[j].0, EdgeKind.Fold(c.folds[j].1))] + EdgeEntries(c.folds[j].1.component))
    decreases c.folds[j].1.component, 2
  {
    var (e, fold) := c.folds[j];
    var s1 := AddFoldEdge(s, c, e, fold).value;
    FoldEntryRecords(s, c, j);
    ComponentRecords(s1, fold.component, depth + 1);
    RecordsConcat(s, s1, AddComponent(s1, fold.component, depth + 1).value,
                  [], Preorder(fold.component, depth + 1), [(e, EdgeKind.Fold(fold))], EdgeEntries(fold.component));
    assert [] + Preorder(fold.component, depth + 1) == Preorder(fold.component, depth + 1);
  }

  // ---------------------------------------------------------------------
  // Vertices: code 0.
  // ---------------------------------------------------------------------

  /**
   * A vertex id registered before the component, or repeated within the
   * component, is reported as a duplicate (code 0) at its `k`-th vertex, once
   * the earlier vertices have registered.
   */
  lemma VertexAlreadyIndexed(s: Indices, c: Component, depth: nat, k: nat)
    requires c.root in Keys(c.vertices)
    requires k < |c.vertices|
    requires FreshKeys(Keys(c.vertices[..k]), s.vids.Keys)
    requires c.vertices[k].0 in s.vids || c.vertices[k].0 in Keys(c.vertices[..k])
    ensures AddComponent(s, c, depth) == Err(DuplicateVertexId)
    ensures AddComponent(s, c, depth).error.Code() == 0
  {
    var pre := c.vertices[..k];
    AddVerticesSpec(s, c, pre);
    AddVerticesGrows(s, c, pre);
    var before := AddVertices(s, c, pre).value;
    assert c.vertices[k].0 in before.vids;
    AddVerticesSplit(s, c, c.vertices, k);
    assert c.vertices[k..][0] == c.vertices[k];
  }

  // ---------------------------------------------------------------------
  // Outputs: codes 1, 2 and 3.
  // ---------------------------------------------------------------------

  /**
   * When a component's root and vertices pass and its first `k` outputs are
   * recorded, an output `k` that fails makes the whole component fail with
   * that output's error: its edges and folds are never examined.
   */
  lemma FirstFailingOutput(s: Indices, c: Component, depth: nat, k: nat)
    requires c.root in Keys(c.vertices) && AddVertices(s, c, c.vertices).Ok?
    requires k < |c.outputs|
    requires AddOutputs(AddVertices(s, c, c.vertices).value, c, c.outputs[..k], depth).Ok?
    requires
      var before := AddOutputs(AddVertices(s, c, c.vertices).value, c, c.outputs[..k], depth).value;
      AddOutput(before, c, c.outputs[k].0, c.outputs[k].1, depth).Err?
    ensures
      var before := AddOutputs(AddVertices(s, c, c.vertices).value, c, c.outputs[..k], depth).value;
      AddComponent(s, c, depth) == AddOutput(before, c, c.outputs[k].0, c.outputs[k].1, depth).PropagateFailure()
  {
    var s1 := AddVertices(s, c, c.vertices).value;
    AddOutputsSplit(s1, c, c.outputs, k, depth);
    assert c.outputs[k..][0] == c.outputs[k];
  }

  /**
   * An output whose vertex is neither registered before the component nor
   * one of the component's own vertices is reported as dangling (code 1).
   * This covers an output naming a vertex of one of the component's own
   * nested folds: that vertex is registered only when the fold is indexed,
   * after the outputs are checked.
   */
  lemma OutputOnUnregisteredVertex(s: Indices, c: Component, depth: nat, k: nat)
    requires c.root in Keys(c.vertices) && AddVertices(s, c, c.vertices).Ok?
    requires k < |c.outputs|
    requires AddOutputs(AddVertices(s, c, c.vertices).value, c, c.outputs[..k], depth).Ok?
    requires c.outputs[k].1.vertexId !in s.vids && c.outputs[k].1.vertexId !in Keys(c.vertices)
    ensures AddComponent(s, c, depth) == Err(DanglingOutputVertex)
    ensures AddComponent(s, c, depth).error.Code() == 1
  {
    var s1 := AddVertices(s, c, c.vertices).value;
    VerticesKeepOthers(s, c, c.outputs[k].1.vertexId);
    AddOutputsKeepsVertices(s1, c, c.outputs[..k], depth);
    FirstFailingOutput(s, c, depth, k);
  }

  /**
   * An output whose vertex was registered by an earlier component, and is
   * not one of this component's vertices, is reported as belonging to the
   * wrong component (code 2).
   */
  lemma OutputOnOtherComponentsVertex(s: Indices, c: Component, depth: nat, k: nat)
    requires c.root in Keys(c.vertices) && AddVertices(s, c, c.vertices).Ok?
    requires k < |c.outputs|
    requires AddOutputs(AddVertices(s, c, c.vertices).value, c, c.outputs[..k], depth).Ok?
    requires c.outputs[k].1.vertexId in s.vids && s.vids[c.outputs[k].1.vertexId].id != c.id
    requires c.outputs[k].1.vertexId !in Keys(c.vertices)
    ensures AddComponent(s, c, depth) == Err(OutputVertexWrongComponent)
    ensures AddComponent(s, c, depth).error.Code() == 2
  {
    var s1 := AddVertices(s, c, c.vertices).value;
    VerticesKeepOthers(s, c, c.outputs[k].1.vertexId);
    AddOutputsKeepsVertices(s1, c, c.outputs[..k], depth);
    FirstFailingOutput(s, c, depth, k);
  }

  /**
   * An output on one of the component's own vertices whose name was recorded
   * before the component, or by one of the component's earlier outputs, is
   * reported as a duplicate name (code 3).
   */
  lemma OutputNameAlreadyIndexed(s: Indices, c: Component, depth: nat, k: nat)
    requires c.root in Keys(c.vertices) && AddVertices(s, c, c.vertices).Ok?
    requires k < |c.outputs|
    requires AddOutputs(AddVertices(s, c, c.vertices).value, c, c.outputs[..k], depth).Ok?
    requires c.outputs[k].1.vertexId in Keys(c.vertices)
    requires c.outputs[k].0 in s.outputs || c.outputs[k].0 in Keys(c.outputs[..k])
    ensures AddComponent(s, c, depth) == Err(DuplicateOutputName)
    ensures AddComponent(s, c, depth).error.Code() == 3
  {
    var s1 := AddVertices(s, c, c.vertices).value;
    var before := AddOutputs(s1, c, c.outputs[..k], depth).value;
    var (name, field) := c.outputs[k];
    AddVerticesGrows(s, c, c.vertices);
    OwnVertexOwner(s, c, field.vertexId);
    AddOutputsKeepsVertices(s1, c, c.outputs[..k], depth);
    AddOutputsNames(s1, c, c.outputs[..k], depth);
    assert before.vids[field.vertexId] == c && name in before.outputs;
    assert AddOutput(before, c, name, field, depth) == Err(DuplicateOutputName);
    FirstFailingOutput(s, c, depth, k);
  }

  // ---------------------------------------------------------------------
  // Regular edges: codes 4 to 9.
  // ---------------------------------------------------------------------

  /** The indices just before edge `k` of `c` is checked. */
  function BeforeEdge(s: Indices, c: Component, depth: nat, k: nat): Result<Indices>
    requires k <= |c.edges|
  {
    var s1 :- AddVertices(s, c, c.vertices);
    var s2 :- AddOutputs(s1, c, c.outputs, depth);
    AddEdges(s2, c, c.edges[..k])
  }

  /**
   * When everything before edge `k` of `c` passes, an edge `k` that fails
   * makes the whole component fail with that edge's error: the later edges
   * and the folds are never examined.
   */
  lemma FirstFailingEdge(s: Indices, c: Component, depth: nat, k: nat)
    requires c.root in Keys(c.vertices)
    requires k < |c.edges| && BeforeEdge(s, c, depth, k).Ok?
    requires AddEdge(BeforeEdge(s, c, depth, k).value, c, c.edges[k].0, c.edges[k].1).Err?
    ensures AddComponent(s, c, depth) ==
      AddEdge(BeforeEdge(s, c, depth, k).value, c, c.edges[k].0, c.edges[k].1).PropagateFailure()
  {
    var s1 := AddVertices(s, c, c.vertices).value;
    var s2 := AddOutputs(s1, c, c.outputs, depth).value;
    AddEdgesSplit(s2, c, c.edges, k);
    assert c.edges[k..][0] == c.edges[k];
  }

  /**
   * Before edge `k`, each of the component's own vertices is owned by the
   * component, and any other vertex is registered as it was before the
   * component, if at all.
   */
  lemma BeforeEdgeVertex(s: Indices, c: Component, depth: nat, k: nat, v: Vid)
    requires k <= |c.edges| && BeforeEdge(s, c, depth, k).Ok?
    ensures v in Keys(c.vertices) ==>
      v in BeforeEdge(s, c, depth, k).value.vids && BeforeEdge(s, c, depth, k).value.vids[v] == c
    ensures v !in Keys(c.vertices) ==>
      (v in BeforeEdge(s, c, depth, k).value.vids <==> v in s.vids)
      && (v in s.vids ==> BeforeEdge(s, c, depth, k).value.vids[v] == s.vids[v])
  {
    var s1 := AddVertices(s, c, c.vertices).value;
    var s2 := AddOutputs(s1, c, c.outputs, depth).value;
    AddOutputsKeepsVertices(s1, c, c.outputs, depth);
    AddEdgesRecords(s2, c, c.edges[..k]);
    if v in Keys(c.vertices) {
      OwnVertexOwner(s, c, v);
    } else {
      VerticesKeepOthers(s, c, v);
    }
  }

  /** Before edge `k`, the edge ids recorded are those recorded before the component and the first `k` edges'. */
  lemma BeforeEdgeIds(s: Indices, c: Component, depth: nat, k: nat)
    requires k <= |c.edges| && BeforeEdge(s, c, depth, k).Ok?
    ensures BeforeEdge(s, c, depth, k).value.eids.Keys == s.eids.Keys + Elements(Keys(c.edges[..k]))
  {
    var s1 := AddVertices(s, c, c.vertices).value;
    var s2 := AddOutputs(s1, c, c.outputs, depth).value;
    AddVerticesGrows(s, c, c.vertices);
    AddOutputsKeepsVertices(s1, c, c.outputs, depth);
    AddEdgesRecords(s2, c, c.edges[..k]);
  }

  /**
   * The error edge `k` of `c` gets, once everything before it passes, in the
   * source's order of checks. An endpoint that is neither registered before
   * the component nor one of its own vertices is missing (code 5 or 7): this
   * covers an endpoint in one of the component's own folds, registered only
   * later. An endpoint registered by an earlier component, with another
   * identity, is in the wrong component (code 6 or 8).
   */
  lemma EdgeCodes(s: Indices, c: Component, depth: nat, k: nat)
    requires c.root in Keys(c.vertices)
    requires k < |c.edges| && BeforeEdge(s, c, depth, k).Ok?
    ensures var (e, edge) := c.edges[k];
      e + 1 != edge.toVid ==> AddComponent(s, c, depth) == Err(EdgeIdVertexIdMismatch)
    ensures var (e, edge) := c.edges[k];
      e + 1 == edge.toVid && edge.fromVid !in Keys(c.vertices) && edge.fromVid !in s.vids ==>
        AddComponent(s, c, depth) == Err(EdgeFromVertexMissing)
    ensures var (e, edge) := c.edges[k];
      e + 1 == edge.toVid && edge.fromVid !in Keys(c.vertices)
      && edge.fromVid in s.vids && s.vids[edge.fromVid].id != c.id ==>
        AddComponent(s, c, depth) == Err(EdgeFromVertexWrongComponent)
    ensures var (e, edge) := c.edges[k];
      e + 1 == edge.toVid && edge.fromVid in Keys(c.vertices)
      && edge.toVid !in Keys(c.vertices) && edge.toVid !in s.vids ==>
        AddComponent(s, c, depth) == Err(EdgeToVertexMissing)
    ensures var (e, edge) := c.edges[k];
      e + 1 == edge.toVid && edge.fromVid in Keys(c.vertices)
      && edge.toVid !in Keys(c.vertices) && edge.toVid in s.vids && s.vids[edge.toVid].id != c.id ==>
        AddComponent(s, c, depth) == Err(EdgeToVertexWrongComponent)
    ensures var (e, edge) := c.edges[k];
      e + 1 == edge.toVid && edge.fromVid in Keys(c.vertices) && edge.toVid in Keys(c.vertices)
      && (e in s.eids || e in Keys(c.edges[..k])) ==>
        AddComponent(s, c, depth) == Err(DuplicateEdgeId)
  {
    var (e, edge) := c.edges[k];
    BeforeEdgeVertex(s, c, depth, k, edge.fromVid);
    BeforeEdgeVertex(s, c, depth, k, edge.toVid);
    BeforeEdgeIds(s, c, depth, k);
    if AddEdge(BeforeEdge(s, c, depth, k).value, c, e, edge).Err? {
      FirstFailingEdge(s, c, depth, k);
    }
  }

  // ---------------------------------------------------------------------
  // Folds: codes 10 to 14.
  // ---------------------------------------------------------------------

  /** The indices just before fold `k` of `c` is checked: the earlier folds' subtrees are indexed. */
  function BeforeFold(s: Indices, c: Component, depth: nat, k: nat): Result<Indices>
    requires k <= |c.folds|
  {
    var s1 :- AddVertices(s, c, c.vertices);
    var s2 :- AddOutputs(s1, c, c.outputs, depth);
    var s3 :- AddEdges(s2, c, c.edges);
    FoldsThrough(s3, c, 0, k, depth)
  }

  /**
   * When everything before fold `k` of `c` passes, including the subtrees of
   * the earlier folds, a fold `k` that fails makes the whole component fail
   * with that fold's error.
   */
  lemma FirstFailingFold(s: Indices, c: Component, depth: nat, k: nat)
    requires c.root in Keys(c.vertices)
    requires k < |c.folds| && BeforeFold(s, c, depth, k).Ok?
    requires AddFoldEdge(BeforeFold(s, c, depth, k).value, c, c.folds[k].0, c.folds[k].1).Err?
    ensures AddComponent(s, c, depth) ==
      AddFoldEdge(BeforeFold(s, c, depth, k).value, c, c.folds[k].0, c.folds[k].1).PropagateFailure()
  {
    var s1 := AddVertices(s, c, c.vertices).value;
    var s2 := AddOutputs(s1, c, c.outputs, depth).value;
    var s3 := AddEdges(s2, c, c.edges).value;
    FoldsThroughSplit(s3, c, 0, k, depth);
  }

  /**
   * Before fold `k`, each of the component's own vertices is still owned by
   * the component, every vertex registered before the component is still
   * registered as it was, and every edge id recorded before the component
   * and every regular edge id of the component is recorded.
   */
  lemma BeforeFoldIndices(s: Indices, c: Component, depth: nat, k: nat, v: Vid, e: Eid)
    requires k <= |c.folds| && BeforeFold(s, c, depth, k).Ok?
    ensures v in Keys(c.vertices) ==>
      v in BeforeFold(s, c, depth, k).value.vids && BeforeFold(s, c, depth, k).value.vids[v] == c
    ensures v !in Keys(c.vertices) && v in s.vids ==>
      v in BeforeFold(s, c, depth, k).value.vids && BeforeFold(s, c, depth, k).value.vids[v] == s.vids[v]
    ensures e in s.eids || e in Keys(c.edges) ==> e in BeforeFold(s, c, depth, k).value.eids
  {
    var s1 := AddVertices(s, c, c.vertices).value;
    var s2 := AddOutputs(s1, c, c.outputs, depth).value;
    var s3 := AddEdges(s2, c, c.edges).value;
    var sub := SubtreesThrough(c, 0, k, depth);
    AddVerticesGrows(s, c, c.vertices);
    AddOutputsKeepsVertices(s1, c, c.outputs, depth);
    AddEdgesRecords(s2, c, c.edges);
    BeforeFoldRecords(s, c, depth, k);
    assert BeforeFold(s, c, depth, 0).value == s3;
    if v in Keys(c.vertices) {
      OwnVertexOwner(s, c, v);
    } else {
      VerticesKeepOthers(s, c, v);
    }
    if v in s3.vids {
      assert v !in Keys(VertexEntries(sub));
    }
  }

  /** Before fold `k`, the pass has registered exactly the vertices and edge entries of the first `k` folds' subtrees on top of the component's own. */
  lemma BeforeFoldRecords(s: Indices, c: Component, depth: nat, k: nat)
    requires k <= |c.folds| && BeforeFold(s, c, depth, k).Ok?
    ensures BeforeFold(s, c, depth, 0).Ok?
    ensures BeforeFold(s, c, depth, 0).value.vids.Keys == s.vids.Keys + Elements(Keys(c.vertices))
    ensures Records(BeforeFold(s, c, depth, 0).value, BeforeFold(s, c, depth, k).value,
                    SubtreesThrough(c, 0, k, depth), FoldEntriesThrough(c, 0, k))
  {
    var s1 := AddVertices(s, c, c.vertices).value;
    var s2 := AddOutputs(s1, c, c.outputs, depth).value;
    var s3 := AddEdges(s2, c, c.edges).value;
    assert BeforeFold(s, c, depth, 0) == Ok(s3);
    AddVerticesGrows(s, c, c.vertices);
    AddOutputsKeepsVertices(s1, c, c.outputs, depth);
    AddEdgesRecords(s2, c, c.edges);
    FoldsThroughRecords(s3, c, 0, k, depth);
  }

  /** A vertex that no earlier fold's subtree declares, nor the component, nor anything before it, is not registered before fold `k`. */
  lemma BeforeFoldUnregistered(s: Indices, c: Component, depth: nat, k: nat, v: Vid)
    requires k <= |c.folds| && BeforeFold(s, c, depth, k).Ok?
    requires v !in Keys(c.vertices) && v !in s.vids
    requires forall m | 0 <= m < |SubtreesThrough(c, 0, k, depth)| ::
      v !in Keys(SubtreesThrough(c, 0, k, depth)[m].0.vertices)
    ensures v !in BeforeFold(s, c, depth, k).value.vids
  {
    var sub := SubtreesThrough(c, 0, k, depth);
    BeforeFoldRecords(s, c, depth, k);
    if v in Keys(VertexEntries(sub)) {
      var i :| 0 <= i < |Keys(VertexEntries(sub))| && Keys(VertexEntries(sub))[i] == v;
      var m := VertexEntriesMembers(sub, i);
      assert false;
    }
  }

  /** A vertex that a component of an earlier fold's subtree declares is registered to that component before fold `k`. */
  lemma BeforeFoldSubtreeOwner(s: Indices, c: Component, depth: nat, k: nat, v: Vid, m: nat)
    requires k <= |c.folds| && BeforeFold(s, c, depth, k).Ok?
    requires m < |SubtreesThrough(c, 0, k, depth)| && v in Keys(SubtreesThrough(c, 0, k, depth)[m].0.vertices)
    ensures v in BeforeFold(s, c, depth, k).value.vids
    ensures BeforeFold(s, c, depth, k).value.vids[v] == SubtreesThrough(c, 0, k, depth)[m].0
  {
    var sub := SubtreesThrough(c, 0, k, depth);
    BeforeFoldRecords(s, c, depth, k);
    var n :| 0 <= n < |Keys(sub[m].0.vertices)| && Keys(sub[m].0.vertices)[n] == v;
    var i := QueryProperties.VertexEntriesIndex(sub, m, n);
    ToMapLookup(VertexEntries(sub), i);
  }

  /** Every fold id and every edge id of the first `k` folds' subtrees is recorded before fold `k`. */
  lemma BeforeFoldSubtreeIds(s: Indices, c: Component, depth: nat, k: nat, e: Eid)
    requires k <= |c.folds| && BeforeFold(s, c, depth, k).Ok?
    requires e in Keys(FoldEntriesThrough(c, 0, k))
    ensures e in BeforeFold(s, c, depth, k).value.eids
  {
    BeforeFoldRecords(s, c, depth, k);
  }

  /**
   * Vertex `v` belongs to a component with `c`'s identity by the time fold
   * `k` of `c` is checked: it is one of `c`'s own vertices, or it was
   * registered before `c` to a component with `c`'s id, or a component with
   * `c`'s id in an earlier fold's subtree declares it.
   */
  ghost predicate RegisteredToComponent(s: Indices, c: Component, depth: nat, k: nat, v: Vid)
    requires k <= |c.folds|
  {
    var sub := SubtreesThrough(c, 0, k, depth);
    || v in Keys(c.vertices)
    || (v in s.vids && s.vids[v].id == c.id)
    || exists m | 0 <= m < |sub| :: v in Keys(sub[m].0.vertices) && sub[m].0.id == c.id
  }

  /** Such a vertex passes the source checks of a fold: it is registered, to a component with `c`'s id. */
  lemma RegisteredBeforeFold(s: Indices, c: Component, depth: nat, k: nat, v: Vid)
    requires k <= |c.folds| && BeforeFold(s, c, depth, k).Ok?
    requires RegisteredToComponent(s, c, depth, k, v)
    ensures v in BeforeFold(s, c, depth, k).value.vids && BeforeFold(s, c, depth, k).value.vids[v].id == c.id
  {
    var sub := SubtreesThrough(c, 0, k, depth);
    BeforeFoldIndices(s, c, depth, k, v, 0);
    if v !in Keys(c.vertices) && !(v in s.vids && s.vids[v].id == c.id) {
      var m :| 0 <= m < |sub| && v in Keys(sub[m].0.vertices) && sub[m].0.id == c.id;
      BeforeFoldSubtreeOwner(s, c, depth, k, v, m);
    }
  }

  /**
   * The error fold `k` of `c` gets, once everything before it passes, in
   * the source's order of checks, with the subtrees of the earlier folds
   * already indexed: an id that does not match the target (code 10); a
   * source vertex that nothing registered, neither before the component,
   * nor the component, nor an earlier fold's subtree (code 11); a source
   * vertex registered by an earlier component, or declared by a component
   * of an earlier fold's subtree, with another identity (code 12); a target
   * that is not the nested component's root (code 13); an id already
   * recorded before the component, by one of its regular edges, or by an
   * earlier fold or any edge or fold inside its subtree (code 14).
   */
  lemma FoldCodes(s: Indices, c: Component, depth: nat, k: nat)
    requires c.root in Keys(c.vertices)
    requires k < |c.folds| && BeforeFold(s, c, depth, k).Ok?
    ensures var (e, fold) := c.folds[k];
      e + 1 != fold.toVid ==> AddComponent(s, c, depth) == Err(FoldIdVertexIdMismatch)
    ensures var (e, fold) := c.folds[k]; var sub := SubtreesThrough(c, 0, k, depth);
      e + 1 == fold.toVid && fold.fromVid !in Keys(c.vertices) && fold.fromVid !in s.vids
      && (forall m | 0 <= m < |sub| :: fold.fromVid !in Keys(sub[m].0.vertices)) ==>
        AddComponent(s, c, depth) == Err(FoldFromVertexMissing)
    ensures var (e, fold) := c.folds[k];
      e + 1 == fold.toVid && fold.fromVid !in Keys(c.vertices)
      && fold.fromVid in s.vids && s.vids[fold.fromVid].id != c.id ==>
        AddComponent(s, c, depth) == Err(FoldFromVertexWrongComponent)
    ensures var (e, fold) := c.folds[k]; var sub := SubtreesThrough(c, 0, k, depth);
      e + 1 == fold.toVid
      && (exists m | 0 <= m < |sub| :: fold.fromVid in Keys(sub[m].0.vertices) && sub[m].0.id != c.id) ==>
        AddComponent(s, c, depth) == Err(FoldFromVertexWrongComponent)
    ensures var (e, fold) := c.folds[k];
      e + 1 == fold.toVid && RegisteredToComponent(s, c, depth, k, fold.fromVid)
      && fold.toVid != fold.component.root ==>
        AddComponent(s, c, depth) == Err(FoldToVertexNotFoldRoot)
    ensures var (e, fold) := c.folds[k];
      e + 1 == fold.toVid && RegisteredToComponent(s, c, depth, k, fold.fromVid)
      && fold.toVid == fold.component.root
      && (e in s.eids || e in Keys(c.edges) || e in Keys(FoldEntriesThrough(c, 0, k))) ==>
        AddComponent(s, c, depth) == Err(DuplicateFoldId)
  {
    var (e, fold) := c.folds[k];
    var sub := SubtreesThrough(c, 0, k, depth);
    BeforeFoldIndices(s, c, depth, k, fold.fromVid, e);
    if RegisteredToComponent(s, c, depth, k, fold.fromVid) {
      RegisteredBeforeFold(s, c, depth, k, fold.fromVid);
    }
    if fold.fromVid !in Keys(c.vertices) && fold.fromVid !in s.vids
       && forall m | 0 <= m < |sub| :: fold.fromVid !in Keys(sub[m].0.vertices)
    {
      BeforeFoldUnregistered(s, c, depth, k, fold.fromVid);
    }
    if exists m | 0 <= m < |sub| :: fold.fromVid in Keys(sub[m].0.vertices) && sub[m].0.id != c.id {
      var m :| 0 <= m < |sub| && fold.fromVid in Keys(sub[m].0.vertices) && sub[m].0.id != c.id;
      BeforeFoldSubtreeOwner(s, c, depth, k, fold.fromVid, m);
    }
    if e in Keys(FoldEntriesThrough(c, 0, k)) {
      BeforeFoldSubtreeIds(s, c, depth, k, e);
    }
    if AddFoldEdge(BeforeFold(s, c, depth, k).value, c, e, fold).Err? {
      FirstFailingFold(s, c, depth, k);
    }
  }
}
