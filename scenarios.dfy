/** Small queries and what indexing them gives. */
module Scenarios {
  import opened GraphQLTypes
  import opened IR
  import opened AssocLists
  import opened Indexed
  import opened QueryTree
  import opened IndexedProofs
  import opened QueryProperties
  import opened ErrorOrder

  const StringType := Type(Named("String"), true)

  /** One root vertex with an output on it. */
  const SingleVertex := Query(Component(0, 1, [(1, Vertex([]))], [], [], [("name", OutputField(1, StringType))]))

  lemma SingleVertexIndexed()
    ensures IndexQuery(SingleVertex).Ok?
    ensures IndexQuery(SingleVertex).value.outputs == map["name" := Output("name", StringType, 1)]
    ensures IndexQuery(SingleVertex).value.requiredArguments == {}
  {
    var c := SingleVertex.rootComponent;
    assert Keys(c.vertices) == [1];
    assert VariableNames([]) == {};
    var s1 := Indices(map[1 := c], map[], {}, map[]);
    assert c.vertices[1..] == [];
    assert EmptyIndices.vids == map[];
    assert 1 !in EmptyIndices.vids;
    assert EmptyIndices.vids[1 := c] == map[1 := c];
    assert EmptyIndices.requiredArguments + VariableNames(Vertex([]).filters) == {};
    assert RegisterVertex(EmptyIndices, c, 1, Vertex([])) == Ok(s1);
    assert AddVertices(EmptyIndices, c, c.vertices) == AddVertices(s1, c, []) == Ok(s1);
    var s2 := s1.(outputs := map["name" := Output("name", StringType, 1)]);
    assert c.outputs[1..] == [];
    assert AddOutputs(s1, c, c.outputs, 0) == AddOutputs(s2, c, [], 0) == Ok(s2);
    assert AddComponent(EmptyIndices, c, 0) == Ok(s2);
  }

  /** An edge from the root to a vertex filtered by variable `x`. */
  const WithEdge := Query(Component(0, 1,
    [(1, Vertex([])), (2, Vertex([Filter(Some(Variable("x"))), Filter(Some(Tag("t"))), Filter(None)]))],
    [(1, Edge(1, 2))], [], []))

  lemma WithEdgeValid()
    ensures DistinctComponentIds(WithEdge) && ValidQuery(WithEdge)
    ensures Components(WithEdge) == [(WithEdge.rootComponent, 0)]
  {
    var c := WithEdge.rootComponent;
    assert Components(WithEdge) == [(c, 0)];
    assert IdsOf(Components(WithEdge)) == [0];
    assert Keys(c.vertices) == [1, 2];
    assert VertexEntries([(c, 0)]) == [(1, c), (2, c)] + [];
    assert Keys([(1, c), (2, c)]) == [1, 2];
    assert EdgeEntries(c) == [(1, Regular(Edge(1, 2)))] + [];
    assert Keys(EdgeEntries(c)) == [1];
    assert EdgeValid(c, c.edges[0]);
  }

  lemma WithEdgeIndexed()
    ensures IndexQuery(WithEdge).Ok?
    ensures IndexQuery(WithEdge).value.eids == map[1 := Regular(Edge(1, 2))]
    ensures IndexQuery(WithEdge).value.requiredArguments == {"x"}
  {
    var c := WithEdge.rootComponent;
    WithEdgeValid();
    IndexQueryCharacterized(WithEdge);
    assert ToMap(EdgeEntries(c)) == map[1 := Regular(Edge(1, 2))] by {
      assert EdgeEntries(c) == [(1, Regular(Edge(1, 2)))] + [];
    }
    assert ArgumentsOf([(c, 0)]) == {"x"} by {
      var filters := c.vertices[1].1.filters;
      assert filters[..2][..1] == filters[..1] && filters[..1][..0] == [];
      assert VariableNames(filters) == {"x"};
      assert c.vertices[1..][1..] == [];
      assert VerticesArguments(c.vertices) == {} + ({"x"} + {});
      assert ArgumentsOf([(c, 0)]) == VerticesArguments(c.vertices) + {};
    }
  }

  /** Edge 1 targets vertex 3 instead of vertex 2. */
  const MismatchedEdge := Query(Component(0, 1,
    [(1, Vertex([])), (2, Vertex([])), (3, Vertex([]))],
    [(1, Edge(1, 3))], [], []))

  lemma MismatchedEdgeRejected()
    ensures IndexQuery(MismatchedEdge) == Err(EdgeIdVertexIdMismatch)
  {
    var c := MismatchedEdge.rootComponent;
    assert Keys(c.vertices) == [1, 2, 3];
    AddVerticesSpec(EmptyIndices, c, c.vertices);
    var s1 := AddVertices(EmptyIndices, c, c.vertices).value;
    assert AddOutputs(s1, c, [], 0) == Ok(s1);
    assert AddEdge(s1, c, 1, Edge(1, 3)) == Err(EdgeIdVertexIdMismatch);
    assert AddComponent(EmptyIndices, c, 0) == AddEdges(s1, c, c.edges);
  }

  const Tags := Component(1, 2, [(2, Vertex([]))], [], [], [("tags", OutputField(2, StringType))])

  /** A fold from the root into a component with an output. */
  const FoldedOutput := Query(Component(0, 1, [(1, Vertex([]))], [], [(1, IR.Fold(1, 2, Tags))], []))

  lemma FoldedOutputWrapped()
    ensures IndexQuery(FoldedOutput).Ok?
    ensures "tags" in IndexQuery(FoldedOutput).value.outputs
    ensures IndexQuery(FoldedOutput).value.outputs["tags"].valueType == Type(List(StringType), false)
  {
    var c := FoldedOutput.rootComponent;
    var cs: seq<(Component, nat)> := [(c, 0), (Tags, 1)];
    assert Components(FoldedOutput) == cs by {
      assert FoldsPreorder(c, 1, 0) == [];
      assert FoldsPreorder(Tags, 0, 1) == [];
      assert FoldsPreorder(c, 0, 0) == Preorder(Tags, 1) + [];
    }
    assert DistinctComponentIds(FoldedOutput) by {
      assert IdsOf(cs) == [0, 1];
    }
    assert ValidQuery(FoldedOutput) by {
      assert VertexEntries(cs) == [(1, c)] + ([(2, Tags)] + []) by {
        assert cs[1..] == [(Tags, 1)] && cs[1..][1..] == [];
        assert OwnedVertices(c.vertices, c) == [(1, c)];
        assert OwnedVertices(Tags.vertices, Tags) == [(2, Tags)];
        assert VertexEntries(cs[1..]) == [(2, Tags)] + VertexEntries(cs[1..][1..]);
        assert VertexEntries(cs) == [(1, c)] + VertexEntries(cs[1..]);
      }
      assert Keys([(1, c), (2, Tags)]) == [1, 2];
      assert OutputEntries(cs) == [] + ([("tags", Output("tags", Wrapped(StringType, 1), 2))] + []) by {
        assert cs[1..] == [(Tags, 1)] && cs[1..][1..] == [];
        assert DeclaredOutputs(c.outputs, 0) == [];
        assert DeclaredOutputs(Tags.outputs, 1) == [("tags", Output("tags", Wrapped(StringType, 1), 2))];
        assert OutputEntries(cs[1..]) == DeclaredOutputs(Tags.outputs, 1) + OutputEntries(cs[1..][1..]);
        assert OutputEntries(cs) == [] + OutputEntries(cs[1..]);
      }
      assert Keys([("tags", Output("tags", Wrapped(StringType, 1), 2))]) == ["tags"];
      assert EdgeEntries(c) == [(1, EdgeKind.Fold(c.folds[0].1))] by {
        assert EdgeEntries(Tags) == [] + [];
        assert FoldsEdgeEntries(c, 1) == [];
        assert FoldsEdgeEntries(c, 0) == [(1, EdgeKind.Fold(c.folds[0].1))] + EdgeEntries(Tags) + [];
      }
      assert Keys([(1, EdgeKind.Fold(c.folds[0].1))]) == [1];
      assert Keys(c.vertices) == [1] && Keys(Tags.vertices) == [2];
      assert FoldValid(c, c.folds[0]);
      assert LocalValid(c) && LocalValid(Tags);
    }
    IndexQueryCharacterized(FoldedOutput);
    OutputsOfDeclaringComponent(FoldedOutput, 1, 0);
  }

  /** Vertex 2 is declared both by the root and by the folded component. */
  const RepeatedVertex := Query(Component(0, 1,
    [(1, Vertex([])), (2, Vertex([]))],
    [(1, Edge(1, 2))],
    [(2, IR.Fold(1, 3, Component(1, 3, [(2, Vertex([])), (3, Vertex([]))], [], [], [])))],
    []))

  lemma RepeatedVertexRejected()
    ensures IndexQuery(RepeatedVertex) == Err(DuplicateVertexId)
  {
    var c := RepeatedVertex.rootComponent;
    var (e, f) := c.folds[0];
    assert Keys(c.vertices) == [1, 2];
    AddVerticesSpec(EmptyIndices, c, c.vertices);
    var s1 := AddVertices(EmptyIndices, c, c.vertices).value;
    OwnsAfterVertices(EmptyIndices, c);
    assert AddOutputs(s1, c, [], 0) == Ok(s1);
    AddEdgesSpec(s1, c, c.edges);
    assert Keys(c.edges) == [1];
    assert EdgeValid(c, c.edges[0]);
    var s3 := AddEdges(s1, c, c.edges).value;
    FoldEdgeSpec(s3, c, e, f);
    var s4 := AddFoldEdge(s3, c, e, f).value;
    assert 2 in s4.vids;
    NestedRepeatsVertex(s4);
    assert AddFoldsFrom(s3, c, 0, 0) == Err(DuplicateVertexId);
  }

  lemma NestedRepeatsVertex(s: Indices)
    requires 2 in s.vids
    ensures AddComponent(s, RepeatedVertex.rootComponent.folds[0].1.component, 1) == Err(DuplicateVertexId)
  {
    var nested := RepeatedVertex.rootComponent.folds[0].1.component;
    assert Keys(nested.vertices) == [2, 3];
    assert AddVertices(s, nested, nested.vertices) == Err(DuplicateVertexId);
  }

  /** The root declares an output on vertex 2, which belongs to its folded component. */
  const OutputIntoFold := Query(Component(0, 1, [(1, Vertex([]))], [], [(1, IR.Fold(1, 2, Tags.(outputs := [])))],
    [("x", OutputField(2, StringType))]))

  lemma OutputIntoFoldDangling()
    ensures IndexQuery(OutputIntoFold) == Err(DanglingOutputVertex)
  {
    var c := OutputIntoFold.rootComponent;
    assert Keys(c.vertices) == [1];
    AddVerticesSpec(EmptyIndices, c, c.vertices);
    assert c.outputs[..0] == [];
    OutputOnUnregisteredVertex(EmptyIndices, c, 0, 0);
  }

  /** Edge 2 of the root leads to vertex 3, a vertex of the root's own fold. */
  const EdgeIntoFold := Query(Component(0, 1, [(1, Vertex([]))], [(2, Edge(1, 3))],
    [(1, IR.Fold(1, 2, Component(1, 2, [(2, Vertex([])), (3, Vertex([]))], [], [], [])))], []))

  /** The edge's target is registered only when the fold is indexed, after the edges: it is missing (code 7). */
  lemma EdgeIntoFoldMissing()
    ensures IndexQuery(EdgeIntoFold) == Err(EdgeToVertexMissing)
  {
    var c := EdgeIntoFold.rootComponent;
    assert Keys(c.vertices) == [1];
    AddVerticesSpec(EmptyIndices, c, c.vertices);
    assert c.edges[..0] == [];
    EdgeCodes(EmptyIndices, c, 0, 0);
  }

  /** Fold 1 of the root leads into `A`; fold 3 then starts from vertex 2, which `A` declared. */
  const FoldFromSubtree := Query(Component(0, 1, [(1, Vertex([]))], [],
    [(1, IR.Fold(1, 2, Component(1, 2, [(2, Vertex([]))], [], [], []))),
     (3, IR.Fold(2, 4, Component(2, 4, [(4, Vertex([]))], [], [], [])))],
    []))

  /** Vertex 2 is registered to `A` by the time fold 3 is checked: it is in another component (code 12). */
  lemma FoldFromSubtreeWrongComponent()
    ensures IndexQuery(FoldFromSubtree) == Err(FoldFromVertexWrongComponent)
  {
    var c := FoldFromSubtree.rootComponent;
    var a := c.folds[0].1.component;
    assert Keys(c.vertices) == [1];
    assert BeforeFold(EmptyIndices, c, 0, 1).Ok? by {
      FirstFoldIndexed(c, a);
    }
    assert SubtreesThrough(c, 0, 1, 0) == [(a, 1)] by {
      assert FoldsPreorder(a, 0, 1) == [];
      assert SubtreesThrough(c, 1, 1, 0) == [];
    }
    assert Keys(a.vertices) == [2];
    FoldCodes(EmptyIndices, c, 0, 1);
  }

  /** Fold 1 of the root leads into `A`, whose edge 2 links its vertices 2 and 3; fold 2 of the root reuses id 2. */
  const FoldReusesSubtreeEdge := Query(Component(0, 1, [(1, Vertex([]))], [],
    [(1, IR.Fold(1, 2, Component(1, 2, [(2, Vertex([])), (3, Vertex([]))], [(2, Edge(2, 3))], [], []))),
     (2, IR.Fold(1, 3, Component(2, 3, [(3, Vertex([]))], [], [], [])))],
    []))

  /** Edge id 2 is recorded while `A` is indexed, before fold 2 is checked: the fold id is a duplicate (code 14). */
  lemma FoldReusesSubtreeEdgeDuplicate()
    ensures IndexQuery(FoldReusesSubtreeEdge) == Err(DuplicateFoldId)
  {
    var c := FoldReusesSubtreeEdge.rootComponent;
    var a := c.folds[0].1.component;
    assert Keys(c.vertices) == [1];
    assert BeforeFold(EmptyIndices, c, 0, 1).Ok? by {
      FirstFoldIndexed(c, a);
    }
    assert FoldEntriesThrough(c, 0, 1) == [(1, EdgeKind.Fold(c.folds[0].1)), (2, Regular(Edge(2, 3)))] by {
      assert FoldsEdgeEntries(a, 0) == [];
      assert RegularEntries(a.edges) == [(2, Regular(Edge(2, 3)))];
      assert FoldEntriesThrough(c, 1, 1) == [];
    }
    assert Keys([(1, EdgeKind.Fold(c.folds[0].1)), (2, Regular(Edge(2, 3)))]) == [1, 2];
    FoldCodes(EmptyIndices, c, 0, 1);
  }

  /** The root `c` with only vertex 1, no outputs and no edges, indexes its vertex and its first fold into `a`. */
  lemma FirstFoldIndexed(c: Component, a: Component)
    requires c.id == 0 && c.root == 1 && c.vertices == [(1, Vertex([]))] && c.outputs == [] && c.edges == []
    requires |c.folds| >= 1 && c.folds[0] == (1, IR.Fold(1, 2, a))
    requires a.id == 1 && a.root == 2 && a.outputs == [] && a.folds == []
    requires (a.vertices == [(2, Vertex([]))] && a.edges == [])
      || (a.vertices == [(2, Vertex([])), (3, Vertex([]))] && a.edges == [(2, Edge(2, 3))])
    ensures BeforeFold(EmptyIndices, c, 0, 1).Ok?
  {
    var s1 := Indices(map[1 := c], map[], {}, map[]);
    assert c.vertices[1..] == [];
    assert VariableNames([]) == {};
    assert EmptyIndices.vids == map[] && 1 !in EmptyIndices.vids;
    assert EmptyIndices.vids[1 := c] == map[1 := c];
    assert EmptyIndices.requiredArguments + VariableNames(Vertex([]).filters) == {};
    assert RegisterVertex(EmptyIndices, c, 1, Vertex([])) == Ok(s1);
    assert AddVertices(EmptyIndices, c, c.vertices) == AddVertices(s1, c, []) == Ok(s1);
    assert AddOutputs(s1, c, c.outputs, 0) == Ok(s1);
    assert AddEdges(s1, c, c.edges) == Ok(s1);
    var s2 := s1.(eids := map[1 := EdgeKind.Fold(c.folds[0].1)]);
    assert AddFoldEdge(s1, c, 1, c.folds[0].1) == Ok(s2);
    assert Keys(a.vertices)[0] == 2;
    assert AddComponent(s2, a, 1).Ok? by {
      if |a.vertices| == 1 {
        var t := s2.(vids := map[1 := c, 2 := a]);
        assert a.vertices[1..] == [];
        assert RegisterVertex(s2, a, 2, Vertex([])) == Ok(t);
        assert AddVertices(s2, a, a.vertices) == AddVertices(t, a, []) == Ok(t);
        assert AddOutputs(t, a, a.outputs, 1) == Ok(t);
        assert AddEdges(t, a, a.edges) == Ok(t);
        assert AddFoldsFrom(t, a, 0, 1) == Ok(t);
      } else {
        var t2 := s2.(vids := map[1 := c, 2 := a]);
        var t := s2.(vids := map[1 := c, 2 := a, 3 := a]);
        assert a.vertices[1..][0] == (3, Vertex([])) && a.vertices[1..][1..] == [];
        assert RegisterVertex(s2, a, 2, Vertex([])) == Ok(t2);
        assert RegisterVertex(t2, a, 3, Vertex([])) == Ok(t);
        assert AddVertices(s2, a, a.vertices) == AddVertices(t2, a, a.vertices[1..]) == AddVertices(t, a, []) == Ok(t);
        assert AddOutputs(t, a, a.outputs, 1) == Ok(t);
        var u := t.(eids := t.eids[2 := Regular(Edge(2, 3))]);
        assert a.edges[1..] == [];
        assert AddEdges(t, a, a.edges) == Ok(u);
        assert AddFoldsFrom(u, a, 0, 1) == Ok(u);
      }
    }
  }
}
