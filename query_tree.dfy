/**
 * A declarative view of a query's component tree: the components in the
 * order the indexer visits them, the index entries each contributes, and
 * the structural conditions each must meet on its own. The indexer's pass is
 * characterised in terms of these in module IndexedProofs.
 */
module QueryTree {
  import opened IR
  import opened AssocLists
  import opened Indexed

  /**
   * The components of the tree rooted at `c`, each with its fold depth, in
   * the order the pass visits them: `c`, then the subtree of each fold in
   * order.
   */
  function Preorder(c: Component, depth: nat): (cs: seq<(Component, nat)>)
    ensures |cs| > 0 && cs[0] == (c, depth)
    decreases c, 1
  {
    [(c, depth)] + FoldsPreorder(c, 0, depth)
  }

  /** The subtrees of the folds of `c` from the `i`-th on, in order. */
  function FoldsPreorder(c: Component, i: nat, depth: nat): seq<(Component, nat)>
    decreases c, 0, |c.folds| - i
  {
    if i >= |c.folds| then []
    else Preorder(c.folds[i].1.component, depth + 1) + FoldsPreorder(c, i + 1, depth)
  }

  /** The edge-index entries of a component's regular edges. */
  function RegularEntries(edges: seq<(Eid, Edge)>): seq<(Eid, EdgeKind)>
  {
    seq(|edges|, i requires 0 <= i < |edges| => (edges[i].0, Regular(edges[i].1)))
  }

  /**
   * The edge-index entries of the tree rooted at `c`, in the order the pass
   * records them: the regular edges of `c`, then each fold followed by the
   * entries of its nested component.
   */
  function EdgeEntries(c: Component): seq<(Eid, EdgeKind)>
    decreases c, 1
  {
    RegularEntries(c.edges) + FoldsEdgeEntries(c, 0)
  }

  function FoldsEdgeEntries(c: Component, i: nat): seq<(Eid, EdgeKind)>
    decreases c, 0, |c.folds| - i
  {
    if i >= |c.folds| then []
    else
      [(c.folds[i].0, EdgeKind.Fold(c.folds[i].1))]
      + EdgeEntries(c.folds[i].1.component)
      + FoldsEdgeEntries(c, i + 1)
  }

  /** The edge-index entries of a component's folds. */
  function FoldEntries(folds: seq<(Eid, IR.Fold)>): seq<(Eid, EdgeKind)>
  {
    seq(|folds|, i requires 0 <= i < |folds| => (folds[i].0, EdgeKind.Fold(folds[i].1)))
  }

  /** The edge-index entries of a list of components, each component's regular edges then its folds. */
  function TreeEdgeEntries(cs: seq<(Component, nat)>): seq<(Eid, EdgeKind)>
  {
    if cs == [] then []
    else RegularEntries(cs[0].0.edges) + FoldEntries(cs[0].0.folds) + TreeEdgeEntries(cs[1..])
  }

  /** The vertex-index entries a component contributes: each of its vertices, owned by it. */
  function OwnedVertices(vertices: seq<(Vid, Vertex)>, c: Component): seq<(Vid, Component)>
  {
    seq(|vertices|, i requires 0 <= i < |vertices| => (vertices[i].0, c))
  }

  /** The output-index entries of a component `depth` folds deep. */
  function DeclaredOutputs(outputs: seq<(string, OutputField)>, depth: nat): seq<(string, Output)>
  {
    seq(|outputs|, i requires 0 <= i < |outputs| =>
      (outputs[i].0, Output(outputs[i].0, Wrapped(outputs[i].1.fieldType, depth), outputs[i].1.vertexId)))
  }

  /** The variables the filters of these vertices need. */
  function VerticesArguments(vertices: seq<(Vid, Vertex)>): set<string>
  {
    if vertices == [] then {}
    else VariableNames(vertices[0].1.filters) + VerticesArguments(vertices[1..])
  }

  /** The vertex-index entries of a list of components, in order. */
  function VertexEntries(cs: seq<(Component, nat)>): seq<(Vid, Component)>
  {
    if cs == [] then [] else OwnedVertices(cs[0].0.vertices, cs[0].0) + VertexEntries(cs[1..])
  }

  /** The output-index entries of a list of components, in order. */
  function OutputEntries(cs: seq<(Component, nat)>): seq<(string, Output)>
  {
    if cs == [] then [] else DeclaredOutputs(cs[0].0.outputs, cs[0].1) + OutputEntries(cs[1..])
  }

  /** The variables needed anywhere in a list of components. */
  function ArgumentsOf(cs: seq<(Component, nat)>): set<string>
  {
    if cs == [] then {} else VerticesArguments(cs[0].0.vertices) + ArgumentsOf(cs[1..])
  }

  function IdsOf(cs: seq<(Component, nat)>): seq<ComponentId>
  {
    seq(|cs|, i requires 0 <= i < |cs| => cs[i].0.id)
  }

  /** Regular edge `e` of `c` targets vertex `eid + 1`, and both its ends are vertices of `c`. */
  predicate EdgeValid(c: Component, e: (Eid, Edge))
  {
    e.0 + 1 == e.1.toVid && e.1.fromVid in Keys(c.vertices) && e.1.toVid in Keys(c.vertices)
  }

  /** Fold `f` of `c` starts at a vertex of `c` and targets vertex `eid + 1`, the root of its component. */
  predicate FoldValid(c: Component, f: (Eid, IR.Fold))
  {
    f.0 + 1 == f.1.toVid && f.1.fromVid in Keys(c.vertices) && f.1.toVid == f.1.component.root
  }

  /** The conditions a component meets on its own, apart from uniqueness of ids and names. */
  predicate LocalValid(c: Component)
  {
    && c.root in Keys(c.vertices)
    && (forall i | 0 <= i < |c.outputs| :: c.outputs[i].1.vertexId in Keys(c.vertices))
    && (forall i | 0 <= i < |c.edges| :: EdgeValid(c, c.edges[i]))
    && (forall i | 0 <= i < |c.folds| :: FoldValid(c, c.folds[i]))
  }

  predicate AllLocalValid(cs: seq<(Component, nat)>)
  {
    forall i | 0 <= i < |cs| :: LocalValid(cs[i].0)
  }

  // ---------------------------------------------------------------------
  // How the views distribute over concatenation.
  // ---------------------------------------------------------------------

  lemma {:induction false} VertexEntriesConcat(a: seq<(Component, nat)>, b: seq<(Component, nat)>)
    ensures VertexEntries(a + b) == VertexEntries(a) + VertexEntries(b)
  {
    if a != [] {
      assert (a + b)[0] == a[0] && (a + b)[1..] == a[1..] + b;
      VertexEntriesConcat(a[1..], b);
    } else {
      assert a + b == b;
    }
  }

  lemma {:induction false} OutputEntriesConcat(a: seq<(Component, nat)>, b: seq<(Component, nat)>)
    ensures OutputEntries(a + b) == OutputEntries(a) + OutputEntries(b)
  {
    if a != [] {
      assert (a + b)[0] == a[0] && (a + b)[1..] == a[1..] + b;
      OutputEntriesConcat(a[1..], b);
    } else {
      assert a + b == b;
    }
  }

  lemma {:induction false} ArgumentsOfConcat(a: seq<(Component, nat)>, b: seq<(Component, nat)>)
    ensures ArgumentsOf(a + b) == ArgumentsOf(a) + ArgumentsOf(b)
  {
    if a != [] {
      assert (a + b)[0] == a[0] && (a + b)[1..] == a[1..] + b;
      ArgumentsOfConcat(a[1..], b);
    } else {
      assert a + b == b;
    }
  }

  lemma {:induction false} TreeEdgeEntriesConcat(a: seq<(Component, nat)>, b: seq<(Component, nat)>)
    ensures TreeEdgeEntries(a + b) == TreeEdgeEntries(a) + TreeEdgeEntries(b)
  {
    if a != [] {
      assert (a + b)[0] == a[0] && (a + b)[1..] == a[1..] + b;
      TreeEdgeEntriesConcat(a[1..], b);
    } else {
      assert a + b == b;
    }
  }

  lemma IdsOfConcat(a: seq<(Component, nat)>, b: seq<(Component, nat)>)
    ensures IdsOf(a + b) == IdsOf(a) + IdsOf(b)
  {
    assert forall i | 0 <= i < |a + b| :: IdsOf(a + b)[i] == (IdsOf(a) + IdsOf(b))[i];
  }

  lemma AllLocalValidConcat(a: seq<(Component, nat)>, b: seq<(Component, nat)>)
    ensures AllLocalValid(a + b) <==> AllLocalValid(a) && AllLocalValid(b)
  {
    if AllLocalValid(a + b) {
      forall i | 0 <= i < |a| ensures LocalValid(a[i].0) {
        assert (a + b)[i] == a[i];
      }
      forall i | 0 <= i < |b| ensures LocalValid(b[i].0) {
        assert (a + b)[|a| + i] == b[i];
      }
    }
    if AllLocalValid(a) && AllLocalValid(b) {
      forall i | 0 <= i < |a + b| ensures LocalValid((a + b)[i].0) {
        if i >= |a| { assert (a + b)[i] == b[i - |a|]; }
      }
    }
  }
}
