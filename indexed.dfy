/**
 * The validator/indexer: turns an IR query into an indexed query, or reports
 * the first structural invariant the query violates.
 *
 * The functions below are the specification: one pass over the component
 * tree that threads the four indices (`Indices`) through each step and stops
 * at the first error. `IndexBuilder.AddDataFromComponent` and `TryFrom` are
 * the imperative implementation, proved to compute exactly these functions.
 */
module Indexed {
  import opened GraphQLTypes
  import opened IR
  import opened AssocLists

  /** An entry of the edge index: a regular edge or a fold. */
  datatype EdgeKind = Regular(edge: Edge) | Fold(fold: IR.Fold)

  /** An output of the query, with its type wrapped once per enclosing fold. */
  datatype Output = Output(name: string, valueType: Type, vid: Vid)

  /**
   * The violations the indexer reports. The source carries only a numeric
   * code for each; `Code` gives it.
   */
  datatype InvalidIRQueryError =
    | MissingRoot
    | DuplicateVertexId
    | DanglingOutputVertex
    | OutputVertexWrongComponent
    | DuplicateOutputName
    | EdgeIdVertexIdMismatch
    | EdgeFromVertexMissing
    | EdgeFromVertexWrongComponent
    | EdgeToVertexMissing
    | EdgeToVertexWrongComponent
    | DuplicateEdgeId
    | FoldIdVertexIdMismatch
    | FoldFromVertexMissing
    | FoldFromVertexWrongComponent
    | FoldToVertexNotFoldRoot
    | DuplicateFoldId
  {
    /** The code the source reports as `GetBetterVariant(code)`. */
    function Code(): int
    {
      match this
      case MissingRoot => -1
      case DuplicateVertexId => 0
      case DanglingOutputVertex => 1
      case OutputVertexWrongComponent => 2
      case DuplicateOutputName => 3
      case EdgeIdVertexIdMismatch => 4
      case EdgeFromVertexMissing => 5
      case EdgeFromVertexWrongComponent => 6
      case EdgeToVertexMissing => 7
      case EdgeToVertexWrongComponent => 8
      case DuplicateEdgeId => 9
      case FoldIdVertexIdMismatch => 10
      case FoldFromVertexMissing => 11
      case FoldFromVertexWrongComponent => 12
      case FoldToVertexNotFoldRoot => 13
      case DuplicateFoldId => 14
    }
  }

  /** The error a numeric code stands for, if any. */
  function FromCode(code: int): (r: Option<InvalidIRQueryError>)
    ensures r.Some? ==> r.value.Code() == code
    ensures -1 <= code <= 14 ==> r.Some?
  {
    match code
    case -1 => Some(MissingRoot)
    case 0 => Some(DuplicateVertexId)
    case 1 => Some(DanglingOutputVertex)
    case 2 => Some(OutputVertexWrongComponent)
    case 3 => Some(DuplicateOutputName)
    case 4 => Some(EdgeIdVertexIdMismatch)
    case 5 => Some(EdgeFromVertexMissing)
    case 6 => Some(EdgeFromVertexWrongComponent)
    case 7 => Some(EdgeToVertexMissing)
    case 8 => Some(EdgeToVertexWrongComponent)
    case 9 => Some(DuplicateEdgeId)
    case 10 => Some(FoldIdVertexIdMismatch)
    case 11 => Some(FoldFromVertexMissing)
    case 12 => Some(FoldFromVertexWrongComponent)
    case 13 => Some(FoldToVertexNotFoldRoot)
    case 14 => Some(DuplicateFoldId)
    case _ => None
  }

  datatype Result<T> = Ok(value: T) | Err(error: InvalidIRQueryError)
  {
    predicate IsFailure() { Err? }

    function PropagateFailure<U>(): Result<U>
      requires Err?
    {
      Err(error)
    }

    function Extract(): T
      requires Ok?
    {
      value
    }
  }

  /** A query together with its four indices. */
  datatype IndexedQuery = IndexedQuery(
    irQuery: Query,
    vids: map<Vid, Component>,
    eids: map<Eid, EdgeKind>,
    requiredArguments: set<string>,
    outputs: map<string, Output>)

  /** The four indices, as threaded through the pass. */
  datatype Indices = Indices(
    vids: map<Vid, Component>,
    eids: map<Eid, EdgeKind>,
    requiredArguments: set<string>,
    outputs: map<string, Output>)

  const EmptyIndices := Indices(map[], map[], {}, map[])

  /** `t` wrapped in `depth` non-nullable list layers. */
  function Wrapped(t: Type, depth: nat): Type
  {
    if depth == 0 then t else Type(List(Wrapped(t, depth - 1)), false)
  }

  /** The names of the variables the filters take as their right-hand side. */
  function VariableNames(filters: seq<Filter>): (names: set<string>)
    ensures forall name :: name in names <==>
      exists i | 0 <= i < |filters| :: filters[i].right == Some(Variable(name))
  {
    if filters == [] then {}
    else
      var last := filters[|filters| - 1];
      var names := VariableNames(filters[..|filters| - 1]);
      assert forall i | 0 <= i < |filters| - 1 :: filters[..|filters| - 1][i] == filters[i];
      match last.right
      case Some(Variable(name)) => names + {name}
      case _ => names
  }

  // ---------------------------------------------------------------------
  // One step per entry of a component's maps.
  // ---------------------------------------------------------------------

  /** Register vertex `vid` of component `c` and the variables its filters need. */
  function RegisterVertex(s: Indices, c: Component, vid: Vid, vertex: Vertex): Result<Indices>
  {
    if vid in s.vids then Err(DuplicateVertexId)
    else Ok(s.(vids := s.vids[vid := c],
               requiredArguments := s.requiredArguments + VariableNames(vertex.filters)))
  }

  function AddVertices(s: Indices, c: Component, vertices: seq<(Vid, Vertex)>): Result<Indices>
    decreases |vertices|
  {
    if vertices == [] then Ok(s)
    else
      var s' :- RegisterVertex(s, c, vertices[0].0, vertices[0].1);
      AddVertices(s', c, vertices[1..])
  }

  /** Record output `name` of component `c`, declared `depth` folds deep. */
  function AddOutput(s: Indices, c: Component, name: string, field: OutputField, depth: nat): Result<Indices>
  {
    if field.vertexId !in s.vids then Err(DanglingOutputVertex)
    else if s.vids[field.vertexId].id != c.id then Err(OutputVertexWrongComponent)
    else if name in s.outputs then Err(DuplicateOutputName)
    else Ok(s.(outputs := s.outputs[name := Output(name, Wrapped(field.fieldType, depth), field.vertexId)]))
  }

  function AddOutputs(s: Indices, c: Component, outputs: seq<(string, OutputField)>, depth: nat): Result<Indices>
    decreases |outputs|
  {
    if outputs == [] then Ok(s)
    else
      var s' :- AddOutput(s, c, outputs[0].0, outputs[0].1, depth);
      AddOutputs(s', c, outputs[1..], depth)
  }

  /** Check regular edge `eid` of component `c` and record it. */
  function AddEdge(s: Indices, c: Component, eid: Eid, edge: Edge): Result<Indices>
  {
    if eid + 1 != edge.toVid then Err(EdgeIdVertexIdMismatch)
    else if edge.fromVid !in s.vids then Err(EdgeFromVertexMissing)
    else if s.vids[edge.fromVid].id != c.id then Err(EdgeFromVertexWrongComponent)
    else if edge.toVid !in s.vids then Err(EdgeToVertexMissing)
    else if s.vids[edge.toVid].id != c.id then Err(EdgeToVertexWrongComponent)
    else if eid in s.eids then Err(DuplicateEdgeId)
    else Ok(s.(eids := s.eids[eid := Regular(edge)]))
  }

  function AddEdges(s: Indices, c: Component, edges: seq<(Eid, Edge)>): Result<Indices>
    decreases |edges|
  {
    if edges == [] then Ok(s)
    else
      var s' :- AddEdge(s, c, edges[0].0, edges[0].1);
      AddEdges(s', c, edges[1..])
  }

  /** Check fold `eid` of component `c` and record it; its nested component comes after. */
  function AddFoldEdge(s: Indices, c: Component, eid: Eid, fold: IR.Fold): Result<Indices>
  {
    if eid + 1 != fold.toVid then Err(FoldIdVertexIdMismatch)
    else if fold.fromVid !in s.vids then Err(FoldFromVertexMissing)
    else if s.vids[fold.fromVid].id != c.id then Err(FoldFromVertexWrongComponent)
    else if fold.toVid != fold.component.root then Err(FoldToVertexNotFoldRoot)
    else if eid in s.eids then Err(DuplicateFoldId)
    else Ok(s.(eids := s.eids[eid := EdgeKind.Fold(fold)]))
  }

  // ---------------------------------------------------------------------
  // The recursive pass.
  // ---------------------------------------------------------------------

  /**
   * Index component `c`, `depth` folds deep: its root, then its vertices,
   * outputs and edges, then each fold followed at once by the fold's
   * nested component.
   */
  function AddComponent(s: Indices, c: Component, depth: nat): Result<Indices>
    decreases c, 1
  {
    if c.root !in Keys(c.vertices) then Err(MissingRoot)
    else
      var s1 :- AddVertices(s, c, c.vertices);
      var s2 :- AddOutputs(s1, c, c.outputs, depth);
      var s3 :- AddEdges(s2, c, c.edges);
      AddFoldsFrom(s3, c, 0, depth)
  }

  /** The folds of `c` from the `i`-th on, each followed by its nested component. */
  function AddFoldsFrom(s: Indices, c: Component, i: nat, depth: nat): Result<Indices>
    decreases c, 0, |c.folds| - i
  {
    if i >= |c.folds| then Ok(s)
    else
      var s1 :- AddFoldEdge(s, c, c.folds[i].0, c.folds[i].1);
      var s2 :- AddComponent(s1, c.folds[i].1.component, depth + 1);
      AddFoldsFrom(s2, c, i + 1, depth)
  }

  /** The indexed query, or the first violation met: the pass from empty indices at depth 0. */
  function IndexQuery(q: Query): Result<IndexedQuery>
  {
    var s :- AddComponent(EmptyIndices, q.rootComponent, 0);
    Ok(IndexedQuery(q, s.vids, s.eids, s.requiredArguments, s.outputs))
  }

  // ---------------------------------------------------------------------
  // The implementation.
  // ---------------------------------------------------------------------

  /** Wrap an output's field type once per enclosing fold. */
  method WrapOutputType(fieldType: Type, foldDepth: nat) returns (outputType: Type)
    ensures outputType == Wrapped(fieldType, foldDepth)
  {
    if foldDepth == 0 {
      outputType := fieldType;
    } else {
      var wrapped := fieldType;
      for k := 0 to foldDepth
        invariant wrapped == Wrapped(fieldType, k)
      {
        wrapped := Type(List(wrapped), false);
      }
      outputType := wrapped;
    }
  }

  /** The mutable indices the pass fills in, one field per index. */
  class IndexBuilder {
    var vids: map<Vid, Component>
    var eids: map<Eid, EdgeKind>
    var requiredArguments: set<string>
    var outputs: map<string, Output>

    function State(): Indices
      reads this
    {
      Indices(vids, eids, requiredArguments, outputs)
    }

    constructor ()
      ensures State() == EmptyIndices
    {
      vids := map[];
      eids := map[];
      requiredArguments := {};
      outputs := map[];
    }

    /** The builder now holds what `spec` computes, or `r` is the error `spec` reports. */
    ghost predicate Outcome(spec: Result<Indices>, r: Result<()>)
      reads this
    {
      match spec
      case Ok(s) => r.Ok? && State() == s
      case Err(e) => r == Err(e)
    }

    /**
     * Index component `c`, `foldDepth` folds deep. On success the indices
     * are what `AddComponent` computes; on failure the error is the one it
     * reports, and the indices are left part-way (the caller drops them).
     */
    method AddDataFromComponent(c: Component, foldDepth: nat) returns (r: Result<()>)
      modifies this
      ensures Outcome(AddComponent(old(State()), c, foldDepth), r)
      ensures c.root !in Keys(c.vertices) ==> r == Err(MissingRoot) && State() == old(State())
      decreases c, 1
    {
      if c.root !in Keys(c.vertices) {
        return Err(MissingRoot);
      }
      ghost var s0 := State();
      r := AddVertexData(c);
      if r.Err? {
        return;
      }
      r := AddOutputData(c, foldDepth);
      if r.Err? {
        return;
      }
      r := AddEdgeData(c);
      if r.Err? {
        return;
      }
      assert AddComponent(s0, c, foldDepth) == AddFoldsFrom(State(), c, 0, foldDepth);
      for i := 0 to |c.folds|
        invariant AddFoldsFrom(State(), c, i, foldDepth) == AddComponent(s0, c, foldDepth)
      {
        var (eid, fold) := c.folds[i];
        if eid + 1 != fold.toVid {
          return Err(FoldIdVertexIdMismatch);
        }
        if fold.fromVid !in vids {
          return Err(FoldFromVertexMissing);
        }
        if vids[fold.fromVid].id != c.id {
          return Err(FoldFromVertexWrongComponent);
        }
        if fold.toVid != fold.component.root {
          return Err(FoldToVertexNotFoldRoot);
        }
        var existing := eid in eids;
        eids := eids[eid := EdgeKind.Fold(fold)];
        if existing {
          return Err(DuplicateFoldId);
        }
        var nested := AddDataFromComponent(fold.component, foldDepth + 1);
        if nested.Err? {
          return nested;
        }
      }
      return Ok(());
    }

    /** The vertex loop of `AddDataFromComponent`, with its inner loop over each vertex's filters. */
    method AddVertexData(c: Component) returns (r: Result<()>)
      modifies this
      ensures Outcome(AddVertices(old(State()), c, c.vertices), r)
    {
      ghost var s0 := State();
      for i := 0 to |c.vertices|
        invariant AddVertices(State(), c, c.vertices[i..]) == AddVertices(s0, c, c.vertices)
      {
        ghost var before := State();
        var (vid, vertex) := c.vertices[i];
        assert c.vertices[i..][1..] == c.vertices[i + 1..];
        var existing := vid in vids;
        vids := vids[vid := c];
        if existing {
          return Err(DuplicateVertexId);
        }
        ghost var named := requiredArguments;
        for j := 0 to |vertex.filters|
          invariant vids == before.vids[vid := c] && eids == before.eids && outputs == before.outputs
          invariant requiredArguments == named + VariableNames(vertex.filters[..j])
        {
          assert vertex.filters[..j + 1][..j] == vertex.filters[..j];
          match vertex.filters[j].right {
            case Some(Variable(name)) =>
              requiredArguments := requiredArguments + {name};
            case _ =>
          }
        }
        assert vertex.filters[..|vertex.filters|] == vertex.filters;
      }
      return Ok(());
    }

    /** The output loop of `AddDataFromComponent`. */
    method AddOutputData(c: Component, foldDepth: nat) returns (r: Result<()>)
      modifies this
      ensures Outcome(AddOutputs(old(State()), c, c.outputs, foldDepth), r)
    {
      ghost var s0 := State();
      for i := 0 to |c.outputs|
        invariant AddOutputs(State(), c, c.outputs[i..], foldDepth) == AddOutputs(s0, c, c.outputs, foldDepth)
      {
        var (outputName, field) := c.outputs[i];
        assert c.outputs[i..][1..] == c.outputs[i + 1..];
        if field.vertexId !in vids {
          return Err(DanglingOutputVertex);
        }
        if vids[field.vertexId].id != c.id {
          return Err(OutputVertexWrongComponent);
        }
        var outputType := WrapOutputType(field.fieldType, foldDepth);
        var existing := outputName in outputs;
        outputs := outputs[outputName := Output(outputName, outputType, field.vertexId)];
        if existing {
          return Err(DuplicateOutputName);
        }
      }
      return Ok(());
    }

    /** The regular-edge loop of `AddDataFromComponent`. */
    method AddEdgeData(c: Component) returns (r: Result<()>)
      modifies this
      ensures Outcome(AddEdges(old(State()), c, c.edges), r)
    {
      ghost var s0 := State();
      for i := 0 to |c.edges|
        invariant AddEdges(State(), c, c.edges[i..]) == AddEdges(s0, c, c.edges)
      {
        var (eid, edge) := c.edges[i];
        assert c.edges[i..][1..] == c.edges[i + 1..];
        if eid + 1 != edge.toVid {
          return Err(EdgeIdVertexIdMismatch);
        }
        if edge.fromVid !in vids {
          return Err(EdgeFromVertexMissing);
        }
        if vids[edge.fromVid].id != c.id {
          return Err(EdgeFromVertexWrongComponent);
        }
        if edge.toVid !in vids {
          return Err(EdgeToVertexMissing);
        }
        if vids[edge.toVid].id != c.id {
          return Err(EdgeToVertexWrongComponent);
        }
        var existing := eid in eids;
        eids := eids[eid := Regular(edge)];
        if existing {
          return Err(DuplicateEdgeId);
        }
      }
      return Ok(());
    }
  }

  /**
   * Build the indexed query from empty indices, or report the first
   * violation; no indexed query exists on failure.
   */
  method TryFrom(irQuery: Query) returns (r: Result<IndexedQuery>)
    ensures r == IndexQuery(irQuery)
  {
    var builder := new IndexBuilder();
    var added := builder.AddDataFromComponent(irQuery.rootComponent, 0);
    if added.Err? {
      return Err(added.error);
    }
    return Ok(IndexedQuery(irQuery, builder.vids, builder.eids, builder.requiredArguments, builder.outputs));
  }
}
