/**
 * What the indexer promises about a whole query: when it succeeds, and what
 * each of the four indices then holds.
 */
module QueryProperties {
  import opened GraphQLTypes
  import opened IR
  import opened AssocLists
  import opened Indexed
  import opened QueryTree
  import opened IndexedProofs

  /** The components of a query's tree with their fold depths, in visiting order. */
  function Components(q: Query): seq<(Component, nat)>
  {
    Preorder(q.rootComponent, 0)
  }

  /**
   * The components at the places of the tree have distinct ids. A component's
   * id stands for its address, which the pass compares to tell components
   * apart, and distinct objects have distinct addresses. A tree that shares
   * one component object between two places breaks this; the pass rejects
   * such a tree anyway: the second fold into the shared component targets
   * the same root vertex as the first, so, unless the pass stopped earlier,
   * that fold fails a check before the id check or repeats the first fold's
   * id (code 14).
   */
  predicate DistinctComponentIds(q: Query)
  {
    NoDup(IdsOf(Components(q)))
  }

  /**
   * The query meets every check the indexer performs: each component is well
   * formed, and vertex ids, output names and edge and fold ids are each
   * unique across the tree.
   */
  predicate ValidQuery(q: Query)
  {
    var cs := Components(q);
    && AllLocalValid(cs)
    && NoDup(Keys(VertexEntries(cs)))
    && NoDup(Keys(OutputEntries(cs)))
    && NoDup(Keys(EdgeEntries(q.rootComponent)))
  }

  /**
   * Indexing succeeds exactly on valid queries, and then yields the query
   * itself together with the maps of the tree's vertex, edge and output
   * entries and the variables its filters need.
   */
  lemma IndexQueryCharacterized(q: Query)
    requires DistinctComponentIds(q)
    ensures IndexQuery(q).Ok? <==> ValidQuery(q)
    ensures IndexQuery(q).Ok? ==>
      IndexQuery(q).value == IndexedQuery(
        q,
        ToMap(VertexEntries(Components(q))),
        ToMap(EdgeEntries(q.rootComponent)),
        ArgumentsOf(Components(q)),
        ToMap(OutputEntries(Components(q))))
  {
    var cs := Components(q);
    var ee := EdgeEntries(q.rootComponent);
    FromEmpty(q);
    AddComponentSpec(EmptyIndices, q.rootComponent, 0);
  }

  /** Starting from empty indices, the tree's conditions and entries are exactly those of a valid query. */
  lemma FromEmpty(q: Query)
    requires DistinctComponentIds(q)
    ensures IdsApart(EmptyIndices, Components(q))
    ensures Admissible(EmptyIndices, Components(q), EdgeEntries(q.rootComponent)) <==> ValidQuery(q)
    ensures Extend(EmptyIndices, Components(q), EdgeEntries(q.rootComponent)) ==
      Indices(
        ToMap(VertexEntries(Components(q))),
        ToMap(EdgeEntries(q.rootComponent)),
        ArgumentsOf(Components(q)),
        ToMap(OutputEntries(Components(q))))
  {
    EmptyApart(Components(q));
    EmptyAdmissible(Components(q), EdgeEntries(q.rootComponent));
    EmptyExtended(Components(q), EdgeEntries(q.rootComponent));
  }

  lemma EmptyApart(cs: seq<(Component, nat)>)
    requires NoDup(IdsOf(cs))
    ensures IdsApart(EmptyIndices, cs)
  {
    assert EmptyIndices.vids == map[];
  }

  lemma EmptyAdmissible(cs: seq<(Component, nat)>, es: seq<(Eid, EdgeKind)>)
    ensures Admissible(EmptyIndices, cs, es) <==>
      AllLocalValid(cs) && NoDup(Keys(VertexEntries(cs))) && NoDup(Keys(OutputEntries(cs))) && NoDup(Keys(es))
  {
    assert EmptyIndices.vids.Keys == {} && EmptyIndices.outputs.Keys == {} && EmptyIndices.eids.Keys == {};
    FreshAmongNone(Keys(VertexEntries(cs)));
    FreshAmongNone(Keys(OutputEntries(cs)));
    FreshAmongNone(Keys(es));
  }

  lemma EmptyExtended(cs: seq<(Component, nat)>, es: seq<(Eid, EdgeKind)>)
    ensures Extend(EmptyIndices, cs, es) ==
      Indices(ToMap(VertexEntries(cs)), ToMap(es), ArgumentsOf(cs), ToMap(OutputEntries(cs)))
  {
    assert EmptyIndices == Indices(map[], map[], {}, map[]);
    EmptyUnion(ToMap(VertexEntries(cs)));
    EmptyUnion(ToMap(es));
    EmptyUnion(ToMap(OutputEntries(cs)));
    assert {} + ArgumentsOf(cs) == ArgumentsOf(cs);
  }

  lemma EmptyUnion<K, V>(m: map<K, V>)
    ensures map[] + m == m
  {
  }

  lemma FreshAmongNone<T>(s: seq<T>)
    ensures FreshKeys(s, {}) <==> NoDup(s)
  {
  }

  // ---------------------------------------------------------------------
  // Where each entry of the lists comes from.
  // ---------------------------------------------------------------------

  /** Vertex `m` of component `j` is entry `k` of the vertex entries. */
  lemma {:induction false} VertexEntriesIndex(cs: seq<(Component, nat)>, j: nat, m: nat) returns (k: nat)
    requires j < |cs| && m < |cs[j].0.vertices|
    ensures k < |VertexEntries(cs)| && VertexEntries(cs)[k] == (cs[j].0.vertices[m].0, cs[j].0)
  {
    var own := OwnedVertices(cs[0].0.vertices, cs[0].0);
    if j == 0 {
      k := m;
      assert VertexEntries(cs)[k] == own[m];
    } else {
      assert cs[1..][j - 1] == cs[j];
      var k' := VertexEntriesIndex(cs[1..], j - 1, m);
      k := |own| + k';
      assert VertexEntries(cs)[k] == VertexEntries(cs[1..])[k'];
    }
  }

  /** Output `m` of component `j` is entry `k` of the output entries. */
  lemma {:induction false} OutputEntriesIndex(cs: seq<(Component, nat)>, j: nat, m: nat) returns (k: nat)
    requires j < |cs| && m < |cs[j].0.outputs|
    ensures k < |OutputEntries(cs)|
    ensures
      var (name, field) := cs[j].0.outputs[m];
      OutputEntries(cs)[k] == (name, Output(name, Wrapped(field.fieldType, cs[j].1), field.vertexId))
  {
    var own := DeclaredOutputs(cs[0].0.outputs, cs[0].1);
    if j == 0 {
      k := m;
      assert OutputEntries(cs)[k] == own[m];
    } else {
      assert cs[1..][j - 1] == cs[j];
      var k' := OutputEntriesIndex(cs[1..], j - 1, m);
      k := |own| + k';
      assert OutputEntries(cs)[k] == OutputEntries(cs[1..])[k'];
    }
  }

  /** Every output entry is output `m` of component `j`. */
  lemma {:induction false} OutputEntriesSource(cs: seq<(Component, nat)>, k: nat) returns (j: nat, m: nat)
    requires k < |OutputEntries(cs)|
    ensures j < |cs| && m < |cs[j].0.outputs| && OutputEntries(cs)[k].0 == cs[j].0.outputs[m].0
  {
    var own := DeclaredOutputs(cs[0].0.outputs, cs[0].1);
    if k < |own| {
      j, m := 0, k;
      assert OutputEntries(cs)[k] == own[k];
    } else {
      assert OutputEntries(cs)[k] == OutputEntries(cs[1..])[k - |own|];
      var j', m' := OutputEntriesSource(cs[1..], k - |own|);
      assert cs[1..][j'] == cs[j' + 1];
      j, m := j' + 1, m';
    }
  }

  /** A variable is needed by some vertex exactly when one of the vertices' filters takes it. */
  lemma {:induction false} VerticesArgumentsMembers(vs: seq<(Vid, Vertex)>, name: string)
    ensures name in VerticesArguments(vs) <==>
      exists m | 0 <= m < |vs| :: name in VariableNames(vs[m].1.filters)
    decreases |vs|
  {
    if vs != [] {
      VerticesArgumentsMembers(vs[1..], name);
      if name in VerticesArguments(vs[1..]) {
        var m :| 0 <= m < |vs[1..]| && name in VariableNames(vs[1..][m].1.filters);
        assert vs[1..][m] == vs[m + 1];
      }
      forall m | 1 <= m < |vs| && name in VariableNames(vs[m].1.filters)
        ensures name in VerticesArguments(vs[1..])
      {
        assert vs[1..][m - 1] == vs[m];
      }
    }
  }

  /** A variable is needed in a list of components exactly when some component's vertices need it. */
  lemma {:induction false} ArgumentsOfMembers(cs: seq<(Component, nat)>, name: string)
    ensures name in ArgumentsOf(cs) <==>
      exists j | 0 <= j < |cs| :: name in VerticesArguments(cs[j].0.vertices)
    decreases |cs|
  {
    if cs != [] {
      ArgumentsOfMembers(cs[1..], name);
      if name in ArgumentsOf(cs[1..]) {
        var j :| 0 <= j < |cs[1..]| && name in VerticesArguments(cs[1..][j].0.vertices);
        assert cs[1..][j] == cs[j + 1];
      }
      forall j | 1 <= j < |cs| && name in VerticesArguments(cs[j].0.vertices)
        ensures name in ArgumentsOf(cs[1..])
      {
        assert cs[1..][j - 1] == cs[j];
      }
    }
  }

  lemma ElementsConcat<T>(a: seq<T>, b: seq<T>)
    ensures Elements(a + b) == Elements(a) + Elements(b)
  {
  }

  /**
   * The edge entries of a tree, in the pass's order, are the regular edges
   * and folds of its components.
   */
  lemma {:induction false} EdgeEntriesElements(c: Component, depth: nat)
    ensures Elements(EdgeEntries(c)) == Elements(TreeEdgeEntries(Preorder(c, depth)))
    decreases c, 1
  {
    var fp := FoldsPreorder(c, 0, depth);
    var pre := Preorder(c, depth);
    assert pre[0].0 == c && pre[1..] == fp;
    FoldsEdgeEntriesElements(c, 0, depth);
    assert c.folds[0..] == c.folds;
    ElementsConcat(RegularEntries(c.edges), FoldsEdgeEntries(c, 0));
    ElementsConcat(RegularEntries(c.edges) + FoldEntries(c.folds), TreeEdgeEntries(fp));
    ElementsConcat(RegularEntries(c.edges), FoldEntries(c.folds));
  }

  lemma {:induction false} FoldsEdgeEntriesElements(c: Component, i: nat, depth: nat)
    requires i <= |c.folds|
    ensures Elements(FoldsEdgeEntries(c, i)) ==
      Elements(FoldEntries(c.folds[i..])) + Elements(TreeEdgeEntries(FoldsPreorder(c, i, depth)))
    decreases c, 0, |c.folds| - i
  {
    if i == |c.folds| {
      assert FoldEntries(c.folds[i..]) == [];
    } else {
      var (e, f) := c.folds[i];
      var pre := Preorder(f.component, depth + 1);
      var rest := FoldsPreorder(c, i + 1, depth);
      EdgeEntriesElements(f.component, depth + 1);
      FoldsEdgeEntriesElements(c, i + 1, depth);
      assert FoldEntries(c.folds[i..]) == [(e, EdgeKind.Fold(f))] + FoldEntries(c.folds[i + 1..]);
      ElementsConcat([(e, EdgeKind.Fold(f))], FoldEntries(c.folds[i + 1..]));
      TreeEdgeEntriesConcat(pre, rest);
      ElementsConcat(TreeEdgeEntries(pre), TreeEdgeEntries(rest));
      ElementsConcat([(e, EdgeKind.Fold(f))] + EdgeEntries(f.component), FoldsEdgeEntries(c, i + 1));
      ElementsConcat([(e, EdgeKind.Fold(f))], EdgeEntries(f.component));
    }
  }

  /** The regular edges and folds of component `j` are among the tree's edge entries. */
  lemma {:induction false} TreeEdgeEntriesMembers(cs: seq<(Component, nat)>, j: nat)
    requires j < |cs|
    ensures forall m | 0 <= m < |cs[j].0.edges| ::
      (cs[j].0.edges[m].0, Regular(cs[j].0.edges[m].1)) in TreeEdgeEntries(cs)
    ensures forall m | 0 <= m < |cs[j].0.folds| ::
      (cs[j].0.folds[m].0, EdgeKind.Fold(cs[j].0.folds[m].1)) in TreeEdgeEntries(cs)
  {
    var c := cs[0].0;
    if j == 0 {
      assert forall m | 0 <= m < |c.edges| :: RegularEntries(c.edges)[m] == (c.edges[m].0, Regular(c.edges[m].1));
      assert forall m | 0 <= m < |c.folds| :: FoldEntries(c.folds)[m] == (c.folds[m].0, EdgeKind.Fold(c.folds[m].1));
    } else {
      assert cs[1..][j - 1] == cs[j];
      TreeEdgeEntriesMembers(cs[1..], j - 1);
    }
  }

  /** An entry of a list whose keys are distinct is what the list's map holds for its key. */
  lemma ToMapMember<K, V>(kvs: seq<(K, V)>, kv: (K, V))
    requires NoDup(Keys(kvs)) && kv in kvs
    ensures kv.0 in ToMap(kvs) && ToMap(kvs)[kv.0] == kv.1
  {
    var i :| 0 <= i < |kvs| && kvs[i] == kv;
    ToMapLookup(kvs, i);
  }

  // ---------------------------------------------------------------------
  // The four indices of an indexed query.
  // ---------------------------------------------------------------------

  /** On success, each vertex of the tree is indexed to the component that declares it. */
  lemma VidsOfDeclaringComponent(q: Query, j: nat, m: nat)
    requires DistinctComponentIds(q) && IndexQuery(q).Ok?
    requires j < |Components(q)| && m < |Components(q)[j].0.vertices|
    ensures
      var c := Components(q)[j].0;
      var vids := IndexQuery(q).value.vids;
      c.vertices[m].0 in vids && vids[c.vertices[m].0] == c
  {
    IndexQueryCharacterized(q);
    var k := VertexEntriesIndex(Components(q), j, m);
    ToMapLookup(VertexEntries(Components(q)), k);
  }

  /** On success, every indexed vertex is a vertex of the component (the `j`-th) it is indexed to. */
  lemma VidsDeclared(q: Query, v: Vid) returns (j: nat)
    requires DistinctComponentIds(q) && IndexQuery(q).Ok?
    requires v in IndexQuery(q).value.vids
    ensures j < |Components(q)|
    ensures IndexQuery(q).value.vids[v] == Components(q)[j].0 && v in Keys(Components(q)[j].0.vertices)
  {
    IndexQueryCharacterized(q);
    j := VertexMapOwner(Components(q), v);
  }

  /**
   * On success, each output of the tree is indexed under its name, with its
   * vertex and its field type wrapped once per fold enclosing its component.
   */
  lemma OutputsOfDeclaringComponent(q: Query, j: nat, m: nat)
    requires DistinctComponentIds(q) && IndexQuery(q).Ok?
    requires j < |Components(q)| && m < |Components(q)[j].0.outputs|
    ensures
      var (c, depth) := Components(q)[j];
      var (name, field) := c.outputs[m];
      var outputs := IndexQuery(q).value.outputs;
      name in outputs && outputs[name] == Output(name, Wrapped(field.fieldType, depth), field.vertexId)
  {
    IndexQueryCharacterized(q);
    var k := OutputEntriesIndex(Components(q), j, m);
    ToMapLookup(OutputEntries(Components(q)), k);
  }

  /** On success, every indexed output name is declared by some component of the tree (output `m` of the `j`-th). */
  lemma OutputsDeclared(q: Query, name: string) returns (j: nat, m: nat)
    requires DistinctComponentIds(q) && IndexQuery(q).Ok?
    requires name in IndexQuery(q).value.outputs
    ensures j < |Components(q)| && m < |Components(q)[j].0.outputs|
    ensures Components(q)[j].0.outputs[m].0 == name
  {
    IndexQueryCharacterized(q);
    var k := ToMapSource(OutputEntries(Components(q)), name);
    j, m := OutputEntriesSource(Components(q), k);
  }

  /**
   * On success, the required arguments are exactly the variables that some
   * filter of some vertex anywhere in the tree takes as its right-hand side.
   */
  lemma RequiredArgumentsExact(q: Query, name: string)
    requires DistinctComponentIds(q) && IndexQuery(q).Ok?
    ensures name in IndexQuery(q).value.requiredArguments <==>
      exists j, m | 0 <= j < |Components(q)| && 0 <= m < |Components(q)[j].0.vertices| ::
        name in VariableNames(Components(q)[j].0.vertices[m].1.filters)
  {
    var cs := Components(q);
    IndexQueryCharacterized(q);
    ArgumentsOfMembers(cs, name);
    if name in ArgumentsOf(cs) {
      var j :| 0 <= j < |cs| && name in VerticesArguments(cs[j].0.vertices);
      VerticesArgumentsMembers(cs[j].0.vertices, name);
    }
    forall j, m | 0 <= j < |cs| && 0 <= m < |cs[j].0.vertices| && name in VariableNames(cs[j].0.vertices[m].1.filters)
      ensures name in ArgumentsOf(cs)
    {
      VerticesArgumentsMembers(cs[j].0.vertices, name);
    }
  }

  /** On success, the indexed edge ids are exactly the ids of the regular edges and folds of the tree's components. */
  lemma EidsExact(q: Query)
    requires DistinctComponentIds(q) && IndexQuery(q).Ok?
    ensures IndexQuery(q).value.eids.Keys == Elements(Keys(TreeEdgeEntries(Components(q))))
  {
    IndexQueryCharacterized(q);
    var ee := EdgeEntries(q.rootComponent);
    var te := TreeEdgeEntries(Components(q));
    EdgeEntriesElements(q.rootComponent, 0);
    forall e | e in Keys(ee) ensures e in Keys(te) {
      var i :| 0 <= i < |ee| && Keys(ee)[i] == e;
      assert ee[i] in Elements(te);
      var k :| 0 <= k < |te| && te[k] == ee[i];
      assert Keys(te)[k] == e;
    }
    forall e | e in Keys(te) ensures e in Keys(ee) {
      var i :| 0 <= i < |te| && Keys(te)[i] == e;
      assert te[i] in Elements(ee);
      var k :| 0 <= k < |ee| && ee[k] == te[i];
      assert Keys(ee)[k] == e;
    }
  }

  /** On success, each regular edge and each fold of the tree is indexed under its id, as what it is. */
  lemma EidsOfDeclaringComponent(q: Query, j: nat)
    requires DistinctComponentIds(q) && IndexQuery(q).Ok?
    requires j < |Components(q)|
    ensures
      var c := Components(q)[j].0;
      var eids := IndexQuery(q).value.eids;
      && (forall m | 0 <= m < |c.edges| :: c.edges[m].0 in eids && eids[c.edges[m].0] == Regular(c.edges[m].1))
      && (forall m | 0 <= m < |c.folds| :: c.folds[m].0 in eids && eids[c.folds[m].0] == EdgeKind.Fold(c.folds[m].1))
  {
    IndexQueryCharacterized(q);
    var c := Components(q)[j].0;
    var ee := EdgeEntries(q.rootComponent);
    EdgeEntriesElements(q.rootComponent, 0);
    TreeEdgeEntriesMembers(Components(q), j);
    forall m | 0 <= m < |c.edges| ensures c.edges[m].0 in ToMap(ee) && ToMap(ee)[c.edges[m].0] == Regular(c.edges[m].1) {
      assert (c.edges[m].0, Regular(c.edges[m].1)) in Elements(TreeEdgeEntries(Components(q)));
      ToMapMember(ee, (c.edges[m].0, Regular(c.edges[m].1)));
    }
    forall m | 0 <= m < |c.folds| ensures c.folds[m].0 in ToMap(ee) && ToMap(ee)[c.folds[m].0] == EdgeKind.Fold(c.folds[m].1) {
      assert (c.folds[m].0, EdgeKind.Fold(c.folds[m].1)) in Elements(TreeEdgeEntries(Components(q)));
      ToMapMember(ee, (c.folds[m].0, EdgeKind.Fold(c.folds[m].1)));
    }
  }

  // ---------------------------------------------------------------------
  // Output types and error codes.
  // ---------------------------------------------------------------------

  /** `t` with `depth` non-nullable list layers peeled off, if it has them. */
  function Unwrapped(t: Type, depth: nat): Option<Type>
  {
    if depth == 0 then Some(t)
    else if t.base.List? && !t.nullable then Unwrapped(t.base.elem, depth - 1)
    else None
  }

  /** Wrapping adds exactly `depth` non-nullable list layers: peeling them gives the field type back. */
  lemma {:induction false} UnwrapWrapped(t: Type, depth: nat)
    ensures Unwrapped(Wrapped(t, depth), depth) == Some(t)
  {
    if depth > 0 {
      UnwrapWrapped(t, depth - 1);
    }
  }

  /** A type with `depth` non-nullable list layers is the wrapping of what is under them. */
  lemma {:induction false} WrappedUnwrapped(u: Type, depth: nat, t: Type)
    requires Unwrapped(u, depth) == Some(t)
    ensures Wrapped(t, depth) == u
  {
    if depth > 0 {
      WrappedUnwrapped(u.base.elem, depth - 1, t);
    }
  }

  /** Each error has its own code. */
  lemma CodeRoundTrip(e: InvalidIRQueryError)
    ensures FromCode(e.Code()) == Some(e)
  {
  }
}
