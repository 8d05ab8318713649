/**
 * What the indexer's pass computes, stated without reference to the order
 * of its steps: it succeeds exactly on queries whose components are each
 * well formed and whose vertex ids, output names and edge ids are each
 * unique across the tree, and then each index holds exactly the entries the
 * tree declares.
 */
module IndexedProofs {
  import opened IR
  import opened AssocLists
  import opened Indexed
  import opened QueryTree

  /** Among the vertices in `vids`, those owned by a component with `c`'s identity are exactly the vertices of `c`. */
  ghost predicate OwnsExactly(vids: map<Vid, Component>, c: Component)
  {
    forall v :: (v in vids && vids[v].id == c.id) <==> v in Keys(c.vertices)
  }

  /** The components `cs` have distinct ids, none of them the id of a component already in the vertex index. */
  ghost predicate IdsApart(s: Indices, cs: seq<(Component, nat)>)
  {
    NoDup(IdsOf(cs)) && forall v | v in s.vids :: s.vids[v].id !in IdsOf(cs)
  }

  /** The pass can add components `cs` and edge entries `es` to `s`: all well formed, all keys new and distinct. */
  ghost predicate Admissible(s: Indices, cs: seq<(Component, nat)>, es: seq<(Eid, EdgeKind)>)
  {
    && AllLocalValid(cs)
    && FreshKeys(Keys(VertexEntries(cs)), s.vids.Keys)
    && FreshKeys(Keys(OutputEntries(cs)), s.outputs.Keys)
    && FreshKeys(Keys(es), s.eids.Keys)
  }

  /** `s` with the entries of components `cs` and edge entries `es` added. */
  function Extend(s: Indices, cs: seq<(Component, nat)>, es: seq<(Eid, EdgeKind)>): Indices
  {
    Indices(
      s.vids + ToMap(VertexEntries(cs)),
      s.eids + ToMap(es),
      s.requiredArguments + ArgumentsOf(cs),
      s.outputs + ToMap(OutputEntries(cs)))
  }

  // ---------------------------------------------------------------------
  // Small facts about the views.
  // ---------------------------------------------------------------------

  lemma OwnedVerticesKeys(vs: seq<(Vid, Vertex)>, c: Component)
    ensures Keys(OwnedVertices(vs, c)) == Keys(vs)
  {
    assert forall i | 0 <= i < |vs| :: Keys(OwnedVertices(vs, c))[i] == Keys(vs)[i];
  }

  lemma DeclaredOutputsKeys(outs: seq<(string, OutputField)>, depth: nat)
    ensures Keys(DeclaredOutputs(outs, depth)) == Keys(outs)
  {
    assert forall i | 0 <= i < |outs| :: Keys(DeclaredOutputs(outs, depth))[i] == Keys(outs)[i];
  }

  lemma RegularEntriesKeys(edges: seq<(Eid, Edge)>)
    ensures Keys(RegularEntries(edges)) == Keys(edges)
  {
    assert forall i | 0 <= i < |edges| :: Keys(RegularEntries(edges))[i] == Keys(edges)[i];
  }

  /** Every vertex entry of `cs` is a vertex of one of the components `cs` (the `j`-th), owned by it. */
  lemma {:induction false} VertexEntriesMembers(cs: seq<(Component, nat)>, k: nat) returns (j: nat)
    requires k < |VertexEntries(cs)|
    ensures j < |cs| && VertexEntries(cs)[k].1 == cs[j].0 && VertexEntries(cs)[k].0 in Keys(cs[j].0.vertices)
  {
    var own := OwnedVertices(cs[0].0.vertices, cs[0].0);
    if k < |own| {
      assert VertexEntries(cs)[k] == own[k];
      assert Keys(cs[0].0.vertices)[k] == own[k].0;
      j := 0;
    } else {
      assert VertexEntries(cs)[k] == VertexEntries(cs[1..])[k - |own|];
      var j' := VertexEntriesMembers(cs[1..], k - |own|);
      assert cs[1..][j'] == cs[j' + 1];
      j := j' + 1;
    }
  }

  /** Every value of the vertex map of `cs` is one of the components `cs` (the `j`-th), and declares the vertex. */
  lemma VertexMapOwner(cs: seq<(Component, nat)>, v: Vid) returns (j: nat)
    requires v in ToMap(VertexEntries(cs))
    ensures j < |cs| && ToMap(VertexEntries(cs))[v] == cs[j].0 && v in Keys(cs[j].0.vertices)
  {
    var k := ToMapSource(VertexEntries(cs), v);
    j := VertexEntriesMembers(cs, k);
  }

  /** The ids of the owners in the vertex map of `cs` are ids of `cs`. */
  lemma VertexMapIds(cs: seq<(Component, nat)>)
    ensures forall v | v in ToMap(VertexEntries(cs)) :: ToMap(VertexEntries(cs))[v].id in IdsOf(cs)
  {
    forall v | v in ToMap(VertexEntries(cs)) ensures ToMap(VertexEntries(cs))[v].id in IdsOf(cs) {
      var j := VertexMapOwner(cs, v);
      assert IdsOf(cs)[j] == cs[j].0.id;
    }
  }

  // ---------------------------------------------------------------------
  // The loops over one component's vertices, outputs and edges.
  // ---------------------------------------------------------------------

  /**
   * Registering vertices succeeds exactly when their ids are distinct and
   * new, and then maps each of them to `c` and adds the variables their
   * filters need.
   */
  lemma {:induction false} AddVerticesSpec(s: Indices, c: Component, vs: seq<(Vid, Vertex)>)
    ensures AddVertices(s, c, vs).Ok? <==> FreshKeys(Keys(vs), s.vids.Keys)
    ensures AddVertices(s, c, vs).Ok? ==>
      AddVertices(s, c, vs).value ==
        s.(vids := s.vids + ToMap(OwnedVertices(vs, c)),
           requiredArguments := s.requiredArguments + VerticesArguments(vs))
    decreases |vs|
  {
    if vs == [] {
      assert ToMap(OwnedVertices(vs, c)) == map[];
    } else {
      var x := vs[0];
      assert FreshKeys(Keys(vs), s.vids.Keys) <==>
        x.0 !in s.vids && FreshKeys(Keys(vs[1..]), s.vids.Keys + {x.0}) by {
        assert Keys(vs) == [x.0] + Keys(vs[1..]);
        FreshCons(x.0, Keys(vs[1..]), s.vids.Keys);
      }
      if x.0 !in s.vids {
        var s' := s.(vids := s.vids[x.0 := c],
                     requiredArguments := s.requiredArguments + VariableNames(x.1.filters));
        assert AddVertices(s, c, vs) == AddVertices(s', c, vs[1..]);
        assert s'.vids.Keys == s.vids.Keys + {x.0};
        AddVerticesSpec(s', c, vs[1..]);
        assert s'.vids + ToMap(OwnedVertices(vs[1..], c)) == s.vids + ToMap(OwnedVertices(vs, c)) by {
          assert OwnedVertices(vs, c) == [(x.0, c)] + OwnedVertices(vs[1..], c);
          InsertThenUnion(s.vids, x.0, c, OwnedVertices(vs[1..], c));
        }
      }
    }
  }

  /**
   * Recording outputs, when `c` owns exactly its own vertices, succeeds
   * exactly when each output's vertex is a vertex of `c` and the names are
   * distinct and new; each name then maps to its output.
   */
  lemma {:induction false} AddOutputsSpec(s: Indices, c: Component, outs: seq<(string, OutputField)>, depth: nat)
    requires OwnsExactly(s.vids, c)
    ensures AddOutputs(s, c, outs, depth).Ok? <==>
      (forall i | 0 <= i < |outs| :: outs[i].1.vertexId in Keys(c.vertices))
      && FreshKeys(Keys(outs), s.outputs.Keys)
    ensures AddOutputs(s, c, outs, depth).Ok? ==>
      AddOutputs(s, c, outs, depth).value == s.(outputs := s.outputs + ToMap(DeclaredOutputs(outs, depth)))
    decreases |outs|
  {
    if outs == [] {
      assert ToMap(DeclaredOutputs(outs, depth)) == map[];
    } else {
      var x := outs[0];
      var out := Output(x.0, Wrapped(x.1.fieldType, depth), x.1.vertexId);
      assert FreshKeys(Keys(outs), s.outputs.Keys) <==>
        x.0 !in s.outputs && FreshKeys(Keys(outs[1..]), s.outputs.Keys + {x.0}) by {
        assert Keys(outs) == [x.0] + Keys(outs[1..]);
        FreshCons(x.0, Keys(outs[1..]), s.outputs.Keys);
      }
      assert (forall i | 0 <= i < |outs| :: outs[i].1.vertexId in Keys(c.vertices)) <==>
        x.1.vertexId in Keys(c.vertices) &&
        (forall i | 0 <= i < |outs[1..]| :: outs[1..][i].1.vertexId in Keys(c.vertices)) by {
        forall i | 0 <= i < |outs[1..]| ensures outs[1..][i] == outs[i + 1] {}
      }
      if AddOutput(s, c, x.0, x.1, depth).Ok? {
        var s' := s.(outputs := s.outputs[x.0 := out]);
        assert AddOutputs(s, c, outs, depth) == AddOutputs(s', c, outs[1..], depth);
        assert s'.outputs.Keys == s.outputs.Keys + {x.0};
        AddOutputsSpec(s', c, outs[1..], depth);
        assert s'.outputs + ToMap(DeclaredOutputs(outs[1..], depth)) ==
          s.outputs + ToMap(DeclaredOutputs(outs, depth)) by {
          assert DeclaredOutputs(outs, depth) == [(x.0, out)] + DeclaredOutputs(outs[1..], depth);
          InsertThenUnion(s.outputs, x.0, out, DeclaredOutputs(outs[1..], depth));
        }
      }
    }
  }

  /**
   * Recording regular edges, when `c` owns exactly its own vertices,
   * succeeds exactly when each edge is valid in `c` and the edge ids are
   * distinct and new; each id then maps to its edge.
   */
  lemma {:induction false} AddEdgesSpec(s: Indices, c: Component, edges: seq<(Eid, Edge)>)
    requires OwnsExactly(s.vids, c)
    ensures AddEdges(s, c, edges).Ok? <==>
      (forall i | 0 <= i < |edges| :: EdgeValid(c, edges[i]))
      && FreshKeys(Keys(edges), s.eids.Keys)
    ensures AddEdges(s, c, edges).Ok? ==>
      AddEdges(s, c, edges).value == s.(eids := s.eids + ToMap(RegularEntries(edges)))
    decreases |edges|
  {
    if edges == [] {
      assert ToMap(RegularEntries(edges)) == map[];
    } else {
      var x := edges[0];
      assert FreshKeys(Keys(edges), s.eids.Keys) <==>
        x.0 !in s.eids && FreshKeys(Keys(edges[1..]), s.eids.Keys + {x.0}) by {
        assert Keys(edges) == [x.0] + Keys(edges[1..]);
        FreshCons(x.0, Keys(edges[1..]), s.eids.Keys);
      }
      assert (forall i | 0 <= i < |edges| :: EdgeValid(c, edges[i])) <==>
        EdgeValid(c, x) && (forall i | 0 <= i < |edges[1..]| :: EdgeValid(c, edges[1..][i])) by {
        forall i | 0 <= i < |edges[1..]| ensures edges[1..][i] == edges[i + 1] {}
      }
      if AddEdge(s, c, x.0, x.1).Ok? {
        var s' := s.(eids := s.eids[x.0 := Regular(x.1)]);
        assert AddEdges(s, c, edges) == AddEdges(s', c, edges[1..]);
        assert s'.eids.Keys == s.eids.Keys + {x.0};
        AddEdgesSpec(s', c, edges[1..]);
        assert s'.eids + ToMap(RegularEntries(edges[1..])) == s.eids + ToMap(RegularEntries(edges)) by {
          assert RegularEntries(edges) == [(x.0, Regular(x.1))] + RegularEntries(edges[1..]);
          InsertThenUnion(s.eids, x.0, Regular(x.1), RegularEntries(edges[1..]));
        }
      }
    }
  }

  // ---------------------------------------------------------------------
  // How admissibility and the extended indices compose.
  // ---------------------------------------------------------------------

  /** Adding `a` then `b` adds `a + b`. */
  lemma ExtendConcat(s: Indices, a: seq<(Component, nat)>, b: seq<(Component, nat)>, ea: seq<(Eid, EdgeKind)>, eb: seq<(Eid, EdgeKind)>)
    ensures Extend(Extend(s, a, ea), b, eb) == Extend(s, a + b, ea + eb)
  {
    var x := Extend(Extend(s, a, ea), b, eb);
    var y := Extend(s, a + b, ea + eb);
    assert x.vids == y.vids by {
      VertexEntriesConcat(a, b);
      ToMapConcat(VertexEntries(a), VertexEntries(b));
      UnionAssoc(s.vids, ToMap(VertexEntries(a)), ToMap(VertexEntries(b)));
    }
    assert x.outputs == y.outputs by {
      OutputEntriesConcat(a, b);
      ToMapConcat(OutputEntries(a), OutputEntries(b));
      UnionAssoc(s.outputs, ToMap(OutputEntries(a)), ToMap(OutputEntries(b)));
    }
    assert x.eids == y.eids by {
      ToMapConcat(ea, eb);
      UnionAssoc(s.eids, ToMap(ea), ToMap(eb));
    }
    assert x.requiredArguments == y.requiredArguments by {
      ArgumentsOfConcat(a, b);
    }
  }

  lemma UnionAssoc<K, V>(m1: map<K, V>, m2: map<K, V>, m3: map<K, V>)
    ensures (m1 + m2) + m3 == m1 + (m2 + m3)
  {
  }

  /** `a + b` can be added exactly when `a` can, and then `b` can be added to the result. */
  lemma AdmissibleConcat(s: Indices, a: seq<(Component, nat)>, b: seq<(Component, nat)>, ea: seq<(Eid, EdgeKind)>, eb: seq<(Eid, EdgeKind)>)
    ensures Admissible(s, a + b, ea + eb) <==> Admissible(s, a, ea) && Admissible(Extend(s, a, ea), b, eb)
  {
    AllLocalValidConcat(a, b);
    VertexEntriesConcat(a, b);
    KeysConcat(VertexEntries(a), VertexEntries(b));
    FreshConcat(Keys(VertexEntries(a)), Keys(VertexEntries(b)), s.vids.Keys);
    OutputEntriesConcat(a, b);
    KeysConcat(OutputEntries(a), OutputEntries(b));
    FreshConcat(Keys(OutputEntries(a)), Keys(OutputEntries(b)), s.outputs.Keys);
    KeysConcat(ea, eb);
    FreshConcat(Keys(ea), Keys(eb), s.eids.Keys);
  }

  /** What one component adds by itself, before its folds. */
  lemma OwnEntries(s: Indices, c: Component, depth: nat)
    ensures Admissible(s, [(c, depth)], RegularEntries(c.edges)) <==>
      && LocalValid(c)
      && FreshKeys(Keys(c.vertices), s.vids.Keys)
      && FreshKeys(Keys(c.outputs), s.outputs.Keys)
      && FreshKeys(Keys(c.edges), s.eids.Keys)
    ensures Extend(s, [(c, depth)], RegularEntries(c.edges)) ==
      Indices(
        s.vids + ToMap(OwnedVertices(c.vertices, c)),
        s.eids + ToMap(RegularEntries(c.edges)),
        s.requiredArguments + VerticesArguments(c.vertices),
        s.outputs + ToMap(DeclaredOutputs(c.outputs, depth)))
  {
    var own := [(c, depth)];
    assert own[1..] == [];
    assert VertexEntries(own) == OwnedVertices(c.vertices, c) + [] == OwnedVertices(c.vertices, c);
    assert OutputEntries(own) == DeclaredOutputs(c.outputs, depth) + [] == DeclaredOutputs(c.outputs, depth);
    assert ArgumentsOf(own) == VerticesArguments(c.vertices) + {};
    assert AllLocalValid(own) <==> LocalValid(c) by {
      assert own[0].0 == c;
    }
    OwnedVerticesKeys(c.vertices, c);
    DeclaredOutputsKeys(c.outputs, depth);
    RegularEntriesKeys(c.edges);
  }

  /** A component whose root, outputs and edges are well formed is well formed exactly when its folds are. */
  lemma LocalValidByFolds(c: Component)
    requires c.root in Keys(c.vertices)
    requires forall j | 0 <= j < |c.outputs| :: c.outputs[j].1.vertexId in Keys(c.vertices)
    requires forall j | 0 <= j < |c.edges| :: EdgeValid(c, c.edges[j])
    ensures LocalValid(c) <==> forall j | 0 <= j < |c.folds| :: FoldValid(c, c.folds[j])
  {
  }

  /** A lone fold entry can be added exactly when its id is new. */
  lemma FoldEntry(s: Indices, e: Eid, kind: EdgeKind)
    ensures Admissible(s, [], [(e, kind)]) <==> e !in s.eids
  {
    assert VertexEntries([]) == [] && OutputEntries([]) == [];
    assert Keys([(e, kind)]) == [e];
  }

  /** Adding a lone fold entry records it in the edge index and changes nothing else. */
  lemma FoldEntryExtend(s: Indices, e: Eid, kind: EdgeKind)
    ensures Extend(s, [], [(e, kind)]) == s.(eids := s.eids[e := kind])
  {
    assert VertexEntries([]) == [] && OutputEntries([]) == [] && ArgumentsOf([]) == {};
    assert ToMap([(e, kind)]) == map[e := kind];
    assert s.vids + map[] == s.vids && s.outputs + map[] == s.outputs;
  }

  /** Ids apart from `a + b` are apart from `a`, and from `b` once `a` is added. */
  lemma IdsApartSplit(s: Indices, a: seq<(Component, nat)>, b: seq<(Component, nat)>, ea: seq<(Eid, EdgeKind)>)
    requires IdsApart(s, a + b)
    ensures IdsApart(s, a) && IdsApart(Extend(s, a, ea), b)
    ensures forall x | x in IdsOf(a) :: x !in IdsOf(b)
  {
    IdsOfConcat(a, b);
    FreshConcat(IdsOf(a), IdsOf(b), {});
    VertexMapIds(a);
    var m := Extend(s, a, ea).vids;
    forall v | v in m ensures m[v].id !in IdsOf(b) {
      if v in ToMap(VertexEntries(a)) {
        assert m[v].id in IdsOf(a);
      } else {
        assert m[v] == s.vids[v];
      }
    }
  }

  /** Components whose ids differ from `c`'s, with new vertex ids, do not change what `c` owns. */
  lemma OwnsAfterExtend(s: Indices, c: Component, cs: seq<(Component, nat)>, es: seq<(Eid, EdgeKind)>)
    requires OwnsExactly(s.vids, c)
    requires c.id !in IdsOf(cs)
    requires FreshKeys(Keys(VertexEntries(cs)), s.vids.Keys)
    ensures OwnsExactly(Extend(s, cs, es).vids, c)
  {
    VertexMapIds(cs);
    var added := ToMap(VertexEntries(cs));
    var m := s.vids + added;
    forall v ensures (v in m && m[v].id == c.id) <==> v in Keys(c.vertices) {
      if v in added {
        assert m[v] == added[v];
        assert v !in s.vids;
      }
    }
  }

  /** After its vertices are registered, a component with an id not yet in the index owns exactly its vertices. */
  lemma OwnsAfterVertices(s: Indices, c: Component)
    requires forall v | v in s.vids :: s.vids[v].id != c.id
    ensures OwnsExactly(s.vids + ToMap(OwnedVertices(c.vertices, c)), c)
  {
    var added := ToMap(OwnedVertices(c.vertices, c));
    OwnedVerticesKeys(c.vertices, c);
    forall v | v in added ensures added[v] == c {
      var k := ToMapSource(OwnedVertices(c.vertices, c), v);
    }
  }

  // ---------------------------------------------------------------------
  // The pass over the component tree.
  // ---------------------------------------------------------------------

  /**
   * Indexing component `c`, when the components of its tree have distinct
   * ids none of which is already in the vertex index, succeeds exactly when
   * every component of the tree is well formed and every vertex id, output
   * name and edge id it declares is new and declared once; the indices then
   * gain exactly the tree's entries.
   */
  lemma {:induction false} AddComponentSpec(s: Indices, c: Component, depth: nat)
    requires IdsApart(s, Preorder(c, depth))
    ensures AddComponent(s, c, depth).Ok? <==> Admissible(s, Preorder(c, depth), EdgeEntries(c))
    ensures AddComponent(s, c, depth).Ok? ==>
      AddComponent(s, c, depth).value == Extend(s, Preorder(c, depth), EdgeEntries(c))
    decreases c, 1
  {
    var own := [(c, depth)];
    var fp := FoldsPreorder(c, 0, depth);
    var re := RegularEntries(c.edges);
    var fe := FoldsEdgeEntries(c, 0);
    var mid := Extend(s, own, re);
    assert Preorder(c, depth) == own + fp;
    assert EdgeEntries(c) == re + fe;
    AdmissibleConcat(s, own, fp, re, fe);
    ExtendConcat(s, own, fp, re, fe);
    OwnEntries(s, c, depth);
    IdsApartSplit(s, own, fp, re);
    assert IdsOf(own) == [c.id];
    var r := AddComponent(s, c, depth);
    if c.root !in Keys(c.vertices) {
      assert r.Err? && !Admissible(s, own, re);
      return;
    }
    AddVerticesSpec(s, c, c.vertices);
    if AddVertices(s, c, c.vertices).Err? {
      assert r.Err? && !Admissible(s, own, re);
      return;
    }
    var s1 := AddVertices(s, c, c.vertices).value;
    OwnsAfterVertices(s, c);
    AddOutputsSpec(s1, c, c.outputs, depth);
    if AddOutputs(s1, c, c.outputs, depth).Err? {
      assert r.Err? && !Admissible(s, own, re);
      return;
    }
    var s2 := AddOutputs(s1, c, c.outputs, depth).value;
    AddEdgesSpec(s2, c, c.edges);
    if AddEdges(s2, c, c.edges).Err? {
      assert r.Err? && !Admissible(s, own, re);
      return;
    }
    var s3 := AddEdges(s2, c, c.edges).value;
    assert s3 == mid;
    assert r == AddFoldsFrom(mid, c, 0, depth);
    AddFoldsFromSpec(mid, c, 0, depth);
    assert s1.outputs == s.outputs && s2.eids == s.eids;
    assert FreshKeys(Keys(c.vertices), s.vids.Keys);
    assert FreshKeys(Keys(c.outputs), s.outputs.Keys);
    assert FreshKeys(Keys(c.edges), s.eids.Keys);
    assert forall j | 0 <= j < |c.outputs| :: c.outputs[j].1.vertexId in Keys(c.vertices);
    assert forall j | 0 <= j < |c.edges| :: EdgeValid(c, c.edges[j]);
    LocalValidByFolds(c);
  }

  /**
   * Indexing the folds of `c` from the `i`-th on, each followed by its
   * nested component, succeeds exactly when those folds are well formed and
   * their subtrees can be added; the indices then gain exactly the subtrees'
   * entries and the folds' own edge entries.
   */
  lemma {:induction false} AddFoldsFromSpec(s: Indices, c: Component, i: nat, depth: nat)
    requires i <= |c.folds|
    requires OwnsExactly(s.vids, c)
    requires IdsApart(s, FoldsPreorder(c, i, depth)) && c.id !in IdsOf(FoldsPreorder(c, i, depth))
    ensures AddFoldsFrom(s, c, i, depth).Ok? <==>
      && (forall j | i <= j < |c.folds| :: FoldValid(c, c.folds[j]))
      && Admissible(s, FoldsPreorder(c, i, depth), FoldsEdgeEntries(c, i))
    ensures AddFoldsFrom(s, c, i, depth).Ok? ==>
      AddFoldsFrom(s, c, i, depth).value == Extend(s, FoldsPreorder(c, i, depth), FoldsEdgeEntries(c, i))
    decreases c, 0, |c.folds| - i, 1
  {
    if i == |c.folds| {
      assert Extend(s, [], []) == s;
      return;
    }
    var (e, f) := c.folds[i];
    var s1 := s.(eids := s.eids[e := EdgeKind.Fold(f)]);
    FoldEntryFirst(s, c, i, depth);
    FoldsValidSplit(c, i);
    FoldEdgeSpec(s, c, e, f);
    if AddFoldEdge(s, c, e, f).Err? {
      return;
    }
    assert AddFoldEdge(s, c, e, f) == Ok(s1);
    assert AddFoldsFrom(s, c, i, depth) == NestedThenRest(s1, c, i, depth);
    NestedSpec(s1, c, i, depth);
  }

  /** Among the edge entries of the folds from `i` on, fold `i`'s own entry comes first. */
  lemma FoldEntryFirst(s: Indices, c: Component, i: nat, depth: nat)
    requires i < |c.folds|
    ensures
      var (e, f) := c.folds[i];
      var s1 := s.(eids := s.eids[e := EdgeKind.Fold(f)]);
      var tail := EdgeEntries(f.component) + FoldsEdgeEntries(c, i + 1);
      && (Admissible(s, FoldsPreorder(c, i, depth), FoldsEdgeEntries(c, i)) <==>
          e !in s.eids && Admissible(s1, FoldsPreorder(c, i, depth), tail))
      && Extend(s, FoldsPreorder(c, i, depth), FoldsEdgeEntries(c, i)) == Extend(s1, FoldsPreorder(c, i, depth), tail)
  {
    var (e, f) := c.folds[i];
    var kind := EdgeKind.Fold(f);
    var tail := EdgeEntries(f.component) + FoldsEdgeEntries(c, i + 1);
    assert FoldsPreorder(c, i, depth) == [] + FoldsPreorder(c, i, depth);
    assert FoldsEdgeEntries(c, i) == [(e, kind)] + tail;
    AdmissibleConcat(s, [], FoldsPreorder(c, i, depth), [(e, kind)], tail);
    ExtendConcat(s, [], FoldsPreorder(c, i, depth), [(e, kind)], tail);
    FoldEntry(s, e, kind);
    FoldEntryExtend(s, e, kind);
  }

  /** What `AddFoldsFrom` does once fold `i` is recorded: its nested component, then the folds after it. */
  function NestedThenRest(s: Indices, c: Component, i: nat, depth: nat): Result<Indices>
    requires i < |c.folds|
  {
    var s1 :- AddComponent(s, c.folds[i].1.component, depth + 1);
    AddFoldsFrom(s1, c, i + 1, depth)
  }

  /**
   * After fold `i` of `c` is recorded, indexing its nested component and
   * then the remaining folds succeeds exactly when the later folds are well
   * formed and the subtrees from fold `i` on can be added.
   */
  lemma {:induction false} NestedSpec(s: Indices, c: Component, i: nat, depth: nat)
    requires i < |c.folds|
    requires OwnsExactly(s.vids, c)
    requires IdsApart(s, FoldsPreorder(c, i, depth)) && c.id !in IdsOf(FoldsPreorder(c, i, depth))
    ensures NestedThenRest(s, c, i, depth).Ok? <==>
      && (forall j | i + 1 <= j < |c.folds| :: FoldValid(c, c.folds[j]))
      && Admissible(s, FoldsPreorder(c, i, depth), EdgeEntries(c.folds[i].1.component) + FoldsEdgeEntries(c, i + 1))
    ensures NestedThenRest(s, c, i, depth).Ok? ==>
      NestedThenRest(s, c, i, depth).value ==
        Extend(s, FoldsPreorder(c, i, depth), EdgeEntries(c.folds[i].1.component) + FoldsEdgeEntries(c, i + 1))
    decreases c, 0, |c.folds| - i, 0
  {
    var sub := c.folds[i].1.component;
    var pre := Preorder(sub, depth + 1);
    var rest := FoldsPreorder(c, i + 1, depth);
    var ee := EdgeEntries(sub);
    var fe := FoldsEdgeEntries(c, i + 1);
    assert FoldsPreorder(c, i, depth) == pre + rest;
    AdmissibleConcat(s, pre, rest, ee, fe);
    ExtendConcat(s, pre, rest, ee, fe);
    NestedReady(s, c, i, depth);
    AddComponentSpec(s, sub, depth + 1);
    if AddComponent(s, sub, depth + 1).Err? {
      return;
    }
    NextFoldReady(s, c, i, depth);
    AddFoldsFromSpec(Extend(s, pre, ee), c, i + 1, depth);
  }

  /** The ids of the subtree of fold `i` are apart from the index. */
  lemma NestedReady(s: Indices, c: Component, i: nat, depth: nat)
    requires i < |c.folds|
    requires IdsApart(s, FoldsPreorder(c, i, depth))
    ensures IdsApart(s, Preorder(c.folds[i].1.component, depth + 1))
  {
    var pre := Preorder(c.folds[i].1.component, depth + 1);
    var rest := FoldsPreorder(c, i + 1, depth);
    assert FoldsPreorder(c, i, depth) == pre + rest;
    IdsApartSplit(s, pre, rest, []);
  }

  /** Once the subtree of fold `i` is added, the folds after it can be indexed. */
  lemma NextFoldReady(s: Indices, c: Component, i: nat, depth: nat)
    requires i < |c.folds|
    requires OwnsExactly(s.vids, c)
    requires IdsApart(s, FoldsPreorder(c, i, depth)) && c.id !in IdsOf(FoldsPreorder(c, i, depth))
    requires Admissible(s, Preorder(c.folds[i].1.component, depth + 1), EdgeEntries(c.folds[i].1.component))
    ensures
      var s2 := Extend(s, Preorder(c.folds[i].1.component, depth + 1), EdgeEntries(c.folds[i].1.component));
      && OwnsExactly(s2.vids, c)
      && IdsApart(s2, FoldsPreorder(c, i + 1, depth))
      && c.id !in IdsOf(FoldsPreorder(c, i + 1, depth))
  {
    var pre := Preorder(c.folds[i].1.component, depth + 1);
    var rest := FoldsPreorder(c, i + 1, depth);
    var ee := EdgeEntries(c.folds[i].1.component);
    assert FoldsPreorder(c, i, depth) == pre + rest;
    IdsOfConcat(pre, rest);
    IdsApartSplit(s, pre, rest, ee);
    OwnsAfterExtend(s, c, pre, ee);
  }

  lemma FoldsValidSplit(c: Component, i: nat)
    requires i < |c.folds|
    ensures (forall j | i <= j < |c.folds| :: FoldValid(c, c.folds[j])) <==>
      FoldValid(c, c.folds[i]) && forall j | i + 1 <= j < |c.folds| :: FoldValid(c, c.folds[j])
  {
  }

  /** With `c` owning exactly its vertices, a fold of `c` is recorded exactly when it is well formed and its id is new. */
  lemma FoldEdgeSpec(s: Indices, c: Component, e: Eid, f: IR.Fold)
    requires OwnsExactly(s.vids, c)
    ensures AddFoldEdge(s, c, e, f).Ok? <==> FoldValid(c, (e, f)) && e !in s.eids
    ensures AddFoldEdge(s, c, e, f).Ok? ==> AddFoldEdge(s, c, e, f).value == s.(eids := s.eids[e := EdgeKind.Fold(f)])
  {
    assert (f.fromVid in s.vids && s.vids[f.fromVid].id == c.id) <==> f.fromVid in Keys(c.vertices);
  }
}
