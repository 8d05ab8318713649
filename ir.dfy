/**
 * The value types of the GraphQL schema a query is written against. Only the
 * structure the indexer touches is kept: a type is a named type or a list of
 * a type, and either layer may be nullable.
 */
module GraphQLTypes {

  datatype BaseType = Named(name: string) | List(elem: Type)

  datatype Type = Type(base: BaseType, nullable: bool)
}

/**
 * The intermediate representation (IR) of a query that the indexer consumes,
 * reduced to the fields the indexer reads. A component's ordered maps are
 * association lists in ascending key order (see module AssocLists).
 */
module IR {
  import opened GraphQLTypes

  type Vid = nat
  type Eid = nat

  /**
   * The identity of a component object. The IR shares components by
   * reference and the indexer compares them by identity; here every
   * component carries the identifier its builder gave it.
   */
  type ComponentId = nat

  datatype Option<T> = None | Some(value: T)

  /** The right-hand side of a filter: a variable the caller supplies, or a tag produced earlier in the query. */
  datatype Argument = Variable(variableName: string) | Tag(tagName: string)

  /** A filter on a vertex; unary operations have no right-hand side. */
  datatype Filter = Filter(right: Option<Argument>)

  datatype Vertex = Vertex(filters: seq<Filter>)

  datatype Edge = Edge(fromVid: Vid, toVid: Vid)

  /** A fold edge: from a vertex of the enclosing component into a nested component. */
  datatype Fold = Fold(fromVid: Vid, toVid: Vid, component: Component)

  datatype OutputField = OutputField(vertexId: Vid, fieldType: Type)

  datatype Component = Component(
    id: ComponentId,
    root: Vid,
    vertices: seq<(Vid, Vertex)>,
    edges: seq<(Eid, Edge)>,
    folds: seq<(Eid, Fold)>,
    outputs: seq<(string, OutputField)>)

  datatype Query = Query(rootComponent: Component)
}
