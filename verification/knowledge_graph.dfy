/** The knowledge-graph data model: entities keyed by ID, directed labelled
    relationships, and the `{entities, relationships}` graph snapshot. */
module KnowledgeGraph {
  import opened Wrappers
  import opened Dicts

  /** A JSON value, as stored in an entity's `properties`; compared structurally. */
  datatype Json =
    | JNull
    | JBool(b: bool)
    | JInt(i: int)
    | JString(s: string)
    | JArray(elems: seq<Json>)
    | JObject(fields: map<string, Json>)

  /** An entity record. `hasExternalNeighbor` is only meaningful on a fetched
      neighbourhood; records that do not carry the flag have it false. */
  datatype Entity = Entity(
    entityId: string,
    entityNames: seq<string>,
    properties: map<string, Json>,
    updatedAt: Option<string>,
    updatedBy: Option<string>,
    hasExternalNeighbor: bool)

  /** A directed edge; `relation` is the record's `relationship` field. */
  datatype Relationship = Relationship(source: string, target: string, relation: string)

  datatype Graph = Graph(entities: Dict<Entity>, relationships: seq<Relationship>) {
    ghost predicate Valid() {
      entities.Valid()
    }

    /** The entity IDs of the graph, `graph['entities'].keys()`. */
    function Ids(): set<string> {
      entities.items.Keys
    }
  }

  /** Every ID that some relationship starts or ends at. */
  function Endpoints(rels: seq<Relationship>): (ids: set<string>)
    ensures forall id :: id in ids <==> exists r :: r in rels && (r.source == id || r.target == id)
  {
    (set r | r in rels :: r.source) + (set r | r in rels :: r.target)
  }

  /** Whether `r` touches the entity `id`. */
  predicate Touches(r: Relationship, id: string) {
    r.source == id || r.target == id
  }

  /** `_get_valence_entities`: the IDs of the records flagged `has_external_neighbor`. */
  function ValenceEntityIds(g: Graph): (ids: set<string>)
    ensures ids <= g.Ids()
    ensures forall id :: id in ids <==> id in g.Ids() && g.entities.items[id].hasExternalNeighbor
  {
    set id | id in g.entities.items && g.entities.items[id].hasExternalNeighbor
  }
}
