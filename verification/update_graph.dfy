/** The splice pipeline of update_graph.py: valence pre-check, edge trimming, the two
    relabelling passes (module Reconcile), graph difference, provenance stamping, and the
    merge into the stored graph behind a referential-integrity gate. */
module GraphUpdate {
  import opened Wrappers
  import opened Seqs
  import opened Dicts
  import opened Timestamps
  import opened KnowledgeGraph
  import opened Reconcile

  /** `_get_missing_entity_ids`: the required IDs the graph neither holds a record for
      nor mentions as a relationship endpoint. */
  function MissingEntityIds(g: Graph, required: set<string>): (missing: set<string>)
    ensures forall id :: id in missing <==>
      && id in required
      && id !in g.Ids()
      && forall r :: r in g.relationships ==> !Touches(r, id)
  {
    required - (g.Ids() + Endpoints(g.relationships))
  }

  /** Both endpoints are among `allowed`. */
  predicate Within(r: Relationship, allowed: set<string>) {
    r.source in allowed && r.target in allowed
  }

  /** `_trim_fuzzy_relationships(graph, ignore)`: keeps, in order, the relationships whose
      endpoints are both record IDs outside `ignore`. */
  function TrimFuzzyRelationships(g: Graph, ignore: set<string>): (r: Graph)
    ensures r.entities == g.entities
    ensures IsSubsequence(r.relationships, g.relationships)
    ensures forall rel :: rel in r.relationships ==>
      rel.source in g.Ids() && rel.source !in ignore && rel.target in g.Ids() && rel.target !in ignore
    ensures forall rel :: multiset(r.relationships)[rel] ==
                          (if Within(rel, g.Ids() - ignore) then multiset(g.relationships)[rel] else 0)
  {
    var allowed := g.Ids() - ignore;
    Graph(g.entities, Filter(g.relationships, rel => Within(rel, allowed)))
  }

  /** `_calc_graph_difference(g1, g2)`: the records of `g1` whose ID `g2` lacks (compared by ID
      only), and the relationships of `g1` that are not value-equal to one of `g2`'s. */
  function CalcGraphDifference(g1: Graph, g2: Graph): (d: Graph)
    requires g1.Valid()
    ensures d.Valid()
    ensures d.Ids() == g1.Ids() - g2.Ids()
    ensures forall k :: k in d.Ids() ==> d.entities.items[k] == g1.entities.items[k]
    ensures IsSubsequence(d.entities.keys, g1.entities.keys)
    ensures IsSubsequence(d.relationships, g1.relationships)
    ensures forall r :: multiset(d.relationships)[r] ==
                        (if r in g2.relationships then 0 else multiset(g1.relationships)[r])
  {
    Graph(Without(g1.entities, g2.Ids()), Filter(g1.relationships, r => r !in g2.relationships))
  }

  /** A graph differs from itself in nothing. */
  lemma DifferenceWithItselfIsEmpty(g: Graph)
    requires g.Valid()
    ensures CalcGraphDifference(g, g).entities.keys == []
    ensures CalcGraphDifference(g, g).Ids() == {}
    ensures CalcGraphDifference(g, g).relationships == []
  {
  }

  /** `entity` after `_update_graph_metadata` has stamped it with the time `stamp`. */
  function Stamped(e: Entity, userId: string, stamp: string): Entity {
    e.(updatedBy := Some(userId), updatedAt := Some(stamp))
  }

  /** Stamps the records of `ks` in order; the i-th record gets `stamps(start + i)`. */
  function StampEach(items: map<string, Entity>, ks: seq<string>, start: nat, userId: string,
                     stamps: nat -> string): (r: map<string, Entity>)
    requires Distinct(ks)
    requires forall k :: k in ks ==> k in items
    ensures r.Keys == items.Keys
    ensures forall i :: 0 <= i < |ks| ==> r[ks[i]] == Stamped(items[ks[i]], userId, stamps(start + i))
    ensures forall k :: k in items && k !in ks ==> r[k] == items[k]
    decreases |ks|
  {
    if ks == [] then items
    else
      DistinctTail(ks);
      var r := StampEach(items[ks[0] := Stamped(items[ks[0]], userId, stamps(start))], ks[1..], start + 1, userId, stamps);
      assert forall i :: 1 <= i < |ks| ==> ks[i] == ks[1..][i - 1];
      r
  }

  /** `_update_graph_metadata(g, user_id)`: every record gets `updated_by = user_id` and
      `updated_at` = the current UTC time to the second. Python reads the clock once per
      record, in dict order; `clock(i)` is the reading for the i-th record. */
  function UpdateGraphMetadata(g: Graph, userId: string, clock: nat -> UtcDateTime): (r: Graph)
    requires g.Valid()
    ensures r.Valid()
    ensures r.entities.keys == g.entities.keys && r.Ids() == g.Ids()
    ensures r.relationships == g.relationships
    ensures forall i :: 0 <= i < |g.entities.keys| ==>
      var e, e' := g.entities.items[g.entities.keys[i]], r.entities.items[g.entities.keys[i]];
      && e'.entityId == e.entityId
      && SignatureOf(e') == SignatureOf(e)
      && e'.hasExternalNeighbor == e.hasExternalNeighbor
      && e'.updatedBy == Some(userId)
      && e'.updatedAt == Some(IsoFormatSeconds(clock(i)))
  {
    var stamps := (i: nat) => IsoFormatSeconds(clock(i));
    var items := StampEach(g.entities.items, g.entities.keys, 0, userId, stamps);
    assert items.Keys == g.entities.items.Keys;
    Graph(Dict(g.entities.keys, items), g.relationships)
  }

  /** Every record of a stamped graph carries the actor and keeps its signature. */
  lemma StampedRecords(g: Graph, userId: string, clock: nat -> UtcDateTime)
    requires g.Valid()
    ensures var r := UpdateGraphMetadata(g, userId, clock);
      forall k :: k in r.Ids() ==>
        && r.entities.items[k].updatedBy == Some(userId)
        && SignatureOf(r.entities.items[k]) == SignatureOf(g.entities.items[k])
        && r.entities.items[k].updatedAt.Some?
  {
    var r := UpdateGraphMetadata(g, userId, clock);
    forall k | k in r.Ids()
      ensures r.entities.items[k].updatedBy == Some(userId)
      ensures SignatureOf(r.entities.items[k]) == SignatureOf(g.entities.items[k])
      ensures r.entities.items[k].updatedAt.Some?
    {
      assert k in g.entities.keys;
      var i :| 0 <= i < |g.entities.keys| && g.entities.keys[i] == k;
    }
  }

  /** `_get_invalid_relationship_entity_ids`: relationship endpoints with no record. */
  function InvalidRelationshipEntityIds(g: Graph): (ids: set<string>)
    ensures forall id :: id in ids <==>
      id !in g.Ids() && exists r :: r in g.relationships && Touches(r, id)
  {
    Endpoints(g.relationships) - g.Ids()
  }

  /** A graph passes the integrity gate exactly when every endpoint has a record. */
  lemma IntegrityGate(g: Graph)
    ensures InvalidRelationshipEntityIds(g) == {} <==>
      forall r :: r in g.relationships ==> r.source in g.Ids() && r.target in g.Ids()
  {
    if InvalidRelationshipEntityIds(g) == {} {
      forall r | r in g.relationships ensures r.source in g.Ids() && r.target in g.Ids() {
        assert Touches(r, r.source) && Touches(r, r.target);
      }
    }
  }

  /** The (source, target) pairs of some relationships; labels play no part. */
  function EndpointPairs(rels: seq<Relationship>): set<(string, string)> {
    set r | r in rels :: (r.source, r.target)
  }

  /** Some relationship of `rels` runs from `r`'s source to `r`'s target, whatever its label. */
  ghost predicate SharesPair(r: Relationship, rels: seq<Relationship>) {
    exists q :: q in rels && q.source == r.source && q.target == r.target
  }

  lemma EndpointPairsShared(rels: seq<Relationship>)
    ensures forall r: Relationship :: (r.source, r.target) in EndpointPairs(rels) <==> SharesPair(r, rels)
  {
  }

  /** The in-memory merge of `_splice_subgraph`: the records to remove are dropped by ID, every
      relationship sharing its (source, target) pair with a relationship to remove is dropped
      whatever its label, the survivors keeping their order and multiplicity, then the records
      to add overwrite or join and the relationships to add are appended. */
  function ExciseAndInsert(graph: Graph, remove: Graph, add: Graph): (merged: Graph)
    requires graph.Valid() && add.Valid()
    ensures merged.Valid()
    ensures merged.Ids() == (graph.Ids() - remove.Ids()) + add.Ids()
    ensures forall k :: k in add.Ids() ==> merged.entities.items[k] == add.entities.items[k]
    ensures forall k :: k in graph.Ids() && k !in remove.Ids() && k !in add.Ids() ==>
      merged.entities.items[k] == graph.entities.items[k]
    ensures forall r :: r in merged.relationships <==>
      (r in graph.relationships && !SharesPair(r, remove.relationships)) || r in add.relationships
    ensures |add.relationships| <= |merged.relationships|
    ensures merged.relationships[|merged.relationships| - |add.relationships|..] == add.relationships
    ensures IsSubsequence(merged.relationships[..|merged.relationships| - |add.relationships|], graph.relationships)
    ensures forall r ::
      multiset(merged.relationships[..|merged.relationships| - |add.relationships|])[r] ==
      (if SharesPair(r, remove.relationships) then 0 else multiset(graph.relationships)[r])
  {
    var kept := Without(graph.entities, remove.Ids());
    var pairs := EndpointPairs(remove.relationships);
    var rels := Filter(graph.relationships, (r: Relationship) => (r.source, r.target) !in pairs);
    EndpointPairsShared(remove.relationships);
    assert (rels + add.relationships)[..|rels|] == rels;
    Graph(Update(kept, add.entities), rels + add.relationships)
  }

  /** The merged records keep the stored order of the records that stay, and the records
      to add that were not among them follow in the order they are listed in `add`. */
  lemma ExciseAndInsertKeys(graph: Graph, remove: Graph, add: Graph)
    requires graph.Valid() && add.Valid()
    ensures ExciseAndInsert(graph, remove, add).entities.keys ==
      Filter(graph.entities.keys, NotIn(remove.Ids())) + Filter(add.entities.keys, NotIn(graph.Ids() - remove.Ids()))
  {
    var kept := Without(graph.entities, remove.Ids());
    assert kept.keys == Filter(graph.entities.keys, NotIn(remove.Ids()));
    assert kept.items.Keys == graph.Ids() - remove.Ids();
    UpdateKeys(kept, add.entities);
  }

  /** A call `_splice_subgraph` makes on the stores. */
  datatype StoreCall =
    | StoreGraphDelta(remove: Graph, add: Graph)
    | StoreKnowledgeGraph(graph: Graph, graphId: string)

  /** `_splice_subgraph(graph_id, remove, add)`, given the graph `fetch_knowledge_graph`
      returns. The result is the sequence of store calls made: the delta and then the merged
      snapshot, or nothing at all when the merge would leave a dangling endpoint. */
  function SpliceSubgraph(graphId: string, current: Graph, remove: Graph, add: Graph): (calls: seq<StoreCall>)
    requires current.Valid() && add.Valid()
    ensures calls == [] <==> InvalidRelationshipEntityIds(ExciseAndInsert(current, remove, add)) != {}
    ensures calls != [] ==>
      && |calls| == 2
      && calls[0] == StoreGraphDelta(remove, add)
      && calls[1].StoreKnowledgeGraph?
      && calls[1].graphId == graphId
      && calls[1].graph == ExciseAndInsert(current, remove, add)
    ensures forall c :: c in calls && c.StoreKnowledgeGraph? ==>
      forall r :: r in c.graph.relationships ==> r.source in c.graph.Ids() && r.target in c.graph.Ids()
  {
    var merged := ExciseAndInsert(current, remove, add);
    if InvalidRelationshipEntityIds(merged) != {} then []
    else
      IntegrityGate(merged);
      [StoreGraphDelta(remove, add), StoreKnowledgeGraph(merged, graphId)]
  }

  /** How one `_update_graph` call ends. */
  datatype Outcome =
    | MissingValence(missing: set<string>)
    | Raised(error: Exception)
    | Spliced(remove: Graph, add: Graph, calls: seq<StoreCall>)
  {
    /** The store calls made. */
    function Calls(): seq<StoreCall> {
      if Spliced? then calls else []
    }
  }

  /** The proposed subgraph after trimming and both relabelling passes. */
  function Reconciled(oldSub: Graph, newSub: Graph, collisionOrder: seq<string>, draws: Draws)
    : (r: Result<Graph, Exception>)
    requires oldSub.Valid() && newSub.Valid()
    requires Enumerates(collisionOrder, oldSub.Ids() * newSub.Ids())
    ensures r.Success? ==> r.value.Valid()
    ensures r.Success? ==> ValenceEntityIds(oldSub) <= r.value.Ids()
  {
    var trimmed := TrimFuzzyRelationships(newSub, ValenceEntityIds(oldSub));
    match RelabelInequivalent(oldSub, trimmed, collisionOrder, draws)
    case Failure(e) => Failure(e)
    case Success(g2) => Success(RelabelEquivalent(oldSub, g2))
  }

  /** `_update_graph(old_subgraph, new_subgraph, user_id, graph_id)`. The collision-set order,
      the random draws, the clock and the graph the store returns are supplied by the caller. */
  function UpdateGraph(oldSub: Graph, newSub: Graph, userId: string, graphId: string,
                       collisionOrder: seq<string>, draws: Draws, clock: nat -> UtcDateTime,
                       current: Graph): (out: Outcome)
    requires oldSub.Valid() && newSub.Valid() && current.Valid()
    requires Enumerates(collisionOrder, oldSub.Ids() * newSub.Ids())
    ensures out.MissingValence? <==> MissingEntityIds(newSub, ValenceEntityIds(oldSub)) != {}
    ensures out.MissingValence? ==> out.missing == MissingEntityIds(newSub, ValenceEntityIds(oldSub))
    ensures out.Calls() != [] ==> out.Spliced?
    ensures out.Raised? ==> out.error == IndexError
    ensures out.Spliced? ==>
      && out.remove.Ids() <= oldSub.Ids()
      && out.add.Ids() !! oldSub.Ids()
      && (forall v :: v in ValenceEntityIds(oldSub) ==> v !in out.remove.Ids() && v !in out.add.Ids())
      && (forall k :: k in out.add.Ids() ==> out.add.entities.items[k].updatedBy == Some(userId))
  {
    var valence := ValenceEntityIds(oldSub);
    var missing := MissingEntityIds(newSub, valence);
    if missing != {} then MissingValence(missing)
    else
      match Reconciled(oldSub, newSub, collisionOrder, draws)
      case Failure(e) => Raised(e)
      case Success(reconciled) =>
        var remove := CalcGraphDifference(oldSub, reconciled);
        var diff := CalcGraphDifference(reconciled, oldSub);
        var add := UpdateGraphMetadata(diff, userId, clock);
        StampedRecords(diff, userId, clock);
        Spliced(remove, add, SpliceSubgraph(graphId, current, remove, add))
  }
}
