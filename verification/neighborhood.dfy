/** Neighbourhood extraction from app/utils.py: the entities a query names, and the
    subgraph within one or two undirected hops of them, with the valence flag set on the
    outer ring's records that still have a neighbour outside the subgraph. */
module Neighborhood {
  import opened Wrappers
  import opened Seqs
  import opened Dicts
  import opened TextUtils
  import opened KnowledgeGraph

  // ---------------------------------------------------------------------------
  // get_relevant_entities

  /** Some name of the record, lower-cased, occurs in the lower-cased query. */
  predicate NamedIn(names: seq<string>, query: string) {
    exists i :: 0 <= i < |names| && IsSubstring(Lower(names[i]), Lower(query))
  }

  /** `get_relevant_entities(query, entities)`: the IDs of the records one of whose names
      occurs in the query, ignoring ASCII case. */
  method GetRelevantEntities(query: string, entities: Dict<Entity>) returns (ids: set<string>)
    requires entities.Valid()
    ensures ids <= entities.items.Keys
    ensures forall id :: id in ids <==>
      id in entities.items && NamedIn(entities.items[id].entityNames, query)
  {
    var q := Lower(query);
    ids := {};
    var i := 0;
    while i < |entities.keys|
      invariant 0 <= i <= |entities.keys|
      invariant forall id :: id in ids <==>
        id in entities.keys[..i] && NamedIn(entities.items[id].entityNames, query)
    {
      var id := entities.keys[i];
      var names := entities.items[id].entityNames;
      var j := 0;
      while j < |names|
        invariant 0 <= j <= |names|
        invariant forall k :: 0 <= k < j ==> !IsSubstring(Lower(names[k]), q)
      {
        if IsSubstring(Lower(names[j]), q) {
          ids := ids + {id};
          break;
        }
        j := j + 1;
      }
      assert entities.keys[..i + 1] == entities.keys[..i] + [id];
      i := i + 1;
    }
    assert entities.keys[..i] == entities.keys;
  }

  /** Matching ignores the case of the query. */
  lemma NamedInIgnoresQueryCase(names: seq<string>, query: string)
    ensures NamedIn(names, Lower(query)) == NamedIn(names, query)
  {
    LowerIdempotent(query);
  }

  /** Every name lower-cased. */
  function LowerAll(names: seq<string>): (r: seq<string>)
    ensures |r| == |names|
    ensures forall i :: 0 <= i < |names| ==> r[i] == Lower(names[i])
  {
    seq(|names|, i requires 0 <= i < |names| => Lower(names[i]))
  }

  /** Matching ignores the case of the names. */
  lemma NamedInIgnoresNameCase(names: seq<string>, query: string)
    ensures NamedIn(LowerAll(names), query) == NamedIn(names, query)
  {
    var lowered := LowerAll(names);
    forall i | 0 <= i < |names| ensures Lower(lowered[i]) == Lower(names[i]) {
      LowerIdempotent(names[i]);
    }
  }

  // ---------------------------------------------------------------------------
  // get_knowledge_subgraph

  /** The nodes of `_knowledge_graph_to_nx(g)`: networkx adds every relationship endpoint
      as a node, with no attributes when no record carries that ID. */
  function Nodes(g: Graph): set<string> {
    g.Ids() + Endpoints(g.relationships)
  }

  /** Some relationship links `x` and `y`, in either direction. */
  predicate Adjacent(rels: seq<Relationship>, x: string, y: string) {
    exists r :: r in rels && ((r.source == x && r.target == y) || (r.source == y && r.target == x))
  }

  /** The neighbours of the nodes `xs` in `to_undirected()`. */
  function NeighborsOf(rels: seq<Relationship>, xs: set<string>): (ns: set<string>)
    ensures forall y :: y in ns <==> exists x :: x in xs && Adjacent(rels, x, y)
  {
    var ns := (set r | r in rels && r.source in xs :: r.target) + (set r | r in rels && r.target in xs :: r.source);
    assert forall y :: (exists x :: x in xs && Adjacent(rels, x, y)) ==> y in ns by {
      forall y | exists x :: x in xs && Adjacent(rels, x, y) ensures y in ns {
        var x :| x in xs && Adjacent(rels, x, y);
        var r :| r in rels && ((r.source == x && r.target == y) || (r.source == y && r.target == x));
      }
    }
    ns
  }

  /** The rings around the seeds: `first` is `nbrs1`, `second` is `nbrs2`. */
  datatype Rings = Rings(first: set<string>, second: set<string>)

  /** The ring computation of `get_knowledge_subgraph`: the seeds' neighbours that are not
      seeds, then (when `num_hops > 1`) their neighbours in neither set. */
  function ComputeRings(seeds: set<string>, rels: seq<Relationship>, numHops: int): (r: Rings)
    ensures forall y :: y in r.first <==> y !in seeds && exists x :: x in seeds && Adjacent(rels, x, y)
    ensures numHops <= 1 ==> r.second == {}
    ensures numHops > 1 ==> forall y :: y in r.second <==>
      && y !in seeds && y !in r.first
      && exists x :: x in r.first && Adjacent(rels, x, y)
    ensures seeds !! r.first && seeds !! r.second && r.first !! r.second
  {
    var first := NeighborsOf(rels, seeds) - seeds;
    var second := if numHops > 1 then NeighborsOf(rels, first) - seeds - first else {};
    Rings(first, second)
  }

  /** The records the subgraph keeps: `entity_ids | nbrs1 | nbrs2`. */
  function Members(seeds: set<string>, rings: Rings): set<string> {
    seeds + rings.first + rings.second
  }

  /** `outer_nbrs`: the second ring when two hops were asked for, the first otherwise. */
  function Outer(rings: Rings, numHops: int): set<string> {
    if numHops > 1 then rings.second else rings.first
  }

  /** `valence_entities`: the outer ring's nodes with a neighbour outside the members. Seeds
      and inner-ring nodes are never among them. */
  function ValenceIds(seeds: set<string>, rels: seq<Relationship>, numHops: int): (v: set<string>)
    ensures var rings := ComputeRings(seeds, rels, numHops);
      forall x :: x in v <==>
        && x in Outer(rings, numHops)
        && exists y :: Adjacent(rels, x, y) && y !in Members(seeds, rings)
    ensures v !! seeds
    ensures numHops > 1 ==> v !! ComputeRings(seeds, rels, numHops).first
  {
    var rings := ComputeRings(seeds, rels, numHops);
    var members := Members(seeds, rings);
    var v := set x | x in Outer(rings, numHops) && !(NeighborsOf(rels, {x}) <= members);
    forall x | x in Outer(rings, numHops) {
      OutsideNeighbor(rels, x, members);
    }
    v
  }

  /** Some neighbour of `x` lies outside `members` exactly when `x` has an adjacent node there. */
  lemma OutsideNeighbor(rels: seq<Relationship>, x: string, members: set<string>)
    ensures !(NeighborsOf(rels, {x}) <= members) <==> exists y :: Adjacent(rels, x, y) && y !in members
  {
    if exists y :: Adjacent(rels, x, y) && y !in members {
      var y :| Adjacent(rels, x, y) && y !in members;
      assert y in NeighborsOf(rels, {x});
    }
  }

  /** The nodes within `n` undirected hops of the seeds: the reference definition the rings
      are measured against. */
  function WithinHops(rels: seq<Relationship>, seeds: set<string>, n: nat): set<string> {
    if n == 0 then seeds
    else
      var w := WithinHops(rels, seeds, n - 1);
      w + NeighborsOf(rels, w)
  }

  /** How many hops the ring computation actually takes: two when `num_hops > 1`, one
      otherwise (so `num_hops` of 0 still yields the first ring). */
  function Hops(numHops: int): nat {
    if numHops > 1 then 2 else 1
  }

  /** The members are the nodes within `Hops(numHops)` hops of the seeds, and the outer
      ring is the last hop's frontier. */
  lemma {:induction false} RingsAreHopBalls(seeds: set<string>, rels: seq<Relationship>, numHops: int)
    ensures var rings := ComputeRings(seeds, rels, numHops); var k := Hops(numHops);
      && Members(seeds, rings) == WithinHops(rels, seeds, k)
      && Outer(rings, numHops) == WithinHops(rels, seeds, k) - WithinHops(rels, seeds, k - 1)
  {
    var rings := ComputeRings(seeds, rels, numHops);
    var w1 := WithinHops(rels, seeds, 1);
    assert WithinHops(rels, seeds, 0) == seeds;
    assert w1 == seeds + NeighborsOf(rels, seeds);
    assert w1 == seeds + rings.first;
    if numHops > 1 {
      var w2 := WithinHops(rels, seeds, 2);
      assert w2 == w1 + NeighborsOf(rels, w1);
      forall y | y in NeighborsOf(rels, w1) ensures y in Members(seeds, rings) {
        var x :| x in w1 && Adjacent(rels, x, y);
        if x in seeds {
          assert y in seeds || y in rings.first;
        } else {
          assert x in rings.first;
        }
      }
      forall y | y in rings.second ensures y in NeighborsOf(rels, w1) {
        var x :| x in rings.first && Adjacent(rels, x, y);
      }
    }
  }

  /** A record of the subgraph, flagged when its ID is among `valence`. */
  function Flagged(e: Entity, valence: set<string>): Entity {
    e.(hasExternalNeighbor := e.entityId in valence)
  }

  /** The `entity_id` attributes of the records of `order`. */
  function AttributeIds(order: seq<string>, items: map<string, Entity>): (ids: set<string>)
    requires forall k :: k in order ==> k in items
    ensures forall id :: id in ids <==> exists k :: k in order && items[k].entityId == id
    decreases |order|
  {
    if order == [] then {}
    else
      var init := order[..|order| - 1];
      var last := order[|order| - 1];
      assert forall j :: j in init ==> j in order;
      var ids := AttributeIds(init, items) + {items[last].entityId};
      assert forall id :: (exists k :: k in order && items[k].entityId == id) ==> id in ids by {
        forall id | exists k :: k in order && items[k].entityId == id ensures id in ids {
          var k :| k in order && items[k].entityId == id;
          if k != last {
            assert order == init + [last];
            assert k in init;
          }
        }
      }
      ids
  }

  /** The reformatting loop: each member's record, flagged, keyed by its own `entity_id`
      attribute (a later record with the same attribute overwrites an earlier one). */
  function Reformat(order: seq<string>, items: map<string, Entity>, valence: set<string>): (r: Dict<Entity>)
    requires forall k :: k in order ==> k in items
    ensures r.Valid()
    ensures forall id :: id in r.items ==>
      && r.items[id].entityId == id
      && r.items[id].hasExternalNeighbor == (id in valence)
    decreases |order|
  {
    if order == [] then Empty()
    else
      var init := order[..|order| - 1];
      var last := order[|order| - 1];
      var e := Flagged(items[last], valence);
      assert forall j :: j in init ==> j in order;
      var r0 := Reformat(init, items, valence);
      Put(r0, e.entityId, e)
  }

  /** The reformatted dict has one key per distinct `entity_id` attribute of the members. */
  lemma {:induction false} ReformatKeys(order: seq<string>, items: map<string, Entity>, valence: set<string>)
    requires forall k :: k in order ==> k in items
    ensures Reformat(order, items, valence).items.Keys == AttributeIds(order, items)
    decreases |order|
  {
    if order != [] {
      var init := order[..|order| - 1];
      var last := order[|order| - 1];
      assert forall j :: j in init ==> j in order;
      ReformatKeys(init, items, valence);
    }
  }

  /** On records keyed by their own `entity_id`, reformatting keeps each member's record
      under its key, flagged. */
  lemma {:induction false} ReformatKeyed(order: seq<string>, items: map<string, Entity>, valence: set<string>)
    requires forall k :: k in order ==> k in items && items[k].entityId == k
    ensures forall k :: k in order ==>
      k in Reformat(order, items, valence).items && Reformat(order, items, valence).items[k] == Flagged(items[k], valence)
    decreases |order|
  {
    if order != [] {
      var init := order[..|order| - 1];
      var last := order[|order| - 1];
      assert order == init + [last];
      assert forall j :: j in init ==> j in order;
      ReformatKeyed(init, items, valence);
      var r0 := Reformat(init, items, valence);
      var e := Flagged(items[last], valence);
      var r := Reformat(order, items, valence);
      assert r == Put(r0, last, e);
      assert r.items == r0.items[last := e];
      forall k | k in init ensures k in r.items && r.items[k] == Flagged(items[k], valence) {
        assert k in r0.items && r0.items[k] == Flagged(items[k], valence);
      }
    }
  }

  /** `e` is the flagged record of one of `order`. */
  ghost predicate FlaggedFrom(e: Entity, order: seq<string>, items: map<string, Entity>, valence: set<string>)
    requires forall k :: k in order ==> k in items
  {
    exists j :: j in order && e == Flagged(items[j], valence)
  }

  /** Each record of the reformatted dict is the flagged record of some member. */
  lemma {:induction false} ReformatSources(order: seq<string>, items: map<string, Entity>, valence: set<string>)
    requires forall k :: k in order ==> k in items
    ensures forall id :: id in Reformat(order, items, valence).items ==>
      FlaggedFrom(Reformat(order, items, valence).items[id], order, items, valence)
    decreases |order|
  {
    if order != [] {
      var init := order[..|order| - 1];
      var last := order[|order| - 1];
      assert forall j :: j in init ==> j in order;
      ReformatSources(init, items, valence);
      var r0 := Reformat(init, items, valence);
      var e := Flagged(items[last], valence);
      var r := Reformat(order, items, valence);
      assert r == Put(r0, e.entityId, e);
      forall id | id in r.items ensures FlaggedFrom(r.items[id], order, items, valence) {
        if id == e.entityId {
          assert last in order;
        } else {
          assert id in r0.items && r.items[id] == r0.items[id];
          assert FlaggedFrom(r0.items[id], init, items, valence);
          var j :| j in init && r0.items[id] == Flagged(items[j], valence);
          assert j in order;
        }
      }
    }
  }

  /** The records of `g` are keyed by their own `entity_id`. */
  ghost predicate KeyedById(g: Graph) {
    forall k :: k in g.Ids() ==> g.entities.items[k].entityId == k
  }

  /** `get_knowledge_subgraph(entity_ids, graph, num_hops=2)`. A seed that is no node of the
      graph raises `NetworkXError`; a member node without a record (an endpoint nobody
      defines) raises `KeyError('entity_id')`. Otherwise the result holds the members'
      records, flagged, and every relationship between two members. */
  function GetKnowledgeSubgraph(seeds: set<string>, g: Graph, numHops: int := 2): (r: Result<Graph, Exception>)
    requires g.Valid()
    ensures var members := Members(seeds, ComputeRings(seeds, g.relationships, numHops));
      && (r.Failure? <==> !(seeds <= Nodes(g)) || !(members <= g.Ids()))
      && (!(seeds <= Nodes(g)) ==> r == Failure(NetworkXError))
      && (seeds <= Nodes(g) && !(members <= g.Ids()) ==> r == Failure(KeyError("entity_id")))
    ensures r.Success? ==> r.value.Valid()
    ensures r.Success? ==>
      var members := Members(seeds, ComputeRings(seeds, g.relationships, numHops));
      && IsSubsequence(r.value.relationships, g.relationships)
      && forall rel :: multiset(r.value.relationships)[rel] ==
                         (if rel.source in members && rel.target in members then multiset(g.relationships)[rel] else 0)
  {
    var rels := g.relationships;
    var rings := ComputeRings(seeds, rels, numHops);
    var members := Members(seeds, rings);
    if !(seeds <= Nodes(g)) then Failure(NetworkXError)
    else if !(members <= g.Ids()) then Failure(KeyError("entity_id"))
    else
      var valence := ValenceIds(seeds, rels, numHops);
      var order := Filter(g.entities.keys, k => k in members);
      var entities := Reformat(order, g.entities.items, valence);
      Success(Graph(entities, Filter(rels, (rel: Relationship) => rel.source in members && rel.target in members)))
  }

  /** On a graph keyed by ID, the subgraph's records are exactly the members', each flagged
      iff it is on the outer ring with a neighbour beyond the members; its relationships
      never leave it. */
  lemma KnowledgeSubgraphSpec(seeds: set<string>, g: Graph, numHops: int)
    requires g.Valid() && KeyedById(g)
    requires GetKnowledgeSubgraph(seeds, g, numHops).Success?
    ensures var s := GetKnowledgeSubgraph(seeds, g, numHops).value;
      var members := Members(seeds, ComputeRings(seeds, g.relationships, numHops));
      var valence := ValenceIds(seeds, g.relationships, numHops);
      && s.Ids() == members
      && (forall x :: x in members ==> s.entities.items[x] == Flagged(g.entities.items[x], valence))
      && ValenceEntityIds(s) == valence
      && forall rel :: rel in s.relationships ==> rel.source in s.Ids() && rel.target in s.Ids()
  {
    var rels := g.relationships;
    var members := Members(seeds, ComputeRings(seeds, rels, numHops));
    var valence := ValenceIds(seeds, rels, numHops);
    var s := GetKnowledgeSubgraph(seeds, g, numHops).value;
    SubgraphRecords(seeds, g, numHops);
    assert valence <= members;
    assert ValenceEntityIds(s) == valence;
  }

  lemma SubgraphRecords(seeds: set<string>, g: Graph, numHops: int)
    requires g.Valid() && KeyedById(g)
    requires GetKnowledgeSubgraph(seeds, g, numHops).Success?
    ensures var s := GetKnowledgeSubgraph(seeds, g, numHops).value;
      var members := Members(seeds, ComputeRings(seeds, g.relationships, numHops));
      var valence := ValenceIds(seeds, g.relationships, numHops);
      && s.Ids() == members
      && forall x :: x in members ==> s.entities.items[x] == Flagged(g.entities.items[x], valence)
  {
    var rels := g.relationships;
    var members := Members(seeds, ComputeRings(seeds, rels, numHops));
    var valence := ValenceIds(seeds, rels, numHops);
    var order := Filter(g.entities.keys, k => k in members);
    var s := GetKnowledgeSubgraph(seeds, g, numHops).value;
    assert s.entities == Reformat(order, g.entities.items, valence);
    forall k | k in order ensures k in g.entities.items && g.entities.items[k].entityId == k {
      assert k in g.entities.keys;
    }
    forall x | x in members ensures x in order {
      assert x in g.entities.keys;
    }
    ReformatKeyed(order, g.entities.items, valence);
    ReformatKeys(order, g.entities.items, valence);
    forall id | id in AttributeIds(order, g.entities.items) ensures id in members {
      var k :| k in order && g.entities.items[k].entityId == id;
    }
  }
}
