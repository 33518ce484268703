/** Identity reconciliation between the fetched neighbourhood (g1) and its proposed
    replacement (g2): signatures, fresh IDs, and the two relabelling passes of
    update_graph.py. */
module Reconcile {
  import opened Wrappers
  import opened Seqs
  import opened Dicts
  import opened TextUtils
  import opened KnowledgeGraph

  /** `_signature`: the names and properties, the part of a record that decides whether
      two records describe the same thing regardless of ID and provenance. */
  datatype Signature = Signature(names: seq<string>, properties: map<string, Json>)

  function SignatureOf(e: Entity): (s: Signature) {
    Signature(e.entityNames, e.properties)
  }

  /** Two records have the same signature exactly when their names and properties agree. */
  lemma SameSignature(e1: Entity, e2: Entity)
    ensures SignatureOf(e1) == SignatureOf(e2) <==>
      e1.entityNames == e2.entityNames && e1.properties == e2.properties
  {
  }

  /** The ID, the provenance stamps and the external-neighbour flag do not enter the signature. */
  lemma SignatureIgnoresMetadata(e: Entity, id: string, stampedAt: Option<string>, stampedBy: Option<string>, flag: bool)
    ensures SignatureOf(e.(entityId := id, updatedAt := stampedAt, updatedBy := stampedBy, hasExternalNeighbor := flag))
      == SignatureOf(e)
  {
  }

  /** A random per-entity stream of alphabet picks, standing in for `secrets`. */
  type Draws = string -> (nat -> AlphabetIndex)

  /** `remove_nonalphanumeric(name)[:4].lower()`. */
  function IdPrefix(name: string): (p: string)
    ensures var alnum := RemoveNonalphanumeric(name);
      && |p| == (if |alnum| < 4 then |alnum| else 4)
      && (forall i :: 0 <= i < |p| ==> p[i] == LowerChar(alnum[i]))
    ensures forall i :: 0 <= i < |p| ==> IsAsciiDigit(p[i]) || 'a' <= p[i] <= 'z'
  {
    var alnum := RemoveNonalphanumeric(name);
    Lower(if |alnum| <= 4 then alnum else alnum[..4])
  }

  /** `_generate_entity_id(name)`: up to four lower-cased alphanumerics of the name, a dot,
      and a four-character random suffix whose picks come from `pick`. */
  function GenerateEntityId(name: string, pick: nat -> AlphabetIndex): (id: string)
    ensures var alnum := RemoveNonalphanumeric(name);
      var n := if |alnum| < 4 then |alnum| else 4;
      && |id| == n + 5
      && (forall i :: 0 <= i < n ==> id[i] == LowerChar(alnum[i]))
      && (forall i :: 0 <= i < n ==> id[i] != '.')
      && id[n] == '.'
      && (forall i :: n < i < |id| ==> id[i] in Alphabet)
  {
    var suffix := GenerateRandomString(4, pick);
    IdPrefix(name) + "." + suffix.value
  }

  // ---------------------------------------------------------------------------
  // _relabel_entities

  /** The new IDs the mapping assigns to the keys in `order`. */
  function Image(order: seq<string>, m: map<string, string>): set<string>
    requires forall k :: k in order ==> k in m
  {
    set k | k in order :: m[k]
  }

  /** The first loop of `_relabel_entities`: for each `(old, new)` pair in mapping order,
      `entities[new] = entities[old]` with its `entity_id` set to `new`. */
  function ApplyMoves(d: Dict<Entity>, order: seq<string>, m: map<string, string>): (r: Dict<Entity>)
    requires d.Valid()
    requires forall k :: k in order ==> k in d.items && k in m
    ensures r.Valid()
    ensures r.items.Keys == d.items.Keys + Image(order, m)
    ensures forall x :: x in d.items && x !in Image(order, m) ==> r.items[x] == d.items[x]
    decreases |order|
  {
    if order == [] then d
    else
      var k := order[0];
      assert Image(order, m) == {m[k]} + Image(order[1..], m);
      ApplyMoves(Put(d, m[k], d.items[k].(entityId := m[k])), order[1..], m)
  }

  function RenameId(id: string, m: map<string, string>): string {
    if id in m then m[id] else id
  }

  function RenameEndpoints(r: Relationship, m: map<string, string>): Relationship {
    r.(source := RenameId(r.source, m), target := RenameId(r.target, m))
  }

  /** The keys a mapping moves to a different ID. */
  function MovedIds(m: map<string, string>): set<string> {
    set k | k in m && m[k] != k
  }

  /** `_relabel_entities(g, id_mapping)`. */
  function RelabelEntities(g: Graph, idMapping: Dict<string>): (r: Graph)
    requires g.Valid() && idMapping.Valid()
    requires idMapping.items.Keys <= g.Ids()
    ensures r.Valid()
    ensures r.Ids() == (g.Ids() + idMapping.items.Values) - MovedIds(idMapping.items)
    ensures forall x :: x in g.Ids() && x !in idMapping.items && x !in idMapping.items.Values ==>
      r.entities.items[x] == g.entities.items[x]
    ensures |r.relationships| == |g.relationships|
    ensures forall i :: 0 <= i < |g.relationships| ==>
      r.relationships[i] == RenameEndpoints(g.relationships[i], idMapping.items)
  {
    var m := idMapping.items;
    ImageOfKeys(idMapping);
    var moved := ApplyMoves(g.entities, idMapping.keys, m);
    Graph(Without(moved, MovedIds(m)), RenameAll(g.relationships, m))
  }

  /** The relationship loop of `_relabel_entities`: each endpoint `x` becomes `m.get(x, x)`. */
  function RenameAll(rels: seq<Relationship>, m: map<string, string>): (r: seq<Relationship>)
    ensures |r| == |rels|
    ensures forall i :: 0 <= i < |rels| ==> r[i] == RenameEndpoints(rels[i], m)
  {
    seq(|rels|, i requires 0 <= i < |rels| => RenameEndpoints(rels[i], m))
  }

  lemma ImageOfKeys(d: Dict<string>)
    requires d.Valid()
    ensures Image(d.keys, d.items) == d.items.Values
  {
    forall v | v in d.items.Values ensures v in Image(d.keys, d.items) {
      var k :| k in d.items && d.items[k] == v;
      assert k in d.keys;
    }
  }

  /** The mapping sends every key to itself or to an ID not yet in use, and no two keys
      to the same ID. */
  ghost predicate FreshAndInjective(g: Graph, m: map<string, string>) {
    && (forall k :: k in m ==> m[k] == k || m[k] !in g.Ids())
    && (forall a, b :: a in m && b in m && a != b ==> m[a] != m[b])
  }

  lemma {:induction false} ApplyMovesFresh(d: Dict<Entity>, order: seq<string>, m: map<string, string>)
    requires d.Valid() && Distinct(order)
    requires forall k :: k in order ==> k in d.items && k in m
    requires forall k :: k in order ==> m[k] == k || m[k] !in d.items
    requires forall a, b :: a in order && b in order && a != b ==> m[a] != m[b]
    ensures forall k :: k in order ==> ApplyMoves(d, order, m).items[m[k]] == d.items[k].(entityId := m[k])
    decreases |order|
  {
    if order != [] {
      var k0, rest := order[0], order[1..];
      var t0 := m[k0];
      var d' := Put(d, t0, d.items[k0].(entityId := t0));
      DistinctTail(order);
      forall k | k in rest ensures d'.items[k] == d.items[k] && (m[k] == k || m[k] !in d'.items) {
        assert k != k0 && m[k] != t0;
      }
      ApplyMovesFresh(d', rest, m);
      assert t0 !in Image(rest, m);
    }
  }

  /** With a fresh, injective mapping, `_relabel_entities` moves each mapped record to its
      new key (with a matching `entity_id`) and leaves every other record where it was. */
  lemma RelabelEntitiesMovesRecords(g: Graph, idMapping: Dict<string>)
    requires g.Valid() && idMapping.Valid()
    requires idMapping.items.Keys <= g.Ids()
    requires FreshAndInjective(g, idMapping.items)
    ensures var r := RelabelEntities(g, idMapping); var m := idMapping.items;
      && r.Ids() == (g.Ids() - MovedIds(m)) + m.Values
      && (forall k :: k in m ==> r.entities.items[m[k]] == g.entities.items[k].(entityId := m[k]))
      && (forall x :: x in g.Ids() && x !in m ==> r.entities.items[x] == g.entities.items[x])
  {
    RelabelKeys(g, idMapping);
    RelabelMovedRecords(g, idMapping);
    RelabelUnmovedRecords(g, idMapping);
  }

  lemma RelabelKeys(g: Graph, idMapping: Dict<string>)
    requires g.Valid() && idMapping.Valid()
    requires idMapping.items.Keys <= g.Ids()
    requires FreshAndInjective(g, idMapping.items)
    ensures RelabelEntities(g, idMapping).Ids() == (g.Ids() - MovedIds(idMapping.items)) + idMapping.items.Values
  {
    var m := idMapping.items;
    forall v | v in m.Values ensures v !in MovedIds(m) {
      var k :| k in m && m[k] == v;
    }
  }

  lemma RelabelMovedRecords(g: Graph, idMapping: Dict<string>)
    requires g.Valid() && idMapping.Valid()
    requires idMapping.items.Keys <= g.Ids()
    requires FreshAndInjective(g, idMapping.items)
    ensures var r := RelabelEntities(g, idMapping); var m := idMapping.items;
      forall k :: k in m ==> r.entities.items[m[k]] == g.entities.items[k].(entityId := m[k])
  {
    var m := idMapping.items;
    var moved := ApplyMoves(g.entities, idMapping.keys, m);
    var r := RelabelEntities(g, idMapping);
    assert r.entities == Without(moved, MovedIds(m));
    ApplyMovesFresh(g.entities, idMapping.keys, m);
    TargetsNotMoved(m, g.Ids());
  }

  /** A target of a fresh mapping is never itself a moved key. */
  lemma TargetsNotMoved(m: map<string, string>, ids: set<string>)
    requires m.Keys <= ids
    requires forall k :: k in m ==> m[k] == k || m[k] !in ids
    ensures forall k :: k in m ==> m[k] !in MovedIds(m)
  {
  }

  lemma RelabelUnmovedRecords(g: Graph, idMapping: Dict<string>)
    requires g.Valid() && idMapping.Valid()
    requires idMapping.items.Keys <= g.Ids()
    requires FreshAndInjective(g, idMapping.items)
    ensures var r := RelabelEntities(g, idMapping);
      forall x :: x in g.Ids() && x !in idMapping.items ==> r.entities.items[x] == g.entities.items[x]
  {
  }

  // ---------------------------------------------------------------------------
  // _relabel_inequivalent_entities

  /** `id` names an entity in both graphs, with different signatures. */
  predicate Collides(g1: Graph, g2: Graph, id: string) {
    && id in g1.Ids()
    && id in g2.Ids()
    && SignatureOf(g1.entities.items[id]) != SignatureOf(g2.entities.items[id])
  }

  /** The ID generated for the colliding `g2` record `id`, from its primary name. */
  function NewId(g2: Graph, id: string, draws: Draws): string
    requires id in g2.Ids() && g2.entities.items[id].entityNames != []
  {
    GenerateEntityId(g2.entities.items[id].entityNames[0], draws(id))
  }

  /** Every colliding record has a primary name to build its new ID from. */
  ghost predicate CollidersNamed(g1: Graph, g2: Graph) {
    forall id :: Collides(g1, g2, id) ==> g2.entities.items[id].entityNames != []
  }

  /** The `id_mapping` of `_relabel_inequivalent_entities`, in the iteration order of the
      collision set. */
  function InequivalentMapping(g1: Graph, g2: Graph, collisionOrder: seq<string>, draws: Draws): (m: Dict<string>)
    requires g1.Valid() && g2.Valid()
    requires Enumerates(collisionOrder, g1.Ids() * g2.Ids())
    requires CollidersNamed(g1, g2)
    ensures m.Valid()
    ensures forall id :: id in m.items <==> Collides(g1, g2, id)
    ensures forall id :: id in m.items ==> m.items[id] == NewId(g2, id, draws)
  {
    var ids := Filter(collisionOrder, id => Collides(g1, g2, id));
    assert Distinct(ids) by {
      forall x ensures multiset(ids)[x] <= 1 {
        assert multiset(collisionOrder)[x] <= 1;
      }
    }
    assert forall id :: id in ids <==> Collides(g1, g2, id);
    Dict(ids, map id | id in ids :: NewId(g2, id, draws))
  }

  /** `_relabel_inequivalent_entities(g1, g2)`: a record of `g2` whose ID is used in `g1` for a
      record with another signature gets a freshly generated ID. Python iterates the collision
      set in an order of its own; `collisionOrder` is that order. An empty `entity_names`
      raises `IndexError`. */
  function RelabelInequivalent(g1: Graph, g2: Graph, collisionOrder: seq<string>, draws: Draws)
    : (r: Result<Graph, Exception>)
    requires g1.Valid() && g2.Valid()
    requires Enumerates(collisionOrder, g1.Ids() * g2.Ids())
    ensures r.Failure? <==> !CollidersNamed(g1, g2)
    ensures r.Failure? ==> r.error == IndexError
    ensures r.Success? ==> r.value.Valid() && |r.value.relationships| == |g2.relationships|
  {
    if exists id :: id in collisionOrder && Collides(g1, g2, id) && g2.entities.items[id].entityNames == [] then
      Failure(IndexError)
    else
      Success(RelabelEntities(g2, InequivalentMapping(g1, g2, collisionOrder, draws)))
  }

  /** The generated IDs are unused in both graphs and pairwise different. */
  ghost predicate FreshIds(g1: Graph, g2: Graph, draws: Draws)
    requires CollidersNamed(g1, g2)
  {
    && (forall id :: Collides(g1, g2, id) ==> NewId(g2, id, draws) !in g1.Ids() && NewId(g2, id, draws) !in g2.Ids())
    && (forall a, b :: Collides(g1, g2, a) && Collides(g1, g2, b) && a != b ==> NewId(g2, a, draws) != NewId(g2, b, draws))
  }

  /** Every ID the two graphs share names records with equal signatures. */
  ghost predicate CollisionsConsistent(g1: Graph, g2: Graph) {
    forall id :: id in g1.Ids() && id in g2.Ids() ==>
      SignatureOf(g1.entities.items[id]) == SignatureOf(g2.entities.items[id])
  }

  /** What `_relabel_inequivalent_entities` achieves when the generated IDs are fresh:
      shared IDs now mean the same thing, each colliding record lives on under its new ID,
      nothing else moves, and relationships follow their endpoints. */
  lemma RelabelInequivalentSpec(g1: Graph, g2: Graph, collisionOrder: seq<string>, draws: Draws)
    requires g1.Valid() && g2.Valid()
    requires Enumerates(collisionOrder, g1.Ids() * g2.Ids())
    requires CollidersNamed(g1, g2) && FreshIds(g1, g2, draws)
    ensures RelabelInequivalent(g1, g2, collisionOrder, draws).Success?
    ensures var g := RelabelInequivalent(g1, g2, collisionOrder, draws).value;
      && CollisionsConsistent(g1, g)
      && (forall id :: Collides(g1, g2, id) ==>
            NewId(g2, id, draws) in g.Ids()
            && g.entities.items[NewId(g2, id, draws)] == g2.entities.items[id].(entityId := NewId(g2, id, draws)))
      && (forall x :: x in g2.Ids() && !Collides(g1, g2, x) ==>
            x in g.Ids() && g.entities.items[x] == g2.entities.items[x])
      && (forall x :: x in g.Ids() ==>
            (x in g2.Ids() && !Collides(g1, g2, x)) || exists id :: Collides(g1, g2, id) && x == NewId(g2, id, draws))
      && (forall i :: 0 <= i < |g2.relationships| ==>
            g.relationships[i] == RenameEndpoints(g2.relationships[i],
              InequivalentMapping(g1, g2, collisionOrder, draws).items))
  {
    var m := InequivalentMapping(g1, g2, collisionOrder, draws);
    var g := RelabelEntities(g2, m);
    assert RelabelInequivalent(g1, g2, collisionOrder, draws) == Success(g);
    assert FreshAndInjective(g2, m.items);
    RelabelEntitiesMovesRecords(g2, m);
    forall x | x in g.Ids() ensures (x in g2.Ids() && !Collides(g1, g2, x)) || exists id :: Collides(g1, g2, id) && x == NewId(g2, id, draws) {
      if x in m.items.Values {
        var id :| id in m.items && m.items[id] == x;
      }
    }
    forall id | id in g1.Ids() && id in g.Ids()
      ensures SignatureOf(g1.entities.items[id]) == SignatureOf(g.entities.items[id])
    {
    }
  }

  // ---------------------------------------------------------------------------
  // _relabel_equivalent_entities

  /** The first key of `order` (a dict's iteration order) whose record has signature `s`. */
  function FirstMatch(order: seq<string>, items: map<string, Entity>, s: Signature): (r: Option<string>)
    requires forall k :: k in order ==> k in items
    ensures r.None? <==> forall i :: 0 <= i < |order| ==> SignatureOf(items[order[i]]) != s
    ensures r.Some? ==> r.value in order && SignatureOf(items[r.value]) == s
    ensures r.Some? ==> exists i :: (0 <= i < |order| && order[i] == r.value
      && forall j :: 0 <= j < i ==> SignatureOf(items[order[j]]) != s)
    decreases |order|
  {
    if order == [] then None
    else if SignatureOf(items[order[0]]) == s then Some(order[0])
    else
      var r := FirstMatch(order[1..], items, s);
      assert r.Some? ==> exists i :: (0 <= i < |order| && order[i] == r.value
          && forall j :: 0 <= j < i ==> SignatureOf(items[order[j]]) != s) by {
        if r.Some? {
          var i :| 0 <= i < |order[1..]| && order[1..][i] == r.value
            && forall j :: 0 <= j < i ==> SignatureOf(items[order[1..][j]]) != s;
          assert order[i + 1] == r.value;
          forall j | 0 <= j < i + 1 ensures SignatureOf(items[order[j]]) != s {
            if j > 0 {
              assert order[j] == order[1..][j - 1];
            }
          }
        }
      }
      r
  }

  /** The `g1` ID a record is unified with: the first `g1` record with the same signature. */
  function Match(g1: Graph, e: Entity): Option<string>
    requires g1.Valid()
  {
    FirstMatch(g1.entities.keys, g1.entities.items, SignatureOf(e))
  }

  /** The `id_mapping` of `_relabel_equivalent_entities`, built in `g2`'s order. */
  function EquivalenceMapping(g1: Graph, g2: Graph): (m: Dict<string>)
    requires g1.Valid() && g2.Valid()
    ensures m.Valid()
    ensures IsSubsequence(m.keys, g2.entities.keys)
    ensures forall k :: k in m.items <==> k in g2.Ids() && Match(g1, g2.entities.items[k]).Some?
    ensures forall k :: k in m.items ==> Match(g1, g2.entities.items[k]) == Some(m.items[k])
    ensures forall k :: k in m.items ==> (m.items[k] in g1.Ids()
      && SignatureOf(g1.entities.items[m.items[k]]) == SignatureOf(g2.entities.items[k]))
  {
    var ks := Filter(g2.entities.keys, k => k in g2.entities.items && Match(g1, g2.entities.items[k]).Some?);
    assert Distinct(ks) by {
      forall x ensures multiset(ks)[x] <= 1 {
        assert multiset(g2.entities.keys)[x] <= 1;
      }
    }
    Dict(ks, map k | k in ks :: Match(g1, g2.entities.items[k]).value)
  }

  /** The `g1` IDs flagged as valence, in `g1`'s order. */
  function FlaggedOrder(g1: Graph): (ks: seq<string>)
    requires g1.Valid()
    ensures forall k :: k in ks <==> k in ValenceEntityIds(g1)
    ensures (set k | k in ks) == ValenceEntityIds(g1)
  {
    var ks := Filter(g1.entities.keys, k => k in g1.entities.items && g1.entities.items[k].hasExternalNeighbor);
    assert forall k :: k in ks <==> k in ValenceEntityIds(g1);
    ks
  }

  /** `_relabel_equivalent_entities(g1, g2)`: every `g2` record whose signature occurs in `g1`
      takes the first such `g1` ID, then every valence record of `g1` is written back under
      its own ID, overwriting whatever `g2` holds there. */
  function RelabelEquivalent(g1: Graph, g2: Graph): (r: Graph)
    requires g1.Valid() && g2.Valid()
    ensures r.Valid()
    ensures forall v :: v in ValenceEntityIds(g1) ==>
      v in r.Ids() && r.entities.items[v] == g1.entities.items[v]
    ensures |r.relationships| == |g2.relationships|
    ensures forall i :: 0 <= i < |g2.relationships| ==>
      r.relationships[i] == RenameEndpoints(g2.relationships[i], EquivalenceMapping(g1, g2).items)
  {
    var relabelled := RelabelEntities(g2, EquivalenceMapping(g1, g2));
    Graph(PutEach(relabelled.entities, FlaggedOrder(g1), g1.entities.items), relabelled.relationships)
  }

  /** Moving records to `g1` IDs of equal signature keeps every record's signature in step
      with the `g1` and `g2` records of the same ID. */
  lemma {:induction false} MovesKeepSignatures(
    d: Dict<Entity>, order: seq<string>, m: map<string, string>,
    g1: map<string, Entity>, g2: map<string, Entity>)
    requires d.Valid()
    requires forall k :: k in order ==>
      k in d.items && k in m && k in g2 && m[k] in g1 && SignatureOf(g1[m[k]]) == SignatureOf(g2[k])
    requires forall x :: x in d.items && x in g2 ==> SignatureOf(d.items[x]) == SignatureOf(g2[x])
    requires forall x :: x in d.items && x in g1 ==> SignatureOf(d.items[x]) == SignatureOf(g1[x])
    requires forall x :: x in g1 && x in g2 ==> SignatureOf(g1[x]) == SignatureOf(g2[x])
    ensures var r := ApplyMoves(d, order, m);
      && (forall x :: x in r.items && x in g2 ==> SignatureOf(r.items[x]) == SignatureOf(g2[x]))
      && (forall x :: x in r.items && x in g1 ==> SignatureOf(r.items[x]) == SignatureOf(g1[x]))
    decreases |order|
  {
    if order != [] {
      var k := order[0];
      var d' := Put(d, m[k], d.items[k].(entityId := m[k]));
      assert forall x :: x in order[1..] ==> x in order;
      MovesKeepSignatures(d', order[1..], m, g1, g2);
    }
  }

  /** What `_relabel_equivalent_entities` achieves on a `g2` whose shared IDs already agree
      with `g1` (as `_relabel_inequivalent_entities` leaves it): a record with a `g1` twin is
      re-keyed to the first twin's ID, a record without one stays as it was, and afterwards
      every shared ID still names records of equal signature. */
  lemma RelabelEquivalentSpec(g1: Graph, g2: Graph)
    requires g1.Valid() && g2.Valid()
    requires CollisionsConsistent(g1, g2)
    ensures var r := RelabelEquivalent(g1, g2); var m := EquivalenceMapping(g1, g2).items;
      && r.Ids() == ((g2.Ids() + m.Values) - MovedIds(m)) + ValenceEntityIds(g1)
      && (forall k :: k in g2.Ids() && Match(g1, g2.entities.items[k]).Some? ==>
            var j := Match(g1, g2.entities.items[k]).value;
            j in r.Ids() && SignatureOf(r.entities.items[j]) == SignatureOf(g2.entities.items[k]))
      && (forall k :: k in g2.Ids() && Match(g1, g2.entities.items[k]).None? ==>
            k in r.Ids() && r.entities.items[k] == g2.entities.items[k])
      && CollisionsConsistent(g1, r)
  {
    EquivalentIds(g1, g2);
    EquivalentSignatures(g1, g2);
    EquivalentMatched(g1, g2);
    EquivalentUnmatched(g1, g2);
  }

  lemma EquivalentIds(g1: Graph, g2: Graph)
    requires g1.Valid() && g2.Valid()
    ensures var m := EquivalenceMapping(g1, g2).items;
      RelabelEquivalent(g1, g2).Ids() == ((g2.Ids() + m.Values) - MovedIds(m)) + ValenceEntityIds(g1)
  {
    var mapping := EquivalenceMapping(g1, g2);
    var relabelled := RelabelEntities(g2, mapping);
    var flagged := FlaggedOrder(g1);
    var r := RelabelEquivalent(g1, g2);
    assert r.entities == PutEach(relabelled.entities, flagged, g1.entities.items);
    assert r.Ids() == relabelled.Ids() + (set k | k in flagged);
    assert relabelled.Ids() == (g2.Ids() + mapping.items.Values) - MovedIds(mapping.items);
    assert (set k | k in flagged) == ValenceEntityIds(g1);
    assert r.Ids() == ((g2.Ids() + mapping.items.Values) - MovedIds(mapping.items)) + ValenceEntityIds(g1);
  }

  /** Every record of the result agrees in signature with the `g1` record of its ID. */
  lemma EquivalentSignatures(g1: Graph, g2: Graph)
    requires g1.Valid() && g2.Valid()
    requires CollisionsConsistent(g1, g2)
    ensures var r := RelabelEquivalent(g1, g2);
      && (forall x :: x in r.Ids() && x in g1.Ids() ==>
            SignatureOf(r.entities.items[x]) == SignatureOf(g1.entities.items[x]))
      && (forall x :: x in r.Ids() && x in g2.Ids() && x !in ValenceEntityIds(g1) ==>
            SignatureOf(r.entities.items[x]) == SignatureOf(g2.entities.items[x]))
  {
    var mapping := EquivalenceMapping(g1, g2);
    var moved := ApplyMoves(g2.entities, mapping.keys, mapping.items);
    var r := RelabelEquivalent(g1, g2);
    var flagged := FlaggedOrder(g1);
    EquivalenceMovesKeepSignatures(g1, g2);
    EquivalentRecordSources(g1, g2);
    forall x | x in r.Ids() && x in g1.Ids()
      ensures SignatureOf(r.entities.items[x]) == SignatureOf(g1.entities.items[x])
    {
      if x !in flagged {
        assert x in moved.items && r.entities.items[x] == moved.items[x];
      }
    }
  }

  /** Each record of the result is `g1`'s valence record or the moved `g2` record of its ID. */
  lemma EquivalentRecordSources(g1: Graph, g2: Graph)
    requires g1.Valid() && g2.Valid()
    ensures var mapping := EquivalenceMapping(g1, g2);
      var moved := ApplyMoves(g2.entities, mapping.keys, mapping.items);
      var r := RelabelEquivalent(g1, g2);
      forall x :: x in r.Ids() && x !in ValenceEntityIds(g1) ==>
        x in moved.items && r.entities.items[x] == moved.items[x]
  {
    var mapping := EquivalenceMapping(g1, g2);
    var moved := ApplyMoves(g2.entities, mapping.keys, mapping.items);
    var relabelled := RelabelEntities(g2, mapping);
    var r := RelabelEquivalent(g1, g2);
    var flagged := FlaggedOrder(g1);
    assert relabelled.entities == Without(moved, MovedIds(mapping.items));
    assert r.entities == PutEach(relabelled.entities, flagged, g1.entities.items);
  }

  /** Moving `g2`'s records along the equivalence mapping keeps their signatures in step
      with the `g1` and `g2` records of the same ID. */
  lemma EquivalenceMovesKeepSignatures(g1: Graph, g2: Graph)
    requires g1.Valid() && g2.Valid()
    requires CollisionsConsistent(g1, g2)
    ensures var mapping := EquivalenceMapping(g1, g2);
      var moved := ApplyMoves(g2.entities, mapping.keys, mapping.items);
      && (forall x :: x in moved.items && x in g2.Ids() ==>
            SignatureOf(moved.items[x]) == SignatureOf(g2.entities.items[x]))
      && (forall x :: x in moved.items && x in g1.Ids() ==>
            SignatureOf(moved.items[x]) == SignatureOf(g1.entities.items[x]))
  {
    var mapping := EquivalenceMapping(g1, g2);
    MovesKeepSignatures(g2.entities, mapping.keys, mapping.items, g1.entities.items, g2.entities.items);
  }

  lemma EquivalentMatched(g1: Graph, g2: Graph)
    requires g1.Valid() && g2.Valid()
    requires CollisionsConsistent(g1, g2)
    ensures var r := RelabelEquivalent(g1, g2);
      forall k :: k in g2.Ids() && Match(g1, g2.entities.items[k]).Some? ==>
        var j := Match(g1, g2.entities.items[k]).value;
        j in r.Ids() && SignatureOf(r.entities.items[j]) == SignatureOf(g2.entities.items[k])
  {
    var mapping := EquivalenceMapping(g1, g2);
    var m := mapping.items;
    var relabelled := RelabelEntities(g2, mapping);
    var r := RelabelEquivalent(g1, g2);
    EquivalentSignatures(g1, g2);
    forall k | k in g2.Ids() && Match(g1, g2.entities.items[k]).Some?
      ensures var j := Match(g1, g2.entities.items[k]).value;
        j in r.Ids() && SignatureOf(r.entities.items[j]) == SignatureOf(g2.entities.items[k])
    {
      var j := m[k];
      assert j in m.Values;
      if j in m {
        assert Match(g1, g2.entities.items[j]) == Match(g1, g2.entities.items[k]);
      }
      assert j in relabelled.Ids();
    }
  }

  lemma EquivalentUnmatched(g1: Graph, g2: Graph)
    requires g1.Valid() && g2.Valid()
    requires CollisionsConsistent(g1, g2)
    ensures var r := RelabelEquivalent(g1, g2);
      forall k :: k in g2.Ids() && Match(g1, g2.entities.items[k]).None? ==>
        k in r.Ids() && r.entities.items[k] == g2.entities.items[k]
  {
    var m := EquivalenceMapping(g1, g2).items;
    forall k | k in g2.Ids() && Match(g1, g2.entities.items[k]).None?
      ensures k !in g1.Ids() && k !in m.Values
    {
    }
  }
}
