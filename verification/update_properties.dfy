/** End-to-end properties of `_update_graph`: what a resubmission, a signature merge and an
    ID collision do to the delta it computes. */
module UpdateProperties {
  import opened Wrappers
  import opened Seqs
  import opened Dicts
  import opened Timestamps
  import opened KnowledgeGraph
  import opened Reconcile
  import opened GraphUpdate

  /** No two records of `g` share a signature. */
  ghost predicate DistinctSignatures(g: Graph) {
    forall a, b :: a in g.Ids() && b in g.Ids() && a != b ==>
      SignatureOf(g.entities.items[a]) != SignatureOf(g.entities.items[b])
  }

  /** Every relationship of `g` runs between records of `g`. */
  ghost predicate Closed(g: Graph) {
    forall r :: r in g.relationships ==> r.source in g.Ids() && r.target in g.Ids()
  }

  /** Whether `r` touches one of `ids`. */
  predicate TouchesAny(r: Relationship, ids: set<string>) {
    r.source in ids || r.target in ids
  }

  /** When every shared ID already names records of equal signature, the collision pass
      returns its input unchanged. */
  lemma InequivalentWithoutCollisions(g1: Graph, g2: Graph, collisionOrder: seq<string>, draws: Draws)
    requires g1.Valid() && g2.Valid()
    requires Enumerates(collisionOrder, g1.Ids() * g2.Ids())
    requires CollisionsConsistent(g1, g2)
    ensures RelabelInequivalent(g1, g2, collisionOrder, draws) == Success(g2)
  {
    var m := InequivalentMapping(g1, g2, collisionOrder, draws);
    assert m.items == map[];
    assert ApplyMoves(g2.entities, m.keys, m.items) == g2.entities;
    var r := RelabelEntities(g2, m);
    assert r.entities == g2.entities;
    assert r.relationships == g2.relationships;
  }

  /** On a copy of its own records, with signatures all different and relationships among
      its own IDs, the signature pass keeps every ID and every relationship. */
  lemma EquivalentOnOwnRecords(g1: Graph, g2: Graph)
    requires g1.Valid() && g2.Valid()
    requires g2.entities == g1.entities
    requires DistinctSignatures(g1) && Closed(g2)
    ensures RelabelEquivalent(g1, g2).Ids() == g1.Ids()
    ensures RelabelEquivalent(g1, g2).relationships == g2.relationships
  {
    EquivalentOwnIds(g1, g2);
    EquivalentOwnRelationships(g1, g2);
  }

  lemma EquivalentOwnIds(g1: Graph, g2: Graph)
    requires g1.Valid() && g2.Valid()
    requires g2.entities == g1.entities
    requires DistinctSignatures(g1)
    ensures RelabelEquivalent(g1, g2).Ids() == g1.Ids()
  {
    var m := EquivalenceMapping(g1, g2).items;
    IdentityMatches(g1, g2);
    EquivalentIds(g1, g2);
    IdentityIds(g2.Ids(), m, ValenceEntityIds(g1));
  }

  /** An identity mapping moves nothing, so relabelling with it keeps the IDs. */
  lemma IdentityIds(ids: set<string>, m: map<string, string>, valence: set<string>)
    requires m.Keys == ids && forall k :: k in m ==> m[k] == k
    requires valence <= ids
    ensures ((ids + m.Values) - MovedIds(m)) + valence == ids
  {
    assert MovedIds(m) == {};
    forall v | v in ids ensures v in m.Values {
      assert m[v] == v;
    }
  }

  lemma EquivalentOwnRelationships(g1: Graph, g2: Graph)
    requires g1.Valid() && g2.Valid()
    requires g2.entities == g1.entities
    requires DistinctSignatures(g1) && Closed(g2)
    ensures RelabelEquivalent(g1, g2).relationships == g2.relationships
  {
    var m := EquivalenceMapping(g1, g2).items;
    IdentityMatches(g1, g2);
    var r := RelabelEquivalent(g1, g2);
    forall i | 0 <= i < |g2.relationships| ensures r.relationships[i] == g2.relationships[i] {
      assert g2.relationships[i] in g2.relationships;
    }
  }

  /** Resubmitting the fetched neighbourhood unchanged reconciles to the same IDs, with
      only the relationships between non-valence records left. */
  lemma ReconciledResubmission(g: Graph, collisionOrder: seq<string>, draws: Draws)
    requires g.Valid() && DistinctSignatures(g) && Closed(g)
    requires Enumerates(collisionOrder, g.Ids() * g.Ids())
    ensures Reconciled(g, g, collisionOrder, draws).Success?
    ensures var r := Reconciled(g, g, collisionOrder, draws).value;
      && r.Ids() == g.Ids()
      && r.relationships == TrimFuzzyRelationships(g, ValenceEntityIds(g)).relationships
  {
    var trimmed := TrimFuzzyRelationships(g, ValenceEntityIds(g));
    assert CollisionsConsistent(g, trimmed);
    InequivalentWithoutCollisions(g, trimmed, collisionOrder, draws);
    EquivalentOnOwnRecords(g, trimmed);
  }

  /** Resubmitting the fetched neighbourhood unchanged (every record with its own signature,
      every relationship between fetched records) removes and adds no record and adds no
      relationship, but removes every relationship touching a valence record: the edge
      trimming drops them from the proposal, and the difference then reads them as deleted. */
  lemma ResubmissionRemovesValenceEdges(g: Graph, userId: string, graphId: string,
                                        collisionOrder: seq<string>, draws: Draws,
                                        clock: nat -> UtcDateTime, current: Graph)
    requires g.Valid() && current.Valid() && DistinctSignatures(g) && Closed(g)
    requires Enumerates(collisionOrder, g.Ids() * g.Ids())
    ensures var out := UpdateGraph(g, g, userId, graphId, collisionOrder, draws, clock, current);
      && out.Spliced?
      && out.remove.Ids() == {} && out.add.Ids() == {}
      && out.add.relationships == []
      && IsSubsequence(out.remove.relationships, g.relationships)
      && forall rel :: multiset(out.remove.relationships)[rel] ==
                         (if TouchesAny(rel, ValenceEntityIds(g)) then multiset(g.relationships)[rel] else 0)
  {
    var valence := ValenceEntityIds(g);
    assert MissingEntityIds(g, valence) == {};
    ReconciledResubmission(g, collisionOrder, draws);
    var r := Reconciled(g, g, collisionOrder, draws).value;
    SplicedDelta(g, g, userId, graphId, collisionOrder, draws, clock, current);
    ResubmissionDelta(g, r);
  }

  /** Once the valence check passes and reconciliation succeeds, the delta says what
      changed between the old subgraph and the reconciled one: the removed half holds the old
      records whose IDs are gone and the old relationships no longer proposed; the added half
      holds the reconciled records under new IDs, stamped with the actor, and the proposed
      relationships that are new. */
  lemma SplicedOutcome(oldSub: Graph, newSub: Graph, userId: string, graphId: string,
                       collisionOrder: seq<string>, draws: Draws,
                       clock: nat -> UtcDateTime, current: Graph)
    requires oldSub.Valid() && newSub.Valid() && current.Valid()
    requires Enumerates(collisionOrder, oldSub.Ids() * newSub.Ids())
    requires MissingEntityIds(newSub, ValenceEntityIds(oldSub)) == {}
    ensures Reconciled(oldSub, newSub, collisionOrder, draws).Success? ==>
      var r := Reconciled(oldSub, newSub, collisionOrder, draws).value;
      var out := UpdateGraph(oldSub, newSub, userId, graphId, collisionOrder, draws, clock, current);
      && out.Spliced?
      && out.remove.Ids() == oldSub.Ids() - r.Ids()
      && (forall k :: k in out.remove.Ids() ==> out.remove.entities.items[k] == oldSub.entities.items[k])
      && (forall rel :: multiset(out.remove.relationships)[rel] ==
            if rel in r.relationships then 0 else multiset(oldSub.relationships)[rel])
      && out.add.Ids() == r.Ids() - oldSub.Ids()
      && (forall k :: k in out.add.Ids() ==>
            && SignatureOf(out.add.entities.items[k]) == SignatureOf(r.entities.items[k])
            && out.add.entities.items[k].updatedBy == Some(userId))
      && (forall rel :: multiset(out.add.relationships)[rel] ==
            if rel in oldSub.relationships then 0 else multiset(r.relationships)[rel])
  {
    SplicedDelta(oldSub, newSub, userId, graphId, collisionOrder, draws, clock, current);
    if Reconciled(oldSub, newSub, collisionOrder, draws).Success? {
      var r := Reconciled(oldSub, newSub, collisionOrder, draws).value;
      StampedRecords(CalcGraphDifference(r, oldSub), userId, clock);
    }
  }

  /** Unfolds the spliced branch of the pipeline into its two differences. */
  lemma SplicedDelta(oldSub: Graph, newSub: Graph, userId: string, graphId: string,
                     collisionOrder: seq<string>, draws: Draws,
                     clock: nat -> UtcDateTime, current: Graph)
    requires oldSub.Valid() && newSub.Valid() && current.Valid()
    requires Enumerates(collisionOrder, oldSub.Ids() * newSub.Ids())
    requires MissingEntityIds(newSub, ValenceEntityIds(oldSub)) == {}
    ensures Reconciled(oldSub, newSub, collisionOrder, draws).Success? ==>
      var r := Reconciled(oldSub, newSub, collisionOrder, draws).value;
      var out := UpdateGraph(oldSub, newSub, userId, graphId, collisionOrder, draws, clock, current);
      && out.Spliced?
      && out.remove == CalcGraphDifference(oldSub, r)
      && out.add == UpdateGraphMetadata(CalcGraphDifference(r, oldSub), userId, clock)
  {
  }

  /** The two differences between a graph and its trimmed copy with the same IDs. */
  lemma ResubmissionDelta(g: Graph, r: Graph)
    requires g.Valid() && r.Valid() && Closed(g)
    requires r.Ids() == g.Ids()
    requires r.relationships == TrimFuzzyRelationships(g, ValenceEntityIds(g)).relationships
    ensures CalcGraphDifference(g, r).Ids() == {}
    ensures CalcGraphDifference(r, g).Ids() == {}
    ensures CalcGraphDifference(r, g).relationships == []
    ensures forall rel :: multiset(CalcGraphDifference(g, r).relationships)[rel] ==
                           (if TouchesAny(rel, ValenceEntityIds(g)) then multiset(g.relationships)[rel] else 0)
  {
    var valence := ValenceEntityIds(g);
    var trimmed := TrimFuzzyRelationships(g, valence);
    var remove := CalcGraphDifference(g, r);
    var diff := CalcGraphDifference(r, g);
    forall rel ensures multiset(remove.relationships)[rel] ==
                         (if TouchesAny(rel, valence) then multiset(g.relationships)[rel] else 0)
    {
      if rel in g.relationships {
        assert rel in trimmed.relationships <==> !TouchesAny(rel, valence);
      }
    }
    forall rel ensures multiset(diff.relationships)[rel] == 0 {
      if rel in trimmed.relationships {
        SubsequenceMultiset(trimmed.relationships, g.relationships);
      }
    }
    EmptyMultiset(diff.relationships);
  }

  /** The collision pass on the trimmed proposal: trimming leaves the records alone, so the
      collisions, and the IDs generated for them, are those of the proposal itself. */
  lemma TrimmedCollisionPass(oldSub: Graph, newSub: Graph, collisionOrder: seq<string>, draws: Draws)
    requires oldSub.Valid() && newSub.Valid()
    requires Enumerates(collisionOrder, oldSub.Ids() * newSub.Ids())
    requires CollidersNamed(oldSub, newSub) && FreshIds(oldSub, newSub, draws)
    ensures var trimmed := TrimFuzzyRelationships(newSub, ValenceEntityIds(oldSub));
      && RelabelInequivalent(oldSub, trimmed, collisionOrder, draws).Success?
      && var g2 := RelabelInequivalent(oldSub, trimmed, collisionOrder, draws).value;
      && CollisionsConsistent(oldSub, g2)
      && (forall id :: Collides(oldSub, newSub, id) ==>
            NewId(newSub, id, draws) in g2.Ids()
            && g2.entities.items[NewId(newSub, id, draws)] == newSub.entities.items[id].(entityId := NewId(newSub, id, draws)))
      && (forall x :: x in newSub.Ids() && !Collides(oldSub, newSub, x) ==>
            x in g2.Ids() && g2.entities.items[x] == newSub.entities.items[x])
      && Reconciled(oldSub, newSub, collisionOrder, draws) == Success(RelabelEquivalent(oldSub, g2))
  {
    var trimmed := TrimFuzzyRelationships(newSub, ValenceEntityIds(oldSub));
    assert trimmed.Ids() == newSub.Ids();
    assert forall id :: Collides(oldSub, trimmed, id) == Collides(oldSub, newSub, id);
    assert CollidersNamed(oldSub, trimmed);
    assert forall id :: Collides(oldSub, newSub, id) ==> NewId(trimmed, id, draws) == NewId(newSub, id, draws);
    assert FreshIds(oldSub, trimmed, draws);
    RelabelInequivalentSpec(oldSub, trimmed, collisionOrder, draws);
  }

  /** Signature merge: a proposed record under a new ID whose signature some old record
      already has is folded into the first such record. Its ID is not added, and the old
      record is not removed. */
  lemma EquivalentRecordKeepsOldId(oldSub: Graph, newSub: Graph, userId: string, graphId: string,
                                   collisionOrder: seq<string>, draws: Draws,
                                   clock: nat -> UtcDateTime, current: Graph, k: string)
    requires oldSub.Valid() && newSub.Valid() && current.Valid()
    requires Enumerates(collisionOrder, oldSub.Ids() * newSub.Ids())
    requires MissingEntityIds(newSub, ValenceEntityIds(oldSub)) == {}
    requires CollidersNamed(oldSub, newSub) && FreshIds(oldSub, newSub, draws)
    requires k in newSub.Ids() && k !in oldSub.Ids()
    requires Match(oldSub, newSub.entities.items[k]).Some?
    ensures var out := UpdateGraph(oldSub, newSub, userId, graphId, collisionOrder, draws, clock, current);
      && out.Spliced?
      && k !in out.add.Ids()
      && Match(oldSub, newSub.entities.items[k]).value !in out.remove.Ids()
  {
    TrimmedCollisionPass(oldSub, newSub, collisionOrder, draws);
    var trimmed := TrimFuzzyRelationships(newSub, ValenceEntityIds(oldSub));
    var g2 := RelabelInequivalent(oldSub, trimmed, collisionOrder, draws).value;
    var r := RelabelEquivalent(oldSub, g2);
    var m := EquivalenceMapping(oldSub, g2).items;
    assert g2.entities.items[k] == newSub.entities.items[k];
    assert k in m && m[k] != k;
    assert k in MovedIds(m);
    RelabelEquivalentSpec(oldSub, g2);
    assert k !in r.Ids();
    SplicedDelta(oldSub, newSub, userId, graphId, collisionOrder, draws, clock, current);
  }

  /** ID collision: a proposed record reusing an old ID for a record with another signature,
      and matching no old signature, is added under its freshly generated ID, keeping its
      names and properties and stamped with the acting user. */
  lemma CollidingRecordGetsFreshId(oldSub: Graph, newSub: Graph, userId: string, graphId: string,
                                   collisionOrder: seq<string>, draws: Draws,
                                   clock: nat -> UtcDateTime, current: Graph, k: string)
    requires oldSub.Valid() && newSub.Valid() && current.Valid()
    requires Enumerates(collisionOrder, oldSub.Ids() * newSub.Ids())
    requires MissingEntityIds(newSub, ValenceEntityIds(oldSub)) == {}
    requires CollidersNamed(oldSub, newSub) && FreshIds(oldSub, newSub, draws)
    requires Collides(oldSub, newSub, k)
    requires Match(oldSub, newSub.entities.items[k]).None?
    ensures var out := UpdateGraph(oldSub, newSub, userId, graphId, collisionOrder, draws, clock, current);
      var id := NewId(newSub, k, draws);
      && out.Spliced?
      && id != k
      && id in out.add.Ids()
      && SignatureOf(out.add.entities.items[id]) == SignatureOf(newSub.entities.items[k])
      && out.add.entities.items[id].updatedBy == Some(userId)
  {
    TrimmedCollisionPass(oldSub, newSub, collisionOrder, draws);
    var trimmed := TrimFuzzyRelationships(newSub, ValenceEntityIds(oldSub));
    var g2 := RelabelInequivalent(oldSub, trimmed, collisionOrder, draws).value;
    var r := RelabelEquivalent(oldSub, g2);
    var id := NewId(newSub, k, draws);
    assert SignatureOf(g2.entities.items[id]) == SignatureOf(newSub.entities.items[k]);
    assert Match(oldSub, g2.entities.items[id]).None?;
    EquivalentUnmatched(oldSub, g2);
    assert id in r.Ids() && r.entities.items[id] == g2.entities.items[id];
    var diff := CalcGraphDifference(r, oldSub);
    assert id in diff.Ids();
    StampedRecords(diff, userId, clock);
    SplicedDelta(oldSub, newSub, userId, graphId, collisionOrder, draws, clock, current);
  }

  /** Valence preservation at the store: when the splice goes through, every valence record
      of the old subgraph that the stored graph held is still there, unchanged. */
  lemma ValenceSurvivesSplice(oldSub: Graph, newSub: Graph, userId: string, graphId: string,
                              collisionOrder: seq<string>, draws: Draws,
                              clock: nat -> UtcDateTime, current: Graph, v: string)
    requires oldSub.Valid() && newSub.Valid() && current.Valid()
    requires Enumerates(collisionOrder, oldSub.Ids() * newSub.Ids())
    requires v in ValenceEntityIds(oldSub) && v in current.Ids()
    ensures var out := UpdateGraph(oldSub, newSub, userId, graphId, collisionOrder, draws, clock, current);
      out.Calls() != [] ==>
        var stored := out.Calls()[1].graph;
        v in stored.Ids() && stored.entities.items[v] == current.entities.items[v]
  {
  }

  /** Relationship removal in the snapshot matches (source, target) pairs only: removing one
      of two parallel relationships drops both, although the delta names only one. */
  lemma PairRemovalDropsParallelEdge(current: Graph)
    requires current.Valid()
    requires current.relationships == [Relationship("a", "b", "owns"), Relationship("a", "b", "sued")]
    ensures var remove := Graph(Empty(), [Relationship("a", "b", "sued")]);
      ExciseAndInsert(current, remove, Graph(Empty(), [])).relationships == []
  {
    var remove := Graph(Empty(), [Relationship("a", "b", "sued")]);
    var merged := ExciseAndInsert(current, remove, Graph(Empty(), []));
    var sued := remove.relationships[0];
    assert sued in remove.relationships;
    forall x ensures multiset(merged.relationships)[x] == 0 {
      if x in current.relationships {
        assert sued.source == x.source && sued.target == x.target;
      }
    }
    EmptyMultiset(merged.relationships);
  }

  /** Each record of a copy with distinct signatures is matched to its own ID. */
  lemma IdentityMatches(g1: Graph, g2: Graph)
    requires g1.Valid() && g2.Valid()
    requires g2.entities == g1.entities
    requires DistinctSignatures(g1)
    ensures var m := EquivalenceMapping(g1, g2).items;
      m.Keys == g2.Ids() && forall k :: k in m ==> m[k] == k
  {
    var m := EquivalenceMapping(g1, g2).items;
    EveryIdMappedToItself(g1, g2);
    assert m.Keys <= g2.Ids();
  }

  lemma EveryIdMappedToItself(g1: Graph, g2: Graph)
    requires g1.Valid() && g2.Valid()
    requires g2.entities == g1.entities
    requires DistinctSignatures(g1)
    ensures var m := EquivalenceMapping(g1, g2).items;
      forall k :: k in g2.Ids() ==> k in m && m[k] == k
  {
    forall k | k in g2.Ids() ensures k in EquivalenceMapping(g1, g2).items && EquivalenceMapping(g1, g2).items[k] == k {
      MappedToItself(g1, g2, k);
    }
  }

  lemma MappedToItself(g1: Graph, g2: Graph, k: string)
    requires g1.Valid() && g2.Valid()
    requires g2.entities == g1.entities
    requires DistinctSignatures(g1)
    requires k in g2.Ids()
    ensures var m := EquivalenceMapping(g1, g2).items;
      k in m && m[k] == k
  {
    MatchOwnRecord(g1, k);
    assert g2.entities.items[k] == g1.entities.items[k];
  }

  /** With distinct signatures, a record of `g` matches only itself. */
  lemma MatchOwnRecord(g: Graph, k: string)
    requires g.Valid() && DistinctSignatures(g)
    requires k in g.Ids()
    ensures Match(g, g.entities.items[k]) == Some(k)
  {
    var r := Match(g, g.entities.items[k]);
    assert k in g.entities.keys;
    var i :| 0 <= i < |g.entities.keys| && g.entities.keys[i] == k;
    assert r.Some?;
  }

  /** A sequence in which nothing occurs is empty. */
  lemma EmptyMultiset<T>(s: seq<T>)
    requires forall x :: multiset(s)[x] == 0
    ensures s == []
  {
    assert multiset(s) == multiset{};
    assert |s| == |multiset(s)| == 0;
  }
}
