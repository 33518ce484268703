# Knowledge-graph splice pipeline — a Dafny model

This project models the part of the knowledge-curation service that takes an edited
neighbourhood of the knowledge graph and splices it back into the stored graph. It also
models the helpers that build fresh entity IDs and the neighbourhood extraction that
produces the subgraph in the first place.

A graph is a set of entity records keyed by ID, plus a list of directed, labelled
relationships. A record carries its names (the first is the primary name), a property
map, provenance fields, and the transient `has_external_neighbor` ("valence") flag.
Two records are considered the same thing when their *signatures* agree: the names and
the properties.

`_update_graph` runs the following steps in order:

1. **Valence check.** It rejects the proposal if a valence record of the old
   neighbourhood is mentioned nowhere in it.
2. **Trim.** It drops the proposal's edges that do not run between two of its records
   (valence records count as absent).
3. **Collision pass.** A proposed record that reuses an old ID for a different signature
   gets a fresh ID: up to four lower-cased alphanumerics of its primary name, a dot,
   and four random characters.
4. **Signature pass.** A proposed record whose signature already exists in the old
   neighbourhood is re-keyed to the first such old ID. The old valence records are
   then written back.
5. **Delta.** It computes the delta in both directions (by record ID and by
   relationship value).
6. **Stamp.** It stamps the added records with the acting user and the time.
7. **Merge.** It merges the delta into the stored graph. Relationships are removed by
   (source, target) pair. The result is stored only if no relationship is left with a
   dangling endpoint.

Modules, one per concern:

- `Wrappers` holds `Option`, `Result` and the Python exceptions the code can raise.
- `Seqs` holds sequence facts (`Filter`, subsequences, distinctness).
- `Dicts` holds Python dicts as insertion-ordered maps.
- `TextUtils` holds `remove_nonalphanumeric`, `generate_random_string`, ASCII
  lower-casing and substring search.
- `Timestamps` holds `isoformat(timespec='seconds')` for UTC times.
- `KnowledgeGraph` holds the data model.
- `Reconcile` holds signatures, ID generation and the three relabelling functions.
- `GraphUpdate` holds the pipeline itself.
- `UpdateProperties` holds end-to-end properties of `_update_graph`.
- `Neighborhood` holds `get_relevant_entities` and `get_knowledge_subgraph`.

Effects become parameters:

- **Randomness.** `draws(id)(i)` is the index of the i-th `secrets.choice` made for the
  record `id`.
- **Collision-set order.** Python iterates the collision set in its own order; that
  order is the `collisionOrder` parameter, which must enumerate the shared IDs.
- **Clock.** `clock(i)` is the `datetime.now(UTC)` reading for the i-th stamped record.
- **Store.** The fetched graph is the `current` parameter. `SpliceSubgraph` returns the
  sequence of store calls it makes, in order.

## Model

| member | source | states |
|---|---|---|
| TextUtils.RemoveNonalphanumeric | app/knowledge_curation_agent/subagents/update_knowledge_agent/utils.py:6-10 | the result holds only ASCII letters and digits, is a subsequence of the input, and keeps every letter and digit with its multiplicity |
| TextUtils.RemoveNonalphanumericIdempotent | app/knowledge_curation_agent/subagents/update_knowledge_agent/utils.py:10 | applying the filter twice equals applying it once |
| TextUtils.RemoveNonalphanumericKeepsAlnum | app/knowledge_curation_agent/subagents/update_knowledge_agent/utils.py:10 | a string made only of letters and digits is returned unchanged |
| TextUtils.GenerateRandomString | app/knowledge_curation_agent/subagents/update_knowledge_agent/utils.py:12-33 | it fails with ValueError exactly when `length <= 0`; otherwise the string has `length` characters, all lowercase letters or digits, never uppercase; `length` defaults to 10 |
| TextUtils.EveryStringIsDrawable | app/knowledge_curation_agent/subagents/update_knowledge_agent/utils.py:28-31 | every non-empty string over the alphabet is the result of some sequence of picks |
| Timestamps.IsoFormatSeconds | app/knowledge_curation_agent/subagents/update_knowledge_agent/update_graph.py:156 | the stamp is 25 characters `YYYY-MM-DDTHH:MM:SS+00:00`, and each digit field reads back as the matching field of the time |
| Timestamps.IsoFormatSecondsPrecision | app/knowledge_curation_agent/subagents/update_knowledge_agent/update_graph.py:156 | two readings give the same stamp iff they agree on everything but the microseconds |
| KnowledgeGraph.ValenceEntityIds | app/knowledge_curation_agent/subagents/update_knowledge_agent/update_graph.py:115-129 | an ID is a valence ID iff it is a record of the graph whose flag is set |
| KnowledgeGraph.Endpoints | app/knowledge_curation_agent/subagents/update_knowledge_agent/update_graph.py:135-137 | an ID is an endpoint iff some relationship starts or ends at it |
| Reconcile.IdPrefix | app/knowledge_curation_agent/subagents/update_knowledge_agent/update_graph.py:162 | the prefix has min(4, number of alphanumerics) characters, the lower-cased first alphanumerics of the name, and holds only lowercase letters and digits |
| Reconcile.GenerateEntityId | app/knowledge_curation_agent/subagents/update_knowledge_agent/update_graph.py:161-162 | the ID is the prefix, then a dot that is its first dot, then four alphabet characters |
| Reconcile.SameSignature | app/knowledge_curation_agent/subagents/update_knowledge_agent/update_graph.py:165-169 | two records have equal signatures if and only if their names and their properties are equal |
| Reconcile.SignatureIgnoresMetadata | app/knowledge_curation_agent/subagents/update_knowledge_agent/update_graph.py:165-169 | changing a record's ID, `updated_at`, `updated_by` or external-neighbour flag leaves its signature unchanged |
| Reconcile.ApplyMoves | app/knowledge_curation_agent/subagents/update_knowledge_agent/update_graph.py:183-185 | after the copy loop the keys are the old keys plus the mapping's image, and keys outside the image keep their records |
| Reconcile.ApplyMovesFresh | app/knowledge_curation_agent/subagents/update_knowledge_agent/update_graph.py:183-185 | for an injective mapping onto unused IDs, each target key holds the source record with `entity_id` set to the target |
| Reconcile.RelabelEntities | app/knowledge_curation_agent/subagents/update_knowledge_agent/update_graph.py:173-200 | result keys = (keys ∪ image) − moved keys; untouched records stay; the relationship count is kept; each endpoint x becomes `m.get(x, x)` |
| Reconcile.RenameAll | app/knowledge_curation_agent/subagents/update_knowledge_agent/update_graph.py:194-198 | the i-th relationship has both endpoints renamed by the mapping, and the count is unchanged |
| Reconcile.RelabelEntitiesMovesRecords | app/knowledge_curation_agent/subagents/update_knowledge_agent/update_graph.py:173-200 | for an injective mapping onto fresh IDs, keys = (keys − moved) ∪ image, each moved record sits under its new ID carrying that ID, and the rest are unchanged |
| Reconcile.RelabelKeys | app/knowledge_curation_agent/subagents/update_knowledge_agent/update_graph.py:182-191 | the key-set part of the property above |
| Reconcile.RelabelMovedRecords | app/knowledge_curation_agent/subagents/update_knowledge_agent/update_graph.py:182-191 | the moved-record part of the property above |
| Reconcile.RelabelUnmovedRecords | app/knowledge_curation_agent/subagents/update_knowledge_agent/update_graph.py:182-191 | the unmoved-record part of the property above |
| Reconcile.InequivalentMapping | app/knowledge_curation_agent/subagents/update_knowledge_agent/update_graph.py:217-227 | the mapping's keys are exactly the shared IDs with different signatures, each sent to the ID generated from its primary name |
| Reconcile.RelabelInequivalent | app/knowledge_curation_agent/subagents/update_knowledge_agent/update_graph.py:204-230 | IndexError iff a colliding record has no names; otherwise a valid graph with the same number of relationships |
| Reconcile.RelabelInequivalentSpec | app/knowledge_curation_agent/subagents/update_knowledge_agent/update_graph.py:204-230 | with fresh generated IDs: afterwards every shared ID has equal signatures; each colliding record lives under its new ID; other records are unchanged; no other key appears; relationships follow the mapping |
| Reconcile.FirstMatch | app/knowledge_curation_agent/subagents/update_knowledge_agent/update_graph.py:253-256 | None iff no key in order has the signature; otherwise the first key in order that has it |
| Reconcile.EquivalenceMapping | app/knowledge_curation_agent/subagents/update_knowledge_agent/update_graph.py:244-256 | keys are exactly the g2 records with a g1 signature twin, in g2 order; each maps to its first twin, which has that signature |
| Reconcile.FlaggedOrder | app/knowledge_curation_agent/subagents/update_knowledge_agent/update_graph.py:261-262 | the listed keys are exactly the valence IDs of g1 |
| Reconcile.RelabelEquivalent | app/knowledge_curation_agent/subagents/update_knowledge_agent/update_graph.py:233-265 | every g1 valence record is present under its ID, equal to the g1 record; relationships are renamed by the mapping, none lost |
| Reconcile.MovesKeepSignatures | app/knowledge_curation_agent/subagents/update_knowledge_agent/update_graph.py:251-258 | moving records to twins of equal signature keeps every key's signature in step with g1 and g2 |
| Reconcile.RelabelEquivalentSpec | app/knowledge_curation_agent/subagents/update_knowledge_agent/update_graph.py:244-265 | the result's keys are ((g2 keys ∪ targets) − moved) ∪ valence; a record with a twin lands on the first twin's ID; a record without one stays; shared IDs keep equal signatures |
| Reconcile.EquivalentIds | app/knowledge_curation_agent/subagents/update_knowledge_agent/update_graph.py:244-265 | the result's keys are ((g2 keys ∪ targets) − moved) ∪ g1's valence IDs |
| Reconcile.EquivalentSignatures | app/knowledge_curation_agent/subagents/update_knowledge_agent/update_graph.py:251-265 | each result record agrees in signature with the g1 record, and with the g2 record, of its ID |
| Reconcile.EquivalentRecordSources | app/knowledge_curation_agent/subagents/update_knowledge_agent/update_graph.py:258-265 | a result record whose ID is not a g1 valence ID is the moved g2 record of that ID |
| Reconcile.EquivalenceMovesKeepSignatures | app/knowledge_curation_agent/subagents/update_knowledge_agent/update_graph.py:251-258 | moving g2's records to their twins' IDs keeps each record's signature equal to the g1 and g2 records of its ID |
| Reconcile.EquivalentMatched | app/knowledge_curation_agent/subagents/update_knowledge_agent/update_graph.py:251-258 | a g2 record with a twin appears under the first twin's ID with its own signature |
| Reconcile.EquivalentUnmatched | app/knowledge_curation_agent/subagents/update_knowledge_agent/update_graph.py:251-258 | a g2 record with no twin keeps its ID and record |
| GraphUpdate.MissingEntityIds | app/knowledge_curation_agent/subagents/update_knowledge_agent/update_graph.py:131-139 | an ID is missing iff it is required, has no record, and no relationship touches it |
| GraphUpdate.TrimFuzzyRelationships | app/knowledge_curation_agent/subagents/update_knowledge_agent/update_graph.py:97-112 | records are unchanged; the relationships are a subsequence; every kept edge has both endpoints in keys − ignore; exactly those edges are kept, with their multiplicities |
| GraphUpdate.CalcGraphDifference | app/knowledge_curation_agent/subagents/update_knowledge_agent/update_graph.py:268-291 | the keys are g1's keys not in g2, in g1 order, with g1's records; the relationships are g1's, in order, minus every one value-equal to one of g2's |
| GraphUpdate.DifferenceWithItselfIsEmpty | app/knowledge_curation_agent/subagents/update_knowledge_agent/update_graph.py:268-291 | diff(g, g) has no records and no relationships |
| GraphUpdate.StampEach | app/knowledge_curation_agent/subagents/update_knowledge_agent/update_graph.py:154-156 | the i-th listed record gets the acting user and the i-th stamp; other records are untouched |
| GraphUpdate.UpdateGraphMetadata | app/knowledge_curation_agent/subagents/update_knowledge_agent/update_graph.py:142-158 | keys, their order, relationships, IDs, names, properties and flags are unchanged; the i-th record gets `updated_by = user` and the i-th clock reading to the second |
| GraphUpdate.StampedRecords | app/knowledge_curation_agent/subagents/update_knowledge_agent/update_graph.py:154-156 | every stamped record carries the user and a time, and keeps its signature |
| GraphUpdate.InvalidRelationshipEntityIds | app/knowledge_curation_agent/subagents/update_knowledge_agent/update_graph.py:344-352 | an ID is invalid iff some relationship touches it and it has no record |
| GraphUpdate.IntegrityGate | app/knowledge_curation_agent/subagents/update_knowledge_agent/update_graph.py:328-341 | the invalid set is empty iff every relationship runs between records |
| GraphUpdate.ExciseAndInsert | app/knowledge_curation_agent/subagents/update_knowledge_agent/update_graph.py:304-326 | keys = (stored − removed) ∪ added; added records win; other stored records stay; the stored edges that share no (source, target) pair with a removed edge come first, in stored order and with their counts, then the added edges |
| GraphUpdate.ExciseAndInsertKeys | app/knowledge_curation_agent/subagents/update_knowledge_agent/update_graph.py:307-324 | the merged record keys are the stored keys that are not removed, in stored order, followed by the keys of `add` not among them, in `add`'s order |
| GraphUpdate.SpliceSubgraph | app/knowledge_curation_agent/subagents/update_knowledge_agent/update_graph.py:294-341 | no store call iff the merged graph has a dangling endpoint; otherwise the delta, then the merged graph under the graph ID; a stored graph never has a dangling endpoint |
| GraphUpdate.Reconciled | app/knowledge_curation_agent/subagents/update_knowledge_agent/update_graph.py:67-77 | after trimming and both passes the proposal, when it does not raise, is valid and holds every old valence ID |
| GraphUpdate.UpdateGraph | app/knowledge_curation_agent/subagents/update_knowledge_agent/update_graph.py:45-94 | rejected iff a valence ID is missing, and then nothing is stored; the only error is IndexError; removed IDs are old; added IDs are new; no valence ID is removed or added; added records carry the user |
| UpdateProperties.InequivalentWithoutCollisions | app/knowledge_curation_agent/subagents/update_knowledge_agent/update_graph.py:217-230 | when shared IDs already agree in signature, the collision pass returns its input unchanged |
| UpdateProperties.EquivalentOnOwnRecords | app/knowledge_curation_agent/subagents/update_knowledge_agent/update_graph.py:244-265 | on a copy of g1's records with distinct signatures, the signature pass keeps the IDs and the relationships |
| UpdateProperties.EquivalentOwnIds | app/knowledge_curation_agent/subagents/update_knowledge_agent/update_graph.py:244-265 | the key-set part of the property above |
| UpdateProperties.EquivalentOwnRelationships | app/knowledge_curation_agent/subagents/update_knowledge_agent/update_graph.py:258 | the relationship part of the property above |
| UpdateProperties.IdentityMatches | app/knowledge_curation_agent/subagents/update_knowledge_agent/update_graph.py:251-256 | on such a copy each record is matched to its own ID |
| UpdateProperties.MatchOwnRecord | app/knowledge_curation_agent/subagents/update_knowledge_agent/update_graph.py:251-256 | with distinct signatures, the first record matching a record's signature is that record |
| UpdateProperties.ReconciledResubmission | app/knowledge_curation_agent/subagents/update_knowledge_agent/update_graph.py:67-77 | resubmitting the old neighbourhood reconciles to the same IDs with only the trimmed relationships |
| UpdateProperties.SplicedOutcome | app/knowledge_curation_agent/subagents/update_knowledge_agent/update_graph.py:79-94 | past the valence check and without an error: the removed half holds the old records whose IDs the reconciled graph lacks, unchanged, and the old relationships it no longer proposes, with their counts; the added half holds the reconciled records under IDs new to the old subgraph, each with its reconciled signature and the acting user, and the proposed relationships the old subgraph lacks, with their counts |
| UpdateProperties.ResubmissionDelta | app/knowledge_curation_agent/subagents/update_knowledge_agent/update_graph.py:269-291 | the difference between a graph and its trimmed copy removes exactly the valence-touching edges and adds nothing |
| UpdateProperties.ResubmissionRemovesValenceEdges | app/knowledge_curation_agent/subagents/update_knowledge_agent/update_graph.py:46-94 | an unchanged resubmission removes and adds no record and adds no edge, but removes every edge touching a valence record |
| UpdateProperties.TrimmedCollisionPass | app/knowledge_curation_agent/subagents/update_knowledge_agent/update_graph.py:67-73 | trimming leaves collisions and generated IDs as in the proposal, so the collision-pass facts carry over |
| UpdateProperties.EquivalentRecordKeepsOldId | app/knowledge_curation_agent/subagents/update_knowledge_agent/update_graph.py:46-94 | a proposed record under a new ID with an old signature twin is not added, and its twin is not removed |
| UpdateProperties.CollidingRecordGetsFreshId | app/knowledge_curation_agent/subagents/update_knowledge_agent/update_graph.py:46-94 | a colliding record with no old twin is added under its generated ID, with its signature, stamped with the user |
| UpdateProperties.ValenceSurvivesSplice | app/knowledge_curation_agent/subagents/update_knowledge_agent/update_graph.py:51-94 | when the splice stores, every old valence record held in the store is still stored unchanged |
| UpdateProperties.PairRemovalDropsParallelEdge | app/knowledge_curation_agent/subagents/update_knowledge_agent/update_graph.py:312-320 | removing one of two parallel edges a→b drops both from the stored snapshot |
| Neighborhood.GetRelevantEntities | app/utils.py:14-25 | the result is a subset of the keys, and an ID is in it iff one of its names, lower-cased, occurs in the lower-cased query |
| Neighborhood.NamedInIgnoresQueryCase | app/utils.py:21 | matching is unchanged by lower-casing the query |
| Neighborhood.NamedInIgnoresNameCase | app/utils.py:21 | matching is unchanged by lower-casing the names |
| Neighborhood.NeighborsOf | app/utils.py:46-58 | y is a neighbour of the set iff some relationship links y with one of its nodes in either direction |
| Neighborhood.ComputeRings | app/utils.py:45-63 | ring 1 = undirected neighbours of the seeds outside the seeds; ring 2 = neighbours of ring 1 in neither (empty when `num_hops <= 1`); the three sets are pairwise disjoint |
| Neighborhood.ValenceIds | app/utils.py:65-69 | flagged iff on the outer ring with a neighbour outside the members; seeds, and ring 1 when two hops were taken, are never flagged |
| Neighborhood.OutsideNeighbor | app/utils.py:66-69 | a node has a neighbour outside the members iff some relationship links it to a node outside them |
| Neighborhood.RingsAreHopBalls | app/utils.py:45-71 | the members are the nodes within 1 hop (2 when `num_hops > 1`) of the seeds, and the outer ring is the last hop's frontier |
| Neighborhood.Reformat | app/utils.py:75-79 | records are keyed by their `entity_id`; each carries the flag iff its ID is a valence ID |
| Neighborhood.ReformatSources | app/utils.py:75-79 | each reformatted record is the flagged record of some member |
| Neighborhood.ReformatKeys | app/utils.py:75-79 | the keys are exactly the distinct `entity_id` attributes of the members' records |
| Neighborhood.ReformatKeyed | app/utils.py:75-79 | when each record's `entity_id` is its key, every member's record sits under its own key, flagged iff it is a valence ID |
| Neighborhood.GetKnowledgeSubgraph | app/utils.py:39-89 | NetworkXError iff a seed is no node; KeyError iff a member has no record; otherwise the relationships are exactly those between two members, in order and with multiplicity; `num_hops` defaults to 2 |
| Neighborhood.KnowledgeSubgraphSpec | app/utils.py:65-89 | on a graph keyed by ID: the keys are exactly the members; each record is the stored one, flagged iff it is a valence ID; the flagged IDs are those valence IDs; no relationship leaves the subgraph |
| Neighborhood.SubgraphRecords | app/utils.py:71-79 | on a graph keyed by ID: the keys are exactly the members, and each record is the stored one with the valence flag set |

## Left out

- Storage, the LLM and the web layer are out. That covers the Spanner, Cloud Storage and
  embedding services, the agents, the FastAPI routes, and the JSON parsing of the LLM
  reply (update_graph.py:14-42). `fetch_knowledge_graph` becomes a parameter, and the
  store calls become the returned call log.
- There is no concurrency. The read-modify-write in `_splice_subgraph` takes no lock.
- Python equality across number types (`1 == 1.0 == True`) and floating-point property
  values are not modelled. JSON values are a datatype compared structurally.
- A record without a `properties` key is not modelled. In Python its signature differs
  from one with empty properties; here every record has a property map.
- A record without the `has_external_neighbor` key is not modelled. `_get_valence_entities`
  would raise KeyError on it. The neighbourhood fetch always sets the key, and records
  here always carry a boolean.
- Node and link order in networkx is fixed in `Neighborhood.GetKnowledgeSubgraph`:
  - the subgraph's records follow the stored key order;
  - its relationships follow the stored list order.
  
  networkx may produce a different order. Key sets, flags and relationship multisets do
  not depend on it.
- Extra keys on returned records are not modelled:
  - `get_knowledge_subgraph` copies each node's `id` key into the returned record;
  - `dict(**node, has_external_neighbor=...)` raises TypeError if the stored record
    already has that key (stored records never do).
- `num_hops=None` (a TypeError in Python) is excluded by typing `num_hops` as an integer.
  A non-integer `length` for `generate_random_string` is excluded the same way.
- `str.lower()` is modelled on ASCII only. ID prefixes are alphanumeric ASCII, so for
  them this is exact.
- Logging is out: the error log on a rejected proposal and the warning on a dangling
  endpoint.
- Reconcile.RelabelInequivalentSpec: its statements about the collision pass require
  the generated IDs to be fresh and pairwise distinct (`FreshIds`). The source does not
  check this, so a random clash is not covered by this lemma or by the end-to-end lemmas
  built on it.
- Neighborhood.KnowledgeSubgraphSpec: its full characterisation of the records assumes
  every record is keyed by its own `entity_id` (`KeyedById`). Without that,
  `Neighborhood.Reformat` only states that each record comes from some member.

## Notes on the source

- The docstring of `generate_random_string` mentions uppercase letters. The code draws
  only from lowercase letters and digits, and the model follows the code.
- Edge trimming passes the valence IDs as `ignore`. Every edge touching a valence record
  is therefore dropped from the proposal. An old such edge is then removed from the store,
  unless the signature pass re-creates it by renaming a proposed record onto the valence ID.
  `UpdateProperties.ResubmissionRemovesValenceEdges` shows this for an unchanged
  resubmission. It is modelled as written.
- The stored snapshot removes relationships by (source, target) pair, while the delta
  names full relationships. `UpdateProperties.PairRemovalDropsParallelEdge` exhibits the
  consequence. It is modelled as written.
