# Verified model of the closure engine and its neighbours

A Dafny 4.11 model of the reasoning closure engine of this repository (`crates/closure`) and of the
stateful pieces around it, with proofs about all inputs and all runs.  Verify with
`dafny verify dfyconfig.toml`.

| file | what it models |
|---|---|
| `Relations`, `Adjacency` | finite relations, transitive closure as joinedness by walks, adjacency maps |
| `Incremental` | the incremental transitive closure: insertion by slices, rollback, both retraction strategies |
| `DenseIds` | dense renumbering of dictionary ids |
| `BoolClosure`, `Sink` | the Boolean matrix closure and the bulk backend that feeds a triple sink |
| `Backend`, `Ledger` | the incremental backend per predicate, and what its deltas add up to over a run |
| `Weights`, `ValuedClosure`, `Crosswalk` | the (max, x) best-confidence closure: walk algebra, the frontier loop, the id-level interface |
| `SameAs`, `Powers` | `owl:sameAs` union-find |
| `Interning`, `KeyFiles` | the arena interner, the files it emits and the bench that reads them |
| `Caches`, `CacheSimulator` | the repeat-cache simulators |
| `BuildLock` | the shared build protocol as interleaved steps with crashes |
| `NTriples`, `CanonicalI32` | the N-Triples writer, the term scanner and the integers it inlines |
| `Manifests`, `RdfLists` | manifest includes and RDF collections |

Objects the program updates in place are classes whose methods are proved against functions of their
state; the lemmas are about those functions.  Weights are exact reals.  The rule names (prp-trp,
scm-sco, scm-spo, eq-*) are those of section 4.3 of the W3C OWL 2 Profiles recommendation; the line
syntax is that of section 7 of RDF 1.1 N-Triples.

Where the code and its documentation disagree, the model follows the code:

- `crates/closure/src/lib.rs:34-35` says retraction is future work; it is implemented, and modelled.
- `crates/closure/build/shared.rs:35-36` says a script gives up while another process still holds the
  lock.  The attempt, the clock and the decision are separate steps, so the holder may be gone by then
  (`BuildLock.GivingUpCanBeStale`).  Another process does hold it at that moment unless, since the
  script's last and refused attempt, a holder has crashed and nobody has taken the lock again; then,
  and only then, nobody does (`BuildLock.GivesUpOnHolderIff`).
- `crates/closure/src/sink.rs:215-217` says retraction withdraws exactly the pairs that lose support.
  For a predicate seeded with a closed extent it can withdraw fewer
  (`Ledger.SeededRetractionCanLeavePairsBehind`) and, once stale pairs are there, also more
  (`Ledger.SeededRetractionCanOverWithdraw`).  While nothing is stale it is exact when and only when the
  seeded pairs it leaves are entailed by the true base it leaves (`Ledger.ExactSeedRetraction`), and
  nothing is stale when and only when the seeded pairs in the base are entailed
  (`Ledger.SeededIsExactIff`).  For every history the condition is `Ledger.SeededRetractionExactIff`;
  `Ledger.SeededRetractionAccounts` is the accounting identity behind it.
- `crates/closure/src/sink.rs:255-257` and `:346-348`, and
  `crates/closure/src/closure/incremental.rs:78` and `:120-122`, say that edges inserted after such a
  seed retract exactly.  They do until a seeded pair has been retracted.  After that they may not
  (`Ledger.LaterEdgeCanUnderWithdraw`); `Ledger.LaterEdgeRetraction` has the condition.
- `crates/closure/INTEGRATION-NOTES.md:121-126` says retraction cascades only through pairs that lose
  all support.  It drops the whole affected box and restores what still has support
  (`Incremental.IncrementalTransitiveClosure.OverDelete`, `Incremental.RedundantEdgeIsDropped`); the two
  agree exactly under the condition of `Incremental.DropsOnlyLostIff`.
- `crates/bench-rdfox/src/main.rs:336-339` says literals pass through verbatim.  Their values are
  escaped, so they do exactly when there is nothing to escape (`NTriples.VerbatimIff`,
  `NTriples.TabIsRewritten`).
- `scripts/bench/corpus_term_stats.rs:161-162` says the scanner answers None on anything unparsable and
  that the line is then skipped.  On a lone underscore it slices out of range and the run ends
  (`NTriples.PanicsIff`, `NTriples.LoneUnderscoreAborts`), and the terms in front of the bad position
  of a skipped line have been counted (`NTriples.SkippedLeavesNothingIff`).
- `crates/harness/src/manifest.rs:46-49` says an include cycle terminates, which is proved, and that
  one parse yields every case in the tree.  A file that is included under two names, as through a
  symbolic link, is read under the first only, and what the second would have included can be missed
  (`Manifests.SecondNameIsLost`).  `SpellingFree`, in `Manifests.ReadsTheReachable`, is the condition
  that can be checked beforehand; the exact one, in `Manifests.ReadsAllIff`, depends on which name the
  walk meets first.  A cycle along `rdf:rest` inside one manifest does not terminate (`RdfLists.EndsIffAcyclic`).

## Model

| member | source | states |
|---|---|---|
| `Relations.ClosureOfAddedEdge` | crates/closure/src/lib.rs:30-34 | Adding one edge (s, o) to a closed relation adds exactly (what reaches s, with s) x (what o reaches, with o): the result is the closure of the enlarged base, self-loops and cycles included. |
| `Incremental.IncrementalTransitiveClosure.FromClosedEdges` | crates/closure/src/closure/incremental.rs:133-154 | A transitively closed edge list becomes both the closure and the conservative base. |
| `Incremental.IncrementalTransitiveClosure.FromBaseEdges` | crates/closure/src/closure/incremental.rs:156-163 | Folding edges in one at a time gives the same state as closing the whole batch. |
| `Incremental.IncrementalTransitiveClosure.AddBox` | crates/closure/src/closure/incremental.rs:227-258 | The nested insertion loops close exactly the box B x F, and the delta lists each newly closed pair once. |
| `Incremental.IncrementalTransitiveClosure.InsertEdgeTracked` | crates/closure/src/closure/incremental.rs:227-258 | One asserted edge: closed stays the closure of the base, the delta is exactly the growth, and the flag tells whether the base edge was new. |
| `Incremental.IncrementalTransitiveClosure.InsertEdges` | crates/closure/src/closure/incremental.rs:292-306 | A batch: closure of the enlarged base, with the exact growth of the closure and of the base, each pair once. |
| `Incremental.IncrementalTransitiveClosure.Rollback` | crates/closure/src/closure/incremental.rs:262-290 | Undoing a batch by its two deltas restores closure and base exactly, even when the batch repeated old base edges or implied pairs. |
| `Incremental.IncrementalTransitiveClosure.BaseReach` | crates/closure/src/closure/incremental.rs:308-325 | The worklist search returns exactly the nodes joined to the start by a non-empty walk over base edges. |
| `Incremental.LostPairsAreAffected` | crates/closure/src/closure/incremental.rs:401-463 | A pair lost by removing (s, o) reached s and was reached from o, so looking outside that box is never needed. |
| `Incremental.RecomputeSound` | crates/closure/src/closure/incremental.rs:401-463 | Recomputing the affected box finds exactly the pairs the closure loses. |
| `Incremental.IncrementalTransitiveClosure.DeleteEdgeRecompute` | crates/closure/src/closure/incremental.rs:401-463 | Retraction by recomputation withdraws exactly the lost pairs, once each, and reports the edge as survivor exactly when it is still entailed. |
| `Incremental.IncrementalTransitiveClosure.SupportCounts` | crates/closure/src/closure/incremental.rs:465-489 | A pair's support is positive exactly when some base out-edge still derives it. |
| `Incremental.KeptPairsStillHold` | crates/closure/src/closure/incremental.rs:491-564 | The backward cascade over-deletes enough: no pair it keeps has lost its derivation, cycles included. |
| `Incremental.RederivedAll` | crates/closure/src/closure/incremental.rs:491-564 | When no over-deleted pair has support left, nothing derivable is missing. |
| `Incremental.IncrementalTransitiveClosure.OverDelete` | crates/closure/src/closure/incremental.rs:491-520 | The first phase drops exactly the pairs (x, y) with x at or before s and y at or behind o, once each and with one probe each, and reports them. |
| `Incremental.DropsOnlyLostIff` | crates/closure/INTEGRATION-NOTES.md:121-126 | The cascade drops only pairs that lose their support if and only if the remaining base entails no pair of the affected box. |
| `Incremental.RedundantEdgeIsDropped` | crates/closure/INTEGRATION-NOTES.md:121-126 | A redundant edge whose retraction loses nothing and whose pair is dropped all the same, to be restored. |
| `Incremental.IncrementalTransitiveClosure.Rederive` | crates/closure/src/closure/incremental.rs:522-539 | The second phase ends with the closure of the remaining base; it probes at most once per dropped pair and once per base edge leading into a restored one. |
| `Incremental.IncrementalTransitiveClosure.DeleteEdgeSupportCounting` | crates/closure/src/closure/incremental.rs:483-564 | Retraction by over-deletion and re-derivation promises the same outcome as recomputation, and looks at no more pairs than twice the affected box plus the base edges leading into it, whatever else the store holds. |
| `Incremental.IncrementalTransitiveClosure.DeleteEdge` | crates/closure/src/closure/incremental.rs:566-575 | Whichever strategy is chosen the outcome is the same; the probe counter restarts and stays within the affected box's bound. |
| `Incremental.IncrementalTransitiveClosure.DeleteEdges` | crates/closure/src/closure/incremental.rs:577-596 | A batch retraction loses exactly the closure difference, and a survivor is reported exactly when it was a base edge of the batch and is closed at the end. |
| `Incremental.IncrementalTransitiveClosure.BaseEdges` | crates/closure/src/closure/incremental.rs:166-176 | The asserted edges, each once. |
| `DenseIds.DenseIdMap.Intern` | crates/closure/src/dense_id.rs:46-54 | A known id keeps its index, a new one gets the next, and no index ever changes. |
| `DenseIds.DenseIdMap.InternEdges` | crates/closure/src/dense_id.rs:66-74 | The dense edge list is the image of the given one, in order. |
| `DenseIds.DecodeClosure` | crates/closure/src/sink.rs:94-107 | Interning, closing over indexes and mapping back equals closing over dictionary ids. |
| `DenseIds.DenseIdMap.PairsToDict` | crates/closure/src/sink.rs:178-186 | Mapping index pairs back drops nothing when the indexes are in range. |
| `BoolClosure.FoldStep` | crates/closure/src/closure/transitive.rs:37-66 | One hop more keeps the loop invariant, and a hop that adds nothing has reached the closure. |
| `BoolClosure.TransitiveClosure` | crates/closure/src/closure/transitive.rs:37-66 | The Boolean loop ends with the strict transitive closure, identity excluded. |
| `BoolClosure.BoolMatrix.ExtractEdges` | crates/closure/src/grb.rs:152-173 | Every entry once, in row-major order. |
| `Sink.BuildMatrix` | crates/closure/src/sink.rs:152-158 | The matrix has one row per mentioned id and holds exactly the edges. |
| `Sink.ReflexiveTransitiveClosure` | crates/closure/src/closure/schema.rs:15-21 | The closure with the whole diagonal. |
| `Sink.WriteClosure` | crates/closure/src/sink.rs:160-176 | The sink receives each decoded pair once, tagged with the predicate, or nothing. |
| `Sink.CloseTransitivePredicate` | crates/closure/src/sink.rs:94-107 | prp-trp: a successful call delivers exactly the strict closure of the asserted edges, each pair once. |
| `Sink.CloseReflexive` | crates/closure/src/sink.rs:138-150 | scm-sco and scm-spo: the closure plus the identity on every class or property mentioned. |
| `Backend.PredicateState.Insert` | crates/closure/src/sink.rs:297-333 | On success the base gains the batch and the sink the exact closure growth; the call fails exactly when the sink refuses a non-empty delta, and then closure and base are as before. |
| `Backend.PredicateState.Delete` | crates/closure/src/sink.rs:350-375 | Withdrawn pairs are exactly what the closure loses, in dictionary ids; survivors are the retracted base edges still entailed. |
| `Backend.IncrementalClosureBackend.SeedTransitiveClosure` | crates/closure/src/sink.rs:250-267 | A closed extent replaces the predicate's state and is its own closure; other predicates are untouched. |
| `Backend.IncrementalClosureBackend.SeedBaseEdges` | crates/closure/src/sink.rs:269-281 | The true base replaces the predicate's state; other predicates are untouched. |
| `Backend.IncrementalClosureBackend.InsertTransitiveEdges` | crates/closure/src/sink.rs:283-333 | One insert call is one step of the delta ledger for its predicate and none for any other; the returned count is the number of triples new to the store. |
| `Backend.IncrementalClosureBackend.DeleteTransitiveEdges` | crates/closure/src/sink.rs:335-379 | One retraction is one step of the delta ledger, whether or not the predicate has state. |
| `Backend.IncrementalClosureBackend.BaseEdges` | crates/closure/src/sink.rs:381-387 | The asserted edges in dictionary ids, each once. |
| `Backend.NothingNew` | crates/closure/src/sink.rs:297-333 | The delta is empty exactly when every edge of the batch is already closed. |
| `Backend.BatchDecodes` | crates/closure/src/sink.rs:297-333 | What a dense batch does to base and closure, read in dictionary ids. |
| `Backend.RetractionDecodes` | crates/closure/src/sink.rs:350-375 | What a dense retraction does to base and closure, read in dictionary ids. |
| `Backend.RetryEmitsTheSame` | crates/closure/src/sink.rs:318-333 | Retrying a refused batch emits the same pairs as a first try that succeeds. |
| `Backend.IncrementalClosureBackend.LogIsLedger` | crates/closure/src/sink.rs:207-219 | Whatever has been called on the backend: for each predicate, its seed plus the pairs its inserts wrote minus the pairs its retractions reported weighs each pair 0 or 1, and 1 exactly for the closure of its base. |
| `Ledger.LedgerIsClosure` | crates/closure/src/sink.rs:207-219 | Over every run of inserts, refused inserts and retractions, seed plus emitted minus withdrawn weighs each pair 0 or 1, and 1 exactly for the closure of the current base. |
| `Ledger.DeltasAreNews` | crates/closure/src/sink.rs:207-219 | No pair is emitted while the ledger holds it and none withdrawn while it does not. |
| `Ledger.SeededTracksTrueBase` | crates/closure/src/sink.rs:250-262 | A predicate seeded with the closed extent of an unknown base never keeps less than the true closure, and exactly it as long as no pair of the extent has been retracted. |
| `Ledger.SeededIsExactIff` | crates/closure/src/closure/incremental.rs:106-132 | After any history a predicate seeded with a closed extent is exact if and only if every seeded pair still in its base is entailed by what is left of the true base. |
| `Ledger.ExactSeedRetraction` | crates/closure/src/closure/incremental.rs:106-132 | While nothing is stale a retraction withdraws a subset of the exact set, and all of it if and only if the seeded pairs it leaves in the base are entailed by what it leaves of the true base. |
| `Ledger.SeededRetractionExactIff` | crates/closure/src/closure/incremental.rs:106-132 | After any history a retraction is exact if and only if what it leaves of the seeded base still entails every stale pair, and entails no pair of the true closure that what it leaves of the true base does not. |
| `Ledger.SeededRetractionAccounts` | crates/closure/src/closure/incremental.rs:106-132 | After any history what a retraction withdraws too much is exactly the stale pairs it drops, and what it withdraws too little exactly the pairs it makes stale. |
| `Ledger.LaterEdgeRetraction` | crates/closure/src/sink.rs:255-257 | An edge asserted after the seed and outside the extent retracts exactly as long as no seeded pair was ever retracted; while nothing is stale, if and only if every seeded pair left in the base is entailed by the true base left. |
| `Ledger.LaterEdgeCanUnderWithdraw` | crates/closure/src/sink.rs:255-257 | A history, exact up to that point, in which retracting such a later edge leaves a stale pair behind. |
| `Ledger.SeededRetractionCanLeavePairsBehind` | crates/closure/src/sink.rs:565-582 | A concrete base for which retracting a seeded edge leaves a stale pair behind. |
| `Ledger.SeededRetractionCanOverWithdraw` | crates/closure/src/sink.rs:215-217 | The same base a step later: retracting the stale pair withdraws it, although the true base had lost it before. |
| `Weights.Pigeonhole` | crates/closure/src/metrics.rs:99-106 | More than n nodes out of n repeat one. |
| `Weights.ShortWalkSuffices` | crates/closure/src/metrics.rs:99-106 | Where no closed walk multiplies to more than one, every walk is matched by one of at most n edges. |
| `ValuedClosure.PowerAttained` | crates/closure/src/grb.rs:267-295 | Each entry of the t-th (max, x) power is the arithmetic product of the edge weights of a walk of exactly t edges. |
| `ValuedClosure.PowerBounds` | crates/closure/src/grb.rs:267-295 | No walk of exactly t edges has a larger arithmetic product of its edge weights than the t-th power. |
| `ValuedClosure.StopTestExact` | crates/closure/src/metrics.rs:162-193 | No new coordinate and no strict improvement on the shared pattern holds exactly when the next power is pointwise below the accumulator. |
| `ValuedClosure.FixpointDominates` | crates/closure/src/metrics.rs:162-193 | Once the stop test holds no later power can improve anything, for positive weights of any size. |
| `ValuedClosure.FixpointByN` | crates/closure/src/metrics.rs:99-106 | Where nothing amplifies the n-th fold is already the fixed point. |
| `ValuedClosure.AmplifyingHasNoBest` | crates/closure/src/metrics.rs:102-106 | A closed walk with product above one rules out any maximum. |
| `ValuedClosure.LoadedIsBest` | crates/closure/src/grb.rs:217-245 | Loading a triple list keeps, at each coordinate, the largest weight listed there, and it is one that was listed. |
| `ValuedClosure.ValuedMatrix.ExtractWeightedEdges` | crates/closure/src/grb.rs:402-428 | Every entry once, in row-major order. |
| `ValuedClosure.ValuedTransitiveClosure` | crates/closure/src/metrics.rs:107-215 | The frontier loop: what it returns, how many rounds it made and on which of its three exits, with no assumption on the weights. |
| `ValuedClosure.CapIsDivergence` | crates/closure/src/metrics.rs:146-194 | For positive weights the cap is what stops the loop if and only if some closed walk amplifies, if and only if the result is not the maximum over all walks of any length. |
| `ValuedClosure.StoppedIsBest` | crates/closure/src/metrics.rs:146-194 | Stopping on an empty frontier or on the fixpoint test means every pair has the maximum product over all walks, and an entry exactly when a walk exists. |
| `ValuedClosure.ConfidencesConverge` | crates/closure/src/metrics.rs:99-106 | For weights in (0, 1] the cap never fires, at most N rounds are made, and the result is exact. |
| `Crosswalk.FromEdges` | crates/closure/src/crosswalk.rs:114-155 | An edge list is refused exactly when a confidence is outside (0, 1], naming the first such edge; otherwise the graph has an entry for exactly the listed pairs, each with the largest confidence listed for it. |
| `Crosswalk.RenamedBest` | crates/closure/src/crosswalk.rs:167-180 | A best closure over dense indexes is, renamed, a best closure over ids. |
| `Crosswalk.CrosswalkGraph.BestConfidenceClosure` | crates/closure/src/crosswalk.rs:167-180 | Every reachable pair of ids is listed once and no other, with a confidence that some path of any length multiplies to and none exceeds. |
| `Crosswalk.CrosswalkGraph.BestConfidence` | crates/closure/src/crosswalk.rs:188-197 | The maximum over all walks between the two ids, attained by one of them; nothing exactly when no walk joins them, unknown ids included. |
| `SameAs.EquivClasses.Insert` | crates/closure/src/sameas.rs:61-76 | An id gets one slot, once, and keeps it. |
| `SameAs.HalvingKeepsForest` | crates/closure/src/sameas.rs:102-112 | Pointing a slot at its grandparent changes no root, and the rank still rises along every link. |
| `SameAs.RankBound` | crates/closure/src/sameas.rs:66-93 | With fewer than 2^32 slots no rank exceeds 31, so the saturating u8 increment never saturates. |
| `SameAs.HopsBound` | crates/closure/src/sameas.rs:124-133 | No chain to a root is longer than 31 links. |
| `SameAs.LinkKeepsPartition` | crates/closure/src/sameas.rs:79-99 | Linking two roots is adding one pair to the generated equivalence, in both directions. |
| `SameAs.LinkKeepsShape` | crates/closure/src/sameas.rs:79-99 | Union by rank keeps the forest, the 2^rank weight of every root, the partition and the least members. |
| `SameAs.EquivClasses.Find` | crates/closure/src/sameas.rs:102-112 | The root, in at most 31 steps, with path halving leaving every class as it was. |
| `SameAs.EquivClasses.Union` | crates/closure/src/sameas.rs:79-99 | The equivalence is the one generated by one more pair. |
| `SameAs.EquivClasses.Same` | crates/closure/src/sameas.rs:115-121 | True exactly when both ids are known and related by the equivalence closure of the united pairs. |
| `SameAs.EquivClasses.Canonical` | crates/closure/src/sameas.rs:124-133 | The uncompressed walk ends at the representative of the id, or nothing for an unknown id. |
| `SameAs.EquivClasses.CanonicalIsLeast` | crates/closure/src/sameas.rs:95-98 | The representative is the least id of the class, whatever shape the chains have. |
| `SameAs.EquivClasses.CanonicalSeparates` | crates/closure/src/sameas.rs:124-133 | Two known ids have the same representative exactly when they are equivalent. |
| `SameAs.EquivClasses.ClassMembers` | crates/closure/src/sameas.rs:137-148 | Exactly the known ids equivalent to the given one, without repeats. |
| `SameAs.EquivClasses.AddSameAs` | crates/closure/src/sink.rs:127-131 | A list of pairs is united, every pair of it. |
| `SameAs.OrderDoesNotMatter` | crates/closure/src/sink.rs:127-131 | Two structures that united the same pairs answer alike, whatever the order. |
| `Interning.FreeMeansAbsent` | scripts/bench/corpus_term_stats.rs:568-578 | A probe that reaches a free slot proves the key absent. |
| `Interning.ProbeEnds` | scripts/bench/corpus_term_stats.rs:568-578 | Fewer ids than slots leaves a free slot, so no probe runs all the way round. |
| `Interning.PlaceKeepsHolds` | scripts/bench/corpus_term_stats.rs:579-592 | Filling the free slot a probe ends at keeps every other id reachable from its home slot. |
| `Interning.ArenaAppend` | scripts/bench/corpus_term_stats.rs:554-557 | Appending bytes to the arena leaves every stored key as it was. |
| `Interning.Interner.Probe` | scripts/bench/corpus_term_stats.rs:568-578 | Found exactly when the key is interned, with its id; otherwise the first free slot of its probe sequence. |
| `Interning.Interner.Intern` | scripts/bench/corpus_term_stats.rs:560-593 | A seen key returns its id; a new one becomes the next dense id; stored bytes never change; load stays at most one half, the table doubling exactly when a new key takes it above that. |
| `Interning.Interner.Grow` | scripts/bench/corpus_term_stats.rs:594-613 | Doubling the table loses no id and changes no key. |
| `Interning.Interner.Replaced` | scripts/bench/corpus_term_stats.rs:594-613 | The new table has twice the slots and holds exactly the same ids, each reachable from its home. |
| `Interning.FirstSeenOrder` | scripts/bench/corpus_term_stats.rs:761-763 | A key's id is the number of distinct keys before its first appearance. |
| `Interning.FirstSeenIsTheSet` | scripts/bench/corpus_term_stats.rs:761-763 | First-seen order repeats no key and neither loses nor invents one. |
| `Interning.Interner.InternAll` | scripts/bench/corpus_term_stats.rs:761-766 | After a document the keys are its distinct keys in first-seen order, and the id stream looked up in them gives the document back. |
| `KeyFiles.KeysRecovered` | crates/storage/examples/dict_base_bench.rs:133-153 | A key file, even with up to three stray bytes behind it, reads back as its keys. |
| `KeyFiles.OnlyKeyFilesRead` | crates/storage/examples/dict_base_bench.rs:133-153 | Whatever reads back as a list of keys is that list's file up to fewer than four stray bytes. |
| `KeyFiles.IdsRecovered` | crates/storage/examples/dict_base_bench.rs:1700-1706 | An emitted id stream reads back unchanged. |
| `KeyFiles.EmitKeys` | scripts/bench/corpus_term_stats.rs:796-805 | Every interned key in id order, as length and bytes. |
| `KeyFiles.ReadKeys` | crates/storage/examples/dict_base_bench.rs:133-153 | The reading loop fills one arena with exactly the keys of the file, and fails exactly on a truncated key. |
| `KeyFiles.EmitCorpus` | scripts/bench/corpus_term_stats.rs:15-20 | The two emitted files, read back by the bench, replay exactly the keys that were interned. |
| `KeyFiles.KeyFileLayout` | scripts/bench/corpus_term_stats.rs:796-805 | Each key stands behind the four little-endian bytes of its length, at the offset that the keys before it take, and nothing else is in the file. |
| `KeyFiles.IdFileLayout` | scripts/bench/corpus_term_stats.rs:806-812 | The id at position t is the four little-endian bytes from offset 4t, and nothing else is in the file. |
| `Caches.RecencyMeans` | scripts/bench/corpus_term_stats.rs:447-465 | In a set's recency list, the ids in front of x are exactly the other ids of the set probed since x's last use. |
| `Caches.RetainedIsNear` | scripts/bench/corpus_term_stats.rs:447-465 | Fewer than w distinct other ids since the last use is the same as standing among the first w of the list. |
| `Caches.FourWayNext` | scripts/bench/corpus_term_stats.rs:447-472 | Promoting an id keeps every set at its four most recent distinct ids in order, and a hit is exactly a retained id. |
| `Caches.HitsNest` | scripts/bench/corpus_term_stats.rs:428-473 | On a consistent stream, a hit through a coarse index is a hit through any index that refines it, for any number of ways. |
| `Caches.LargerSizesHit` | scripts/bench/corpus_term_stats.rs:689-692 | A probe answered at one power-of-two size is answered at each larger one: short-key, full-hash and 4-way designs, read off the probes. |
| `Caches.UnverifiedAnswers` | scripts/bench/corpus_term_stats.rs:438-443 | Answering on the short key alone gives exactly the verified hits and the false hits, never both at once. |
| `Caches.ShortHitIff` | scripts/bench/corpus_term_stats.rs:430-436 | The short-key design hits if and only if the latest earlier probe whose mixed short key agrees modulo the size was of the same id. |
| `Caches.WrongAnswerIff` | scripts/bench/corpus_term_stats.rs:438-443 | The unverified design answers wrongly if and only if that latest earlier probe had the very same short key and another id. |
| `Caches.FullHitIff` | scripts/bench/corpus_term_stats.rs:448-453 | The full-hash design hits if and only if the latest earlier probe whose full hash agrees modulo the size was of the same id, whatever the short keys. |
| `Caches.WayHitIff` | scripts/bench/corpus_term_stats.rs:447-465 | The 4-way design hits if and only if the id was probed before and fewer than four other ids that agree in the upper 32 bits of the full hash modulo a quarter of the size have been probed since. |
| `Caches.HitsAreRepeats` | scripts/bench/corpus_term_stats.rs:1043-1043 | Hits of any design plus distinct ids never exceed probes. |
| `CacheSimulator.CacheSim.Probe` | scripts/bench/corpus_term_stats.rs:428-473 | Each probe keeps all four tables equal to their meaning over the whole probe history, and moves each counter by one exactly when, read off the earlier probes alone, the short-key design hits, the unverified one answers wrongly, the full-hash one hits, and the 4-way one hits. |
| `CacheSimulator.PromoteWay` | scripts/bench/corpus_term_stats.rs:450-472 | The in-place search and shift of one set is a move to front, and touches no other set. |
| `CacheSimulator.ProbeWays` | scripts/bench/corpus_term_stats.rs:447-472 | A 4-way set hits exactly when fewer than four other distinct ids of the set were probed since the id's last use. |
| `CacheSimulator.ProbeDirect` | scripts/bench/corpus_term_stats.rs:430-436 | A direct-mapped slot hits exactly when its last probe was of the same id. |
| `CacheSimulator.LargerSizesHitMore` | scripts/bench/corpus_term_stats.rs:689-692 | Two simulators fed the same stream: the larger never counts fewer hits, in each verified design. |
| `CacheSimulator.HitsBelowOracle` | scripts/bench/corpus_term_stats.rs:1043-1043 | No verified design beats the oracle, and short-key answers never exceed the probes. |
| `CacheSimulator.RunCorpus` | scripts/bench/corpus_term_stats.rs:726-779 | Main's loop over a document and two cache sizes: both simulators see, key by key, its short key, its full hash and its interned id; the larger counts no fewer hits in any verified design, and hits plus distinct keys stay within the keys read. |
| `CacheSimulator.RunKey` | scripts/bench/corpus_term_stats.rs:761-770 | One key: interned, then probed in both caches. |
| `BuildLock.ActKeepsSafe` | crates/closure/build.rs:61-138 | Every step of every process, crashes included, keeps the lock, the marker and each program point's knowledge consistent. |
| `BuildLock.BuildsAreExclusive` | crates/closure/build.rs:61-138 | In every interleaving of any number of scripts at most one is building, an install being written has no marker, the marker is written at most once, and who leaves the loop normally finds a finished install. |
| `BuildLock.MarkerIsFinal` | crates/closure/build.rs:84-100 | Once the marker exists it stays, and no build starts or touches the install. |
| `BuildLock.LockIsReclaimed` | crates/closure/build/shared.rs:39-44 | After a builder dies, any polling script, however late, can complete the build itself. |
| `BuildLock.OnlyCrashFrees` | crates/closure/build/shared.rs:39-44 | Until the marker is written a held lock becomes free in exactly one way, a crash of its holder, and otherwise stays with it. |
| `BuildLock.FreeIffHolderCrashed` | crates/closure/build/shared.rs:39-44 | Without a marker, a lock once held is free later if and only if a holder has crashed in between and nobody has taken it since. |
| `BuildLock.GivesUpOnHolderIff` | crates/closure/build/shared.rs:35-36 | A script past its deadline gives up if and only if there is no marker, and then faces another process holding the lock unless, since the refusal at its last attempt, a holder crashed and nobody took the lock again; in that case, and only then, it faces none. |
| `BuildLock.GivingUpCanBeStale` | crates/closure/build/shared.rs:35-36 | A run in which the script gives up although no process holds the lock at that moment. |
| `BuildLock.DecisionOutcome` | crates/closure/build/shared.rs:45-60 | In every interleaving: holding the lock a script builds without the marker and uses the install with it; without the lock it leaves when it sees the marker, gives up if and only if there is none and its last clock reading was late, and otherwise is back at the top of the loop. |
| `BuildLock.FirstLook` | crates/closure/build.rs:61-61 | A script that finds the marker at the start leaves at once, and any other one enters the loop. |
| `BuildLock.NeverStuck` | crates/closure/build.rs:75-97 | A running script can always make a step other than crashing, can crash at any point, which frees its lock and changes nothing else, and leaves with the lock given back once it is through with the marker. |
| `NTriples.UnescapeEscape` | crates/bench-rdfox/src/main.rs:405-416 | Unescaping an escaped value gives the value back, whatever characters it contains. |
| `NTriples.EscapeJoins` | crates/bench-rdfox/src/main.rs:405-416 | Escaping works character by character. |
| `NTriples.EscapeOne` | crates/bench-rdfox/src/main.rs:405-416 | Exactly quote, backslash, line feed, carriage return and tab get their two-character escape; any other character stays. |
| `NTriples.EscapeOneLine` | crates/bench-rdfox/src/main.rs:405-416 | No raw line feed is left inside a literal. |
| `NTriples.CloseQuoteEscaped` | scripts/bench/corpus_term_stats.rs:163-275 | The first unescaped quote behind an escaped value is the one that closes it. |
| `NTriples.LastQuoteSplits` | crates/bench-rdfox/src/main.rs:378-392 | The writer's split at the last quote recovers the value if and only if the suffix contains no quote. |
| `NTriples.VerbatimIff` | crates/bench-rdfox/src/main.rs:336-339 | A literal passes through verbatim if and only if its value holds no quote, backslash, line feed, carriage return or tab. |
| `NTriples.TabIsRewritten` | crates/bench-rdfox/src/main.rs:336-339 | A literal that does not pass through verbatim. |
| `NTriples.TermIsWrittenAs` | crates/bench-rdfox/src/main.rs:378-403 | A literal is split at its last quote and only its value is escaped; a literal without a second quote and a blank node go out as they are, anything else in brackets. |
| `NTriples.FileIsWrittenAs` | crates/bench-rdfox/src/main.rs:340-367 | A triple whose subject starts with a quote is left out and counted; any other one adds a line of its three terms and a full stop. |
| `NTriples.TermRecovered` | scripts/bench/corpus_term_stats.rs:163-275 | A written term scans back to its kind, escaped text and tag, and the scan stops right behind it: a plain or xsd:string literal keeps no tag, a language tag and any other datatype stay in the key, and xsd:integer is inlined exactly for decimal 32-bit forms. |
| `NTriples.CloseQuoteIff` | scripts/bench/corpus_term_stats.rs:163-275 | The scan for the closing quote finds the first quote that is not behind an unescaped backslash. |
| `NTriples.PlainScanned` | scripts/bench/corpus_term_stats.rs:163-275 | Any text closed by its first unescaped quote, with neither an at sign nor carets behind it, is a plain literal. |
| `NTriples.LangScanned` | scripts/bench/corpus_term_stats.rs:163-275 | Any such text with an at sign behind it carries the tag up to the next blank. |
| `NTriples.TypedScanned` | scripts/bench/corpus_term_stats.rs:163-275 | Any such text with carets behind it carries the first bracketed text as its datatype; xsd:string is dropped, and xsd:integer is inlined exactly for decimal 32-bit forms. |
| `NTriples.BlankScanned` | scripts/bench/corpus_term_stats.rs:163-275 | An underscore starts a blank node whose key is the token up to the next blank without its first two characters. |
| `NTriples.SuffixScanned` | scripts/bench/corpus_term_stats.rs:163-275 | Spaces and tabs in front of a term are passed over and change nothing else. |
| `NTriples.QuotedUnparsableIff` | scripts/bench/corpus_term_stats.rs:163-275 | A quoted object is unparsable if and only if no unescaped quote closes it, or carets behind it are not followed by a bracketed text. |
| `NTriples.IriRecoveredIff` | scripts/bench/corpus_term_stats.rs:163-275 | A bracketed IRI is read back whole if and only if it contains no closing bracket. |
| `NTriples.LineRecovered` | scripts/bench/corpus_term_stats.rs:728-760 | A written line scans back to its three terms. |
| `NTriples.PanicsIff` | scripts/bench/corpus_term_stats.rs:161-200 | The scanner slices out of range, instead of answering None, if and only if the term starts with an underscore that ends the line or has a blank behind it. |
| `NTriples.UnparsableIff` | scripts/bench/corpus_term_stats.rs:163-203 | Away from the object position the scanner answers None exactly on those texts. |
| `NTriples.LoneUnderscoreAborts` | scripts/bench/corpus_term_stats.rs:186-193 | A line that ends the whole run, whatever lines follow. |
| `NTriples.SkippedLeavesNothingIff` | scripts/bench/corpus_term_stats.rs:726-779 | A skipped line leaves nothing counted if and only if, blanks passed over, it is empty, starts with neither a bracket nor an underscore, or starts with a bracket that is never closed. |
| `NTriples.SkippedLineIsPartlyCounted` | scripts/bench/corpus_term_stats.rs:726-779 | A skipped line whose subject has been counted. |
| `NTriples.FileRoundTrip` | crates/bench-rdfox/src/main.rs:340-367 | Reading a written file gives every triple whose subject is not a literal, in order, and the reported count is exactly what is missing. |
| `NTriples.CommentsArePassedOver` | scripts/bench/corpus_term_stats.rs:715-723 | An empty line or one that starts with a number sign changes nothing. |
| `NTriples.OthersAreScanned` | scripts/bench/corpus_term_stats.rs:715-760 | Any other line is scanned, and ends the run exactly when its scan does. |
| `NTriples.UnfinishedLineIsDropped` | scripts/bench/corpus_term_stats.rs:715-718 | Text behind the last line feed is not read. |
| `CanonicalI32.CanonicalIsShown` | scripts/bench/corpus_term_stats.rs:286-297 | The inlined integers are exactly the decimal forms of the 32-bit values. |
| `CanonicalI32.CanonicalIsDecimal` | scripts/bench/corpus_term_stats.rs:286-297 | A text is inlined if and only if it is a zero, or digits without a leading zero and perhaps a minus sign in front, whose value by the places of the digits is at most 2^31 - 1, or 2^31 behind the sign. |
| `NTriples.EscapeNtLiteral` | crates/bench-rdfox/src/main.rs:405-416 | The buffer loop appends the escaped value. |
| `NTriples.PushTerm` | crates/bench-rdfox/src/main.rs:378-403 | The buffer gains exactly the term's text, malformed literals verbatim. |
| `NTriples.WriteNTriples` | crates/bench-rdfox/src/main.rs:340-367 | The file holds a line per triple with a non-literal subject, and the rest is counted. |
| `NTriples.ScanTerm` | scripts/bench/corpus_term_stats.rs:163-275 | The index-advancing scanner computes the scanning function that the round trips are about, failures included. |
| `Manifests.ParseInto` | crates/harness/src/manifest.rs:57-79 | The recursion does what an explicit-stack preorder walk does, and a failure names the unreadable file and a chain of includes leading to it. |
| `Manifests.Parse` | crates/harness/src/manifest.rs:50-55 | A success returns the cases of the manifests read, in depth-first preorder; a failure is the walk's first unreadable file. |
| `Manifests.CasesInOrder` | crates/harness/src/manifest.rs:57-79 | The cases of each manifest read come behind those read before it and in front of those read after it, in the order it lists them, none dropped. |
| `Manifests.PreorderOfOne` | crates/harness/src/manifest.rs:57-79 | One manifest: nothing when its file has been read, a failure when it does not load, and else itself followed by its includes in order. |
| `Manifests.PreorderComposes` | crates/harness/src/manifest.rs:57-79 | An include is done with, down to its last include, before the next one is looked at. |
| `Manifests.SameFileIff` | crates/harness/src/manifest.rs:57-65 | Two paths count as one file exactly when they resolve to the same one, a path that does not resolve standing for itself. |
| `Manifests.PreorderIsFaithful` | crates/harness/src/manifest.rs:47-49 | On any include graph each file is read at most once, only reachable ones are, and no include of a file read is left unread. |
| `Manifests.ReadsTheReachable` | crates/harness/src/manifest.rs:47-79 | When reachable spellings of one file agree, a parse succeeds if and only if everything reachable loads, and then reads exactly the reachable files, each once. |
| `Manifests.ReadsAllIff` | crates/harness/src/manifest.rs:47-79 | In any world, a successful parse has read every reachable file if and only if no reachable spelling of a file it read fails to load or leads to a file it did not read. |
| `Manifests.SecondNameIsLost` | crates/harness/src/manifest.rs:47-79 | A world with one file under two names in which a parse succeeds and a reachable manifest is never read. |
| `RdfLists.EndsIffAcyclic` | crates/harness/src/manifest.rs:245-269 | The list loop ends if and only if following rdf:rest never returns to a cell. |
| `RdfLists.SelfTailNeverEnds` | crates/harness/src/manifest.rs:245-269 | A one-cell list that is its own tail keeps the loop running for ever. |
| `RdfLists.ReadRdfList` | crates/harness/src/manifest.rs:245-269 | The elements in order up to rdf:nil, or the first node that is not a list cell: not a resource, without rdf:first, or with it but without rdf:rest, in that order. |

## Left out

- RdfLists.ReadRdfList: asks for an acyclic list, since on any other the source's loop does not end.
- Backend.IncrementalClosureBackend.SeedTransitiveClosure: asks for a transitively closed extent, the contract the source puts on its callers.
- Interning.Interner.Intern: asks for room for one more id and for keys shorter than 2^32 bytes; the source panics on the former and truncates the latter's length.
- SameAs.EquivClasses.Insert: asks that the 2^32 - 1 slot numbers are not exhausted, where the source panics.
- NTriples.FileRoundTrip: is about terms the writer's convention allows (IRIs without a closing bracket or line feed, suffixes without a quote); the values of literals are unrestricted.
- Manifests.ReadsTheReachable: the reachable spellings of one file must agree on the files they include; what holds without that is `Manifests.ReadsAllIff`.
- The GraphBLAS library, lazy evaluation, handles and error codes: matrix operations are modelled by their mathematical meaning.
- The built-in and the user-defined (max, x) kernels: one meaning, so one method.
- IEEE rounding, underflow, NaN and infinities: weights are exact reals.
- Metrics sinks, timings and derived getters of `ClosureMetrics`: no property beyond arithmetic.
- Integer widths of dense ids, row counts and the iteration counter: unbounded here.
- Hash functions (`hash_u64`, `hash_bytes`, FxHash): any fixed function of the key; `& mask` is the remainder by a power of two.
- `short_key` (length and first eight bytes): any fixed function of the key.
- Iteration order of hash maps and sets: left open, so nothing proved depends on it.
- A sink that fails after accepting some triples: a refusing sink keeps nothing.
- The `sameas` member of the two backends, which only delegates to `EquivClasses`.
- The kind and length columns of the interner, histograms and the HDB-95 re-keying: payload beside the keys.
- Bytes against characters in the N-Triples scanner: text is a sequence of characters.
- The pid note, clocks, sleeping, cmake and pkg-config in the build script: the deadline is a nondeterministic flag, the lock is released when its holder dies.
- `project_entry`, XML manifests, path resolution and the Turtle parser: a manifest is its cases and its includes.
- The configuration crate, report scraping, HTTP, SQLite and benchmark drivers: input, output and text plumbing.
