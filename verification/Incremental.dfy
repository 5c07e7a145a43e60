/** Incremental transitive closure: insertion, rollback and both retraction strategies. */
module Incremental {
  import opened Relations
  import opened Adjacency

  datatype DeleteStrategy = SupportCounting | Recompute

  /** `withdrawn`: closure pairs that lost all support.  `survived`: deleted base edges
      that the remaining base still entails. */
  datatype DeleteOutcome = DeleteOutcome(withdrawn: seq<Edge>, survived: seq<Edge>)

  /** `delta` lists the pairs `c` has and `c0` has not, each once. */
  ghost predicate IsDelta(delta: seq<Edge>, c0: Rel, c: Rel) {
    NoDup(delta) && c0 <= c && Elems(delta) == c - c0
  }

  lemma DeltaStep(delta: seq<Edge>, c0: Rel, c: Rel, p: Edge)
    requires IsDelta(delta, c0, c)
    ensures p !in c ==> IsDelta(delta + [p], c0, c + {p})
    ensures p in c ==> c + {p} == c
  {
    Snoc(delta, p);
    if p !in c {
      assert p !in Elems(delta);
      assert Elems(delta + [p]) == (c + {p}) - c0;
    }
  }

  // ----- the closure facts retraction rests on

  /** Pairs that can lose support when (s, o) leaves the base. */
  ghost function Affected(c: Rel, s: nat, o: nat): Rel {
    Box(Back(c, s), Forth(c, o))
  }

  /** A pair lost by removing (s, o) reached s and was reached from o. */
  lemma LostPairsAreAffected(e: Rel, s: nat, o: nat)
    requires (s, o) in e
    ensures Closure(e - {(s, o)}) <= Closure(e)
    ensures Closure(e) - Closure(e - {(s, o)}) <= Affected(Closure(e), s, o)
  {
    var e' := e - {(s, o)};
    assert e' + {(s, o)} == e;
    ClosureMonotone(e', e);
    ClosureOfAddedEdge(e', s, o);
  }

  /** `over` holds the deleted edge's own pairs and is closed under prefixing a remaining
      base edge: what the over-deletion phase has removed once its queue is empty. */
  ghost predicate OverDeleted(e': Rel, c: Rel, s: nat, o: nat, over: Rel) {
    && over <= c
    && (forall y :: y in Forth(c, o) && (s, y) in c ==> (s, y) in over)
    && (forall w, x, y :: (w, x) in e' && (x, y) in over && (w, y) in c ==> (w, y) in over)
  }

  /** A base edge in front of an affected pair makes another one. */
  lemma AffectedBefore(c: Rel, s: nat, o: nat, w: nat, x: nat, y: nat)
    requires Transitive(c) && (w, x) in c && (x, y) in Affected(c, s, o)
    ensures (w, y) in Affected(c, s, o)
  {
  }

  lemma AffectedIsClosed(e: Rel, s: nat, o: nat)
    requires (s, o) in e
    ensures Affected(Closure(e), s, o) <= Closure(e)
  {
    ClosureContains(e);
    ClosureTransitive(e);
  }

  /** Whatever the queue's order, the first phase cannot stop before the whole affected box is gone. */
  lemma OverDeletesAffected(e: Rel, s: nat, o: nat, over: Rel)
    requires (s, o) in e && OverDeleted(e - {(s, o)}, Closure(e), s, o, over)
    ensures Affected(Closure(e), s, o) <= over
  {
    var c := Closure(e);
    ClosureContains(e);
    ClosureTransitive(e);
    AffectedIsClosed(e, s, o);
    forall y | y in Forth(c, o) ensures forall x: nat :: (x, s) in c ==> (x, y) in over {
      ColumnGone(e, s, o, over, y);
    }
  }

  lemma ColumnGone(e: Rel, s: nat, o: nat, over: Rel, y: nat)
    requires (s, o) in e && OverDeleted(e - {(s, o)}, Closure(e), s, o, over) && y in Forth(Closure(e), o)
    ensures forall x: nat :: (x, s) in Closure(e) ==> (x, y) in over
  {
    var c := Closure(e);
    ClosureContains(e);
    ClosureTransitive(e);
    AffectedIsClosed(e, s, o);
    assert (s, y) in Affected(c, s, o);
    assert (s, y) in over;
    var t := set p | p in c && (p.1 == s ==> (p.0, y) in over);
    forall x | (x, s) in e ensures (x, y) in over {
      assert (x, y) in c;
    }
    forall x, z, v | (x, z) in e && (z, v) in t ensures (x, v) in t {
      assert (x, v) in c;
      if v == s && x != s {
        assert (z, y) in over && (x, y) in c;
      }
    }
    ClosureLeast(e, t);
  }

  /** The first phase drops only pairs that are really lost exactly when no pair of the affected box
      is entailed without the retracted edge. */
  lemma DropsOnlyLostIff(e: Rel, s: nat, o: nat)
    requires (s, o) in e
    ensures var c, c' := Closure(e), Closure(e - {(s, o)});
      Affected(c, s, o) == c - c' <==> Affected(c, s, o) !! c'
  {
    LostPairsAreAffected(e, s, o);
    AffectedIsClosed(e, s, o);
    var c, c' := Closure(e), Closure(e - {(s, o)});
    hide Closure;
    hide Affected;
    if Affected(c, s, o) !! c' {
      assert Affected(c, s, o) <= c - c';
    }
  }

  /** Retracting the redundant edge of 1->2->3 with 1->3 loses nothing, yet (1, 3) is dropped first. */
  lemma RedundantEdgeIsDropped()
    ensures var e': Rel := {(1, 2), (2, 3)};
      Closure(e' + {(1, 3)}) == Closure(e') && (1, 3) in Affected(Closure(e' + {(1, 3)}), 1, 3)
  {
    var e': Rel := {(1, 2), (2, 3)};
    hide Closure;
    ClosureContains(e');
    ClosureTransitive(e');
    assert (1, 2) in e' && (2, 3) in e';
    RedundantEdge(e', (1, 3));
  }

  lemma RedundantEdge(e': Rel, p: Edge)
    requires p in Closure(e')
    ensures Closure(e' + {p}) == Closure(e')
  {
    hide Closure;
    ClosureContains(e');
    ClosureMonotone(e', e' + {p});
    ClosureMonotone(e' + {p}, Closure(e'));
    ClosureIdempotent(e');
  }

  /** The base edges that lead into the first node of a pair of `r`, each with that pair. */
  ghost function Arrivals(e: Rel, r: Rel): set<(Edge, Edge)> {
    set q, p | q in e && p in r && q.1 == p.0 :: (q, p)
  }

  lemma ArrivalsNext(e: Rel, r: Rel, p: Edge, preds: seq<Edge>)
    requires p !in r && NoDup(preds)
    requires forall a: nat, b: nat :: (a, b) in preds <==> b == p.1 && (a, p.0) in e
    ensures |Arrivals(e, r + {p})| == |Arrivals(e, r)| + |preds|
  {
    var fresh' := seq(|preds|, k requires 0 <= k < |preds| => ((preds[k].0, p.0), p));
    forall i, j | 0 <= i < j < |preds| ensures fresh'[i] != fresh'[j] {
      assert preds[i] in preds && preds[j] in preds;
      assert (preds[i].0, preds[i].1) in preds && (preds[j].0, preds[j].1) in preds;
    }
    NoDupLength(fresh');
    forall q | q in e && q.1 == p.0 ensures (q, p) in Elems(fresh') {
      assert (q.0, p.1) in preds;
      var k :| 0 <= k < |preds| && preds[k] == (q.0, p.1);
      assert fresh'[k] == (q, p);
    }
    forall t | t in Elems(fresh') ensures t.0 in e && t.0.1 == p.0 && t.1 == p {
      var k :| 0 <= k < |preds| && fresh'[k] == t;
      assert (preds[k].0, preds[k].1) in preds;
    }
    assert Arrivals(e, r + {p}) == Arrivals(e, r) + Elems(fresh');
    assert Arrivals(e, r) !! Elems(fresh');
  }

  lemma ArrivalsMonotone(e: Rel, r: Rel, r': Rel)
    requires r <= r'
    ensures |Arrivals(e, r)| <= |Arrivals(e, r')|
  {
    assert Arrivals(e, r) <= Arrivals(e, r');
    SubsetSize(Arrivals(e, r), Arrivals(e, r'));
  }

  /** Over-deletion never leaves a stale pair behind, even on a cycle. */
  lemma KeptPairsStillHold(e: Rel, s: nat, o: nat, over: Rel)
    requires (s, o) in e && OverDeleted(e - {(s, o)}, Closure(e), s, o, over)
    ensures Closure(e) - over <= Closure(e - {(s, o)}) <= Closure(e)
  {
    var c, e' := Closure(e), e - {(s, o)};
    var c' := Closure(e');
    ClosureContains(e);
    ClosureTransitive(e);
    ClosureContains(e');
    ClosureTransitive(e');
    ClosureMonotone(e', e);
    ClosureLeast(e, c' + over);
  }

  lemma OverDeletionSound(e: Rel, s: nat, o: nat, kept: Rel)
    requires (s, o) in e && kept <= Closure(e)
    requires OverDeleted(e - {(s, o)}, Closure(e), s, o, Closure(e) - kept)
    ensures kept <= Closure(e - {(s, o)}) <= Closure(e)
  {
    KeptPairsStillHold(e, s, o, Closure(e) - kept);
    assert Closure(e) - (Closure(e) - kept) == kept;
  }

  /** A base out-edge of x that witnesses reaching y. */
  ghost predicate Supported(e: Rel, closed: Rel, x: nat, y: nat) {
    exists z :: (x, z) in e && (z == y || (z, y) in closed)
  }

  lemma SupportIsDerivation(e: Rel, closed: Rel, x: nat, y: nat)
    requires closed <= Closure(e) && Supported(e, closed, x, y)
    ensures (x, y) in Closure(e)
  {
    ClosureContains(e);
    ClosureTransitive(e);
  }

  /** Once no dropped pair has support, nothing derivable is missing. */
  lemma RederivedAll(e: Rel, c: Rel, closed: Rel)
    requires Closure(e) <= c && closed <= Closure(e)
    requires forall x, y :: (x, y) in c && Supported(e, closed, x, y) ==> (x, y) in closed
    ensures closed == Closure(e)
  {
    ClosureContains(e);
    ClosureTransitive(e);
    forall p | p in e ensures p in closed {
      assert Supported(e, closed, p.0, p.1);
    }
    forall x, z, y | (x, z) in e && (z, y) in closed ensures (x, y) in closed {
      assert Supported(e, closed, x, y);
    }
    ClosureLeast(e, closed);
  }

  lemma DeltaDrop(over: seq<Edge>, c: Rel, closed: Rel, p: Edge)
    requires IsDelta(over, closed, c) && p in closed
    ensures IsDelta(over + [p], closed - {p}, c)
  {
    Snoc(over, p);
    assert p !in Elems(over);
    assert Elems(over + [p]) == c - (closed - {p});
  }

  // ----- loop invariants of the retraction worklists

  /** Over-deletion in progress: a pair that must still go is queued. */
  ghost predicate Cascading(e': Rel, c: Rel, closed: Rel, s: nat, o: nat, queue: seq<Edge>) {
    && closed <= c
    && (forall y :: y in Forth(c, o) && (s, y) in closed ==> (s, y) in queue)
    && (forall w, x, y :: (w, x) in e' && (x, y) in c - closed && (w, y) in closed ==> (w, y) in queue)
  }

  lemma CascadeSkip(e': Rel, c: Rel, closed: Rel, s: nat, o: nat, queue: seq<Edge>)
    requires queue != [] && Cascading(e', c, closed, s, o, queue)
    requires queue[|queue| - 1] !in closed
    ensures Cascading(e', c, closed, s, o, queue[..|queue| - 1])
  {
    assert queue == queue[..|queue| - 1] + [queue[|queue| - 1]];
  }

  lemma CascadeDrop(e': Rel, c: Rel, closed: Rel, s: nat, o: nat, queue: seq<Edge>, preds: seq<Edge>)
    requires queue != [] && Cascading(e', c, closed, s, o, queue)
    requires var p := queue[|queue| - 1]; forall w :: (w, p.0) in e' ==> (w, p.1) in preds
    ensures Cascading(e', c, closed - {queue[|queue| - 1]}, s, o, queue[..|queue| - 1] + preds)
  {
    assert queue == queue[..|queue| - 1] + [queue[|queue| - 1]];
  }

  lemma StartCascade(e': Rel, s: nat, o: nat, queue: seq<Edge>)
    requires Elems(queue) == Box({s}, Forth(Closure(e' + {(s, o)}), o))
    ensures var c := Closure(e' + {(s, o)});
      && Cascading(e', c, c, s, o, queue) && Elems(queue) <= Affected(c, s, o)
      && IsDelta([], c, c) && Elems<Edge>([]) == {}
  {
    var c := Closure(e' + {(s, o)});
    assert forall y :: y in Forth(c, o) ==> (s, y) in Elems(queue);
  }

  lemma CascadeDone(e': Rel, c: Rel, closed: Rel, s: nat, o: nat)
    requires Cascading(e', c, closed, s, o, [])
    ensures OverDeleted(e', c, s, o, c - closed)
  {
  }

  lemma PopLast(queue: seq<Edge>)
    requires queue != []
    ensures queue[|queue| - 1] in Elems(queue) && Elems(queue[..|queue| - 1]) <= Elems(queue)
  {
  }

  lemma PredecessorsAffected(e': Rel, s: nat, o: nat, p: Edge, preds: seq<Edge>)
    requires p in Affected(Closure(e' + {(s, o)}), s, o)
    requires forall a: nat, b: nat :: (a, b) in preds <==> b == p.1 && (a, p.0) in e'
    ensures Elems(preds) <= Affected(Closure(e' + {(s, o)}), s, o)
  {
    var e := e' + {(s, o)};
    ClosureContains(e);
    ClosureTransitive(e);
    forall q | q in Elems(preds) ensures q in Affected(Closure(e), s, o) {
      assert (q.0, q.1) in preds;
      AffectedBefore(Closure(e), s, o, q.0, p.0, p.1);
    }
  }

  lemma OverDeletesBox(e': Rel, s: nat, o: nat, over: seq<Edge>, closed: Rel)
    requires (s, o) !in e' && IsDelta(over, closed, Closure(e' + {(s, o)}))
    requires OverDeleted(e', Closure(e' + {(s, o)}), s, o, Closure(e' + {(s, o)}) - closed)
    requires Elems(over) <= Affected(Closure(e' + {(s, o)}), s, o)
    ensures Closure(e' + {(s, o)}) - closed == Affected(Closure(e' + {(s, o)}), s, o)
    ensures |over| == |Affected(Closure(e' + {(s, o)}), s, o)|
  {
    var e := e' + {(s, o)};
    assert e - {(s, o)} == e';
    OverDeletesAffected(e, s, o, Closure(e) - closed);
    NoDupLength(over);
  }

  /** Re-derivation in progress: a missing pair that has support is queued. */
  ghost predicate Rederiving(e': Rel, c: Rel, closed: Rel, queue: seq<Edge>) {
    && closed <= Closure(e')
    && (forall x, y :: (x, y) in c && Supported(e', closed, x, y) && (x, y) !in closed ==> (x, y) in queue)
  }

  lemma StartRederive(e': Rel, c: Rel, closed: Rel, over: seq<Edge>)
    requires closed <= Closure(e') && IsDelta(over, closed, c)
    ensures Rederiving(e', c, closed, over) && closed - closed == {} && |Arrivals(e', {})| == 0
  {
    assert forall p :: p in over <==> p in Elems(over);
    assert Arrivals(e', {}) == {};
  }

  lemma RederivingIsSound(e': Rel, c: Rel, closed: Rel, queue: seq<Edge>)
    requires Rederiving(e', c, closed, queue)
    ensures closed <= Closure(e')
  {
  }

  lemma RederiveDone(e': Rel, c: Rel, closed: Rel)
    requires Closure(e') <= c && Rederiving(e', c, closed, [])
    ensures closed == Closure(e')
  {
    RederivedAll(e', c, closed);
  }

  /** How many pairs a retraction may look at: the affected box twice, and once more for each base
      edge that leads into it. */
  ghost function ProbeBound(e': Rel, c: Rel, s: nat, o: nat): nat {
    2 * |Affected(c, s, o)| + |Arrivals(e', Affected(c, s, o))|
  }

  lemma RederiveSkip(e': Rel, c: Rel, closed: Rel, queue: seq<Edge>)
    requires queue != [] && Rederiving(e', c, closed, queue)
    requires var p := queue[|queue| - 1]; p in closed || !Supported(e', closed, p.0, p.1)
    ensures Rederiving(e', c, closed, queue[..|queue| - 1])
  {
    assert queue == queue[..|queue| - 1] + [queue[|queue| - 1]];
  }

  lemma RederiveAdd(e': Rel, c: Rel, closed: Rel, queue: seq<Edge>, preds: seq<Edge>)
    requires queue != [] && Rederiving(e', c, closed, queue)
    requires var p := queue[|queue| - 1];
      Supported(e', closed, p.0, p.1) && forall w :: (w, p.0) in e' ==> (w, p.1) in preds
    ensures Rederiving(e', c, closed + {queue[|queue| - 1]}, queue[..|queue| - 1] + preds)
  {
    var p := queue[|queue| - 1];
    SupportIsDerivation(e', closed, p.0, p.1);
    var closed' := closed + {p};
    forall x, y | (x, y) in c && Supported(e', closed', x, y) && (x, y) !in closed'
      ensures (x, y) in queue[..|queue| - 1] + preds
    {
      var z :| (x, z) in e' && (z == y || (z, y) in closed');
      if !Supported(e', closed, x, y) {
        assert (z, y) == p;
      }
    }
  }

  /** Depth-first search in progress: a successor not yet reached is on the stack. */
  ghost predicate Exploring(e: Rel, start: nat, reached: set<nat>, stack: seq<nat>) {
    && (forall y :: (start, y) in e ==> y in reached || y in stack)
    && (forall n, m :: n in reached && (n, m) in e ==> m in reached || m in stack)
    && (forall y: nat :: y in reached || y in stack ==> (start, y) in Closure(e))
  }

  lemma ExploreSkip(e: Rel, start: nat, reached: set<nat>, stack: seq<nat>)
    requires stack != [] && Exploring(e, start, reached, stack) && stack[|stack| - 1] in reached
    ensures Exploring(e, start, reached, stack[..|stack| - 1])
  {
    assert stack == stack[..|stack| - 1] + [stack[|stack| - 1]];
  }

  lemma ExploreStep(e: Rel, start: nat, reached: set<nat>, stack: seq<nat>, next: seq<nat>)
    requires stack != [] && Exploring(e, start, reached, stack)
    requires var n := stack[|stack| - 1]; forall m: nat ::
      (m in next ==> (n, m) in e) && ((n, m) in e ==> m in reached || m == n || m in next)
    ensures Exploring(e, start, reached + {stack[|stack| - 1]}, stack[..|stack| - 1] + next)
  {
    assert stack == stack[..|stack| - 1] + [stack[|stack| - 1]];
    ClosureContains(e);
    ClosureTransitive(e);
  }

  lemma ExploredAll(e: Rel, start: nat, reached: set<nat>)
    requires Exploring(e, start, reached, [])
    ensures forall y :: (start, y) in Closure(e) <==> y in reached
  {
    var t := set p | p in Closure(e) && (p.0 == start || p.0 in reached ==> p.1 in reached);
    ClosureContains(e);
    ClosureTransitive(e);
    ClosureLeast(e, t);
  }

  ghost function LostPairs(sources: set<nat>, targets: set<nat>, c: Rel, c': Rel): Rel {
    Box(sources, targets) * c - c'
  }

  /** Recomputing the affected region finds exactly the lost pairs. */
  lemma RecomputeSound(e: Rel, s: nat, o: nat)
    requires (s, o) in e
    ensures var c, c' := Closure(e), Closure(e - {(s, o)});
      c' <= c && LostPairs(Back(c, s), Forth(c, o), c, c') == c - c' && c - (c - c') == c'
  {
    LostPairsAreAffected(e, s, o);
  }

  lemma LostStep(done: set<nat>, x: nat, targets: set<nat>, c: Rel, c': Rel)
    ensures LostPairs(done + {x}, targets, c, c') == LostPairs(done, targets, c, c') + LostPairs({x}, targets, c, c')
    ensures x !in done ==> LostPairs(done, targets, c, c') !! LostPairs({x}, targets, c, c')
  {
  }

  /** What retracting one base edge promises, whichever strategy is used. */
  ghost predicate Retracted(e: Rel, c: Rel, s: nat, o: nat, e': Rel, c': Rel, out: DeleteOutcome) {
    && e' == e - {(s, o)}
    && IsDelta(out.withdrawn, c', c)
    && out.survived == if (s, o) in e && (s, o) in c' then [(s, o)] else []
  }

  lemma NothingRetracted(e: Rel, c: Rel, s: nat, o: nat)
    requires (s, o) !in e
    ensures Retracted(e, c, s, o, e, c, DeleteOutcome([], [])) && e - {(s, o)} == e
  {
    assert Elems<Edge>([]) == {};
  }

  lemma RetractedBy(e: Rel, c: Rel, s: nat, o: nat, c': Rel, withdrawn: seq<Edge>, survived: seq<Edge>)
    requires (s, o) in e && IsDelta(withdrawn, c', c) && survived == if (s, o) in c' then [(s, o)] else []
    ensures Retracted(e, c, s, o, e - {(s, o)}, c', DeleteOutcome(withdrawn, survived))
  {
  }

  lemma DeltaEnds(over: seq<Edge>, closed: Rel, c: Rel)
    requires IsDelta(over, closed, c)
    ensures closed <= c && c - (c - closed) == closed && |over| == |c - closed|
  {
    NoDupLength(over);
  }

  /** Batch retraction in progress: the candidates cover every deleted base edge still closed. */
  ghost predicate SurvivorsSoFar(survived: seq<Edge>, done: Rel, base0: Rel, closed: Rel) {
    NoDup(survived) && done * base0 * closed <= Elems(survived) <= done * base0
  }

  lemma SurvivorStep(survived: seq<Edge>, done: Rel, base0: Rel, e: Rel, c: Rel, p: Edge, e': Rel, c': Rel,
                     out: DeleteOutcome)
    requires SurvivorsSoFar(survived, done, base0, c) && e == base0 - done
    requires Retracted(e, c, p.0, p.1, e', c', out)
    ensures SurvivorsSoFar(survived + out.survived, done + {p}, base0, c')
    ensures e' == base0 - (done + {p})
  {
    Join(survived, out.survived);
  }

  lemma DeltaExtend(d: seq<Edge>, d': seq<Edge>, c0: Rel, c1: Rel, c2: Rel)
    requires IsDelta(d, c0, c1) && IsDelta(d', c1, c2)
    ensures IsDelta(d + d', c0, c2)
  {
    Join(d, d');
  }

  lemma DeltaUndo(d: seq<Edge>, c0: Rel, c: Rel)
    requires IsDelta(d, c0, c)
    ensures c - Elems(d) == c0
  {
  }

  lemma DeltaChain(d: seq<Edge>, d': seq<Edge>, c0: Rel, c1: Rel, c2: Rel)
    requires IsDelta(d, c1, c0) && IsDelta(d', c2, c1)
    ensures IsDelta(d + d', c2, c0)
  {
    Join(d, d');
  }

  class IncrementalTransitiveClosure {
    var fwd: Adj       // closed adjacency
    var bwd: Adj
    var base: Adj      // asserted edges
    var bwdBase: Adj
    var nnz: nat
    var strategy: DeleteStrategy
    var lastDeleteProbes: nat

    ghost var Closed: Rel
    ghost var Base: Rel

    /** The four maps index the two relations, and `nnz` counts the closed pairs. */
    ghost predicate Coherent()
      reads this`fwd, this`bwd, this`nnz, this`Closed, this`base, this`bwdBase, this`Base
    {
      Indexes(fwd, bwd, Closed) && Indexes(base, bwdBase, Base) && nnz == |Closed|
    }

    ghost predicate Valid()
      reads this`fwd, this`bwd, this`nnz, this`Closed, this`base, this`bwdBase, this`Base
    {
      Coherent() && Closed == Closure(Base)
    }

    constructor ()
      ensures Valid() && Base == {} && Closed == {} && strategy == SupportCounting
    {
      fwd, bwd, base, bwdBase := map[], map[], map[], map[];
      nnz, strategy, lastDeleteProbes, Closed, Base := 0, SupportCounting, 0, {}, {};
      new;
      ClosureFixed({});
    }

    /** Seed from an edge set the caller guarantees to be closed; the edges double as the base. */
    constructor FromClosedEdges(edges: seq<Edge>)
      ensures Coherent() && Base == Elems(edges) && Closed == Elems(edges)
      ensures Transitive(Elems(edges)) ==> Valid()
      ensures strategy == SupportCounting
    {
      fwd, bwd, base, bwdBase := map[], map[], map[], map[];
      nnz, strategy, lastDeleteProbes, Closed, Base := 0, SupportCounting, 0, {}, {};
      new;
      var i := 0;
      while i < |edges|
        invariant 0 <= i <= |edges| && Coherent() && strategy == SupportCounting
        invariant Base == Elems(edges[..i]) && Closed == Elems(edges[..i])
      {
        var (s, o) := edges[i];
        TakeNext(edges, i);
        var _ := AddClosed(s, o);
        var _ := AddBaseEdge(s, o);
        i := i + 1;
      }
      ClosureFixed(Elems(edges));
    }

    /** Seed from the asserted base, folding edges in one at a time. */
    constructor FromBaseEdges(edges: seq<Edge>)
      ensures Valid() && Base == Elems(edges) && strategy == SupportCounting
    {
      fwd, bwd, base, bwdBase := map[], map[], map[], map[];
      nnz, strategy, lastDeleteProbes, Closed, Base := 0, SupportCounting, 0, {}, {};
      new;
      ClosureFixed({});
      var i := 0;
      while i < |edges|
        invariant 0 <= i <= |edges| && Valid() && strategy == SupportCounting
        invariant Base == Elems(edges[..i])
      {
        TakeNext(edges, i);
        var _, _ := InsertEdgeTracked(edges[i].0, edges[i].1);
        i := i + 1;
      }
    }

    method AddBaseEdge(s: nat, o: nat) returns (wasNew: bool)
      requires Coherent()
      modifies this`base, this`bwdBase, this`Base
      ensures Coherent() && Base == old(Base) + {(s, o)}
      ensures wasNew <==> (s, o) !in old(Base)
    {
      wasNew := o !in Row(base, s);
      IndexesPut(base, bwdBase, Base, s, o);
      base := Put(base, s, o);
      bwdBase, Base := Put(bwdBase, o, s), Base + {(s, o)};
    }

    method AddClosed(x: nat, y: nat) returns (isNew: bool)
      requires Coherent()
      modifies this`fwd, this`bwd, this`nnz, this`Closed
      ensures Coherent() && Closed == old(Closed) + {(x, y)}
      ensures isNew <==> (x, y) !in old(Closed)
    {
      IndexesPut(fwd, bwd, Closed, x, y);
      isNew := y !in Row(fwd, x);
      if isNew {
        fwd := Put(fwd, x, y);
        bwd := Put(bwd, y, x);
        nnz, Closed := nnz + 1, Closed + {(x, y)};
      }
    }

    method DropClosed(x: nat, y: nat)
      requires Coherent()
      modifies this`fwd, this`bwd, this`nnz, this`Closed
      ensures Coherent() && Closed == old(Closed) - {(x, y)}
      ensures nnz == old(nnz) - if (x, y) in old(Closed) then 1 else 0
    {
      IndexesDrop(fwd, bwd, Closed, x, y);
      if y in Row(fwd, x) {
        assert nnz >= 1;
        fwd := Drop(fwd, x, y);
        bwd := Drop(bwd, y, x);
        nnz, Closed := nnz - 1, Closed - {(x, y)};
      }
    }

    /** Remove the pairs one at a time: undoing an insertion's delta, or applying a retraction's. */
    method RollbackInserted(edges: seq<Edge>)
      requires Coherent()
      modifies this`fwd, this`bwd, this`nnz, this`Closed
      ensures Coherent() && Closed == old(Closed) - Elems(edges)
    {
      hide Coherent;
      var i := 0;
      while i < |edges|
        invariant 0 <= i <= |edges| && Coherent()
        invariant Closed == old(Closed) - Elems(edges[..i])
      {
        TakeNext(edges, i);
        DropClosed(edges[i].0, edges[i].1);
        i := i + 1;
      }
    }

    /** Forget one base edge in both directions, with any row it leaves empty. */
    method DropBaseEdge(s: nat, o: nat)
      requires Coherent()
      modifies this`base, this`bwdBase, this`Base
      ensures Coherent() && Base == old(Base) - {(s, o)}
    {
      IndexesDrop(base, bwdBase, Base, s, o);
      base := DropPrune(base, s, o);
      bwdBase, Base := DropPrune(bwdBase, o, s), Base - {(s, o)};
    }

    method RollbackBaseEdges(edges: seq<Edge>)
      requires Coherent()
      modifies this`base, this`bwdBase, this`Base
      ensures Coherent() && Base == old(Base) - Elems(edges)
    {
      hide Coherent;
      var i := 0;
      while i < |edges|
        invariant 0 <= i <= |edges| && Coherent()
        invariant Base == old(Base) - Elems(edges[..i])
      {
        TakeNext(edges, i);
        var (s, o) := edges[i];
        DropBaseEdge(s, o);
        i := i + 1;
      }
    }

    method RemoveBaseEdge(s: nat, o: nat) returns (wasBase: bool)
      requires Coherent()
      modifies this`base, this`bwdBase, this`Base
      ensures Coherent() && Base == old(Base) - {(s, o)}
      ensures wasBase <==> (s, o) in old(Base)
    {
      wasBase := o in Row(base, s);
      if wasBase {
        DropBaseEdge(s, o);
      }
    }

    /** The inner loop of an insertion: close (x, y) for every y of `f`, extending `delta`. */
    method AddRow(x: nat, f: seq<nat>, delta: seq<Edge>, ghost c0: Rel) returns (delta': seq<Edge>)
      requires Coherent() && IsDelta(delta, c0, Closed) && f != []
      modifies this`fwd, this`bwd, this`nnz, this`Closed
      ensures Coherent() && Closed == old(Closed) + Box({x}, Elems(f))
      ensures IsDelta(delta', c0, Closed)
    {
      hide Coherent;
      hide IsDelta;
      hide Box;
      hide Elems;
      delta' := delta;
      var j := 0;
      BoxInner(Closed, x, f, 0);
      while j < |f|
        invariant 0 <= j <= |f| && Coherent()
        invariant Closed == old(Closed) + Box({x}, Elems(f[..j]))
        invariant IsDelta(delta', c0, Closed)
      {
        BoxInner(old(Closed), x, f, j);
        DeltaStep(delta', c0, Closed, (x, f[j]));
        var isNew := AddClosed(x, f[j]);
        if isNew {
          delta' := delta' + [(x, f[j])];
        }
        j := j + 1;
      }
      assert f[..j] == f;
    }

    /** The outer loop of an insertion. */
    method AddBox(b: seq<nat>, f: seq<nat>) returns (delta: seq<Edge>)
      requires Coherent() && b != [] && f != []
      modifies this`fwd, this`bwd, this`nnz, this`Closed
      ensures Coherent() && Closed == old(Closed) + Box(Elems(b), Elems(f))
      ensures IsDelta(delta, old(Closed), Closed)
    {
      hide Coherent;
      hide Box;
      ghost var c0 := Closed;
      delta := [];
      var i := 0;
      BoxOuter(c0, b, Elems(f), 0);
      while i < |b|
        invariant 0 <= i <= |b| && Coherent()
        invariant Closed == c0 + Box(Elems(b[..i]), Elems(f))
        invariant IsDelta(delta, c0, Closed)
      {
        delta := AddRow(b[i], f, delta, c0);
        BoxOuter(c0, b, Elems(f), i);
        i := i + 1;
      }
      assert b[..i] == b;
    }

    /** B = everything reaching s, with s; F = everything o reaches, with o. */
    method Slice(s: nat, o: nat) returns (b: seq<nat>, f: seq<nat>)
      requires Coherent()
      ensures Elems(b) == Back(Closed, s) && Elems(f) == Forth(Closed, o)
      ensures b != [] && f != []
    {
      b := Listed(Row(bwd, s));
      Snoc(b, s);
      b := b + [s];
      f := Listed(Row(fwd, o));
      Snoc(f, o);
      f := f + [o];
    }

    /** Insert one asserted edge; `delta` lists the newly closed pairs, each once. */
    method InsertEdgeTracked(s: nat, o: nat) returns (delta: seq<Edge>, baseWasNew: bool)
      requires Valid()
      modifies this`fwd, this`bwd, this`nnz, this`Closed, this`base, this`bwdBase, this`Base
      ensures Valid()
      ensures Base == old(Base) + {(s, o)}
      ensures baseWasNew <==> (s, o) !in old(Base)
      ensures IsDelta(delta, old(Closed), Closed)
    {
      ClosureOfAddedEdge(Base, s, o);
      baseWasNew := AddBaseEdge(s, o);
      var b, f := Slice(s, o);
      delta := AddBox(b, f);
    }

    /** Insert a batch, folded one at a time, noting which base edges the batch itself added. */
    method InsertEdges(edges: seq<Edge>) returns (delta: seq<Edge>, newBase: seq<Edge>)
      requires Valid()
      modifies this`fwd, this`bwd, this`nnz, this`Closed, this`base, this`bwdBase, this`Base
      ensures Valid() && Base == old(Base) + Elems(edges)
      ensures IsDelta(delta, old(Closed), Closed) && IsDelta(newBase, old(Base), Base)
    {
      hide Closure;
      delta, newBase := [], [];
      var i := 0;
      while i < |edges|
        invariant 0 <= i <= |edges| && Valid() && Base == old(Base) + Elems(edges[..i])
        invariant IsDelta(delta, old(Closed), Closed) && IsDelta(newBase, old(Base), Base)
      {
        ghost var c, e := Closed, Base;
        var edgeDelta, baseWasNew := InsertEdgeTracked(edges[i].0, edges[i].1);
        TakeNext(edges, i);
        DeltaExtend(delta, edgeDelta, old(Closed), c, Closed);
        DeltaStep(newBase, old(Base), e, edges[i]);
        delta := delta + edgeDelta;
        if baseWasNew {
          newBase := newBase + [edges[i]];
        }
        i := i + 1;
      }
      assert edges[..i] == edges;
    }

    /** Undo a batch: both relations return to what they were. */
    method Rollback(delta: seq<Edge>, newBase: seq<Edge>, ghost c0: Rel, ghost e0: Rel)
      requires Valid() && IsDelta(delta, c0, Closed) && IsDelta(newBase, e0, Base) && c0 == Closure(e0)
      modifies this`fwd, this`bwd, this`nnz, this`Closed, this`base, this`bwdBase, this`Base
      ensures Valid() && Closed == c0 && Base == e0
    {
      DeltaUndo(delta, c0, Closed);
      DeltaUndo(newBase, e0, Base);
      RollbackInserted(delta);
      RollbackBaseEdges(newBase);
    }

    // ----- retraction

    /** Base successors of `n` outside `seen`. */
    method Successors(n: nat, seen: set<nat>) returns (v: seq<nat>)
      requires Coherent()
      ensures forall m: nat :: m in v <==> (n, m) in Base && m !in seen
    {
      v := Listed(Row(base, n) - seen);
      assert forall m: nat :: m in v <==> m in Elems(v);
    }

    /** Nodes joined to `start` by a non-empty walk over the asserted edges. */
    method BaseReach(start: nat) returns (reached: set<nat>)
      requires Coherent()
      ensures forall y :: (start, y) in Closure(Base) <==> y in reached
    {
      ghost var e := Base;
      ClosureContains(e);
      reached := {};
      var stack := Successors(start, {});
      while stack != []
        invariant Exploring(e, start, reached, stack)
        decreases Forth(Closure(e), start) - reached, |stack|
      {
        var n := stack[|stack| - 1];
        if n in reached {
          ExploreSkip(e, start, reached, stack);
          stack := stack[..|stack| - 1];
        } else {
          assert n in Forth(Closure(e), start);
          var next := Successors(n, reached + {n});
          ExploreStep(e, start, reached, stack, next);
          reached := reached + {n};
          stack := stack[..|stack| - 1] + next;
        }
      }
      ExploredAll(e, start, reached);
    }

    method AffectedSlice(s: nat, o: nat) returns (sources: set<nat>, targets: set<nat>)
      requires Coherent()
      ensures sources == Back(Closed, s) && targets == Forth(Closed, o)
    {
      IndexesRow(fwd, bwd, Closed, s);
      IndexesRow(fwd, bwd, Closed, o);
      sources, targets := Row(bwd, s) + {s}, Row(fwd, o) + {o};
    }

    /** The lost pairs with source `x`: candidates the remaining base no longer reaches. */
    method LostFrom(x: nat, targets: set<nat>) returns (lost: seq<Edge>)
      requires Coherent()
      ensures NoDup(lost) && Elems(lost) == LostPairs({x}, targets, Closed, Closure(Base))
    {
      var candidates := Row(fwd, x) * targets;
      if candidates == {} {
        RowMisses(fwd, bwd, Closed, x, targets);
        return [];
      }
      var reach := BaseReach(x);
      RowLost(fwd, bwd, Closed, Closure(Base), x, targets, reach);
      lost := Paired(x, candidates - reach);
    }

    /** Every lost pair, one affected source at a time. */
    method AllLost(sources: set<nat>, targets: set<nat>) returns (withdrawn: seq<Edge>)
      requires Coherent()
      ensures NoDup(withdrawn) && Elems(withdrawn) == LostPairs(sources, targets, Closed, Closure(Base))
    {
      withdrawn := [];
      var done, rest := {}, sources;
      while rest != {}
        invariant done + rest == sources && done !! rest
        invariant NoDup(withdrawn) && Elems(withdrawn) == LostPairs(done, targets, Closed, Closure(Base))
      {
        var x :| x in rest;
        var lost := LostFrom(x, targets);
        LostStep(done, x, targets, Closed, Closure(Base));
        Join(withdrawn, lost);
        withdrawn := withdrawn + lost;
        done, rest := done + {x}, rest - {x};
      }
      assert done == sources;
    }

    method Survivor(s: nat, o: nat) returns (survived: seq<Edge>)
      requires Coherent()
      ensures survived == if (s, o) in Closed then [(s, o)] else []
    {
      survived := if o in Row(fwd, s) then [(s, o)] else [];
      assert (s, o) in Closed <==> o in Row(fwd, s);
    }

    /** Retract (s, o) by recomputing reachability for every affected source. */
    method DeleteEdgeRecompute(s: nat, o: nat) returns (out: DeleteOutcome)
      requires Valid()
      modifies this`fwd, this`bwd, this`nnz, this`Closed, this`base, this`bwdBase, this`Base
      ensures Valid() && Retracted(old(Base), old(Closed), s, o, Base, Closed, out)
    {
      hide Closure;
      hide LostPairs;
      var wasBase := RemoveBaseEdge(s, o);
      if !wasBase {
        assert Base == old(Base);
        return DeleteOutcome([], []);
      }
      var sources, targets := AffectedSlice(s, o);
      var withdrawn := AllLost(sources, targets);
      RecomputeSound(old(Base), s, o);
      RollbackInserted(withdrawn);
      var survived := Survivor(s, o);
      out := DeleteOutcome(withdrawn, survived);
    }

    /** Base predecessors of `x`, each paired with the column `y`. */
    method PredecessorPairs(x: nat, y: nat) returns (preds: seq<Edge>)
      requires Coherent()
      ensures NoDup(preds) && forall a: nat, b: nat :: (a, b) in preds <==> b == y && (a, x) in Base
    {
      var ws := Listed(Row(bwdBase, x));
      assert forall w: nat :: w in ws <==> w in Elems(ws);
      preds := [];
      var i := 0;
      while i < |ws|
        invariant 0 <= i <= |ws| && |preds| == i
        invariant forall k :: 0 <= k < i ==> preds[k] == (ws[k], y)
      {
        preds := preds + [(ws[i], y)];
        i := i + 1;
      }
      forall a: nat, b: nat ensures (a, b) in preds <==> b == y && (a, x) in Base {
        if b == y && (a, x) in Base {
          var k :| 0 <= k < |ws| && ws[k] == a;
          assert preds[k] == (a, b);
        }
      }
    }

    lemma InRow(x: nat, y: nat)
      requires Coherent()
      ensures (x, y) in Closed <==> y in Row(fwd, x)
    {
      PairInRow(fwd, bwd, Closed, x, y);
    }

    /** First phase of a retraction.  Starting from the pairs (s, y) with y at or behind o, walk
        backward over base edges and drop every closed pair met.  What goes is exactly the affected
        box, one pair per probe, whether or not other edges still entail it. */
    method OverDelete(s: nat, o: nat, targets: set<nat>) returns (over: seq<Edge>)
      requires Coherent() && targets == Forth(Closed, o) && Closed == Closure(Base + {(s, o)})
      requires (s, o) !in Base
      modifies this`fwd, this`bwd, this`nnz, this`Closed, this`lastDeleteProbes
      ensures Coherent() && IsDelta(over, Closed, old(Closed))
      ensures OverDeleted(Base, old(Closed), s, o, old(Closed) - Closed)
      ensures old(Closed) - Closed == Affected(old(Closed), s, o)
      ensures lastDeleteProbes == old(lastDeleteProbes) + |Affected(old(Closed), s, o)|
    {
      hide Coherent;
      hide Cascading;
      hide OverDeleted;
      hide IsDelta;
      hide Elems;
      hide Affected;
      hide Closure;
      ghost var c, box := Closed, Affected(Closed, s, o);
      var affected: set<Edge> := {};
      over := [];
      var queue := Paired(s, targets);
      StartCascade(Base, s, o, queue);
      while queue != []
        invariant Coherent() && Cascading(Base, c, Closed, s, o, queue)
        invariant IsDelta(over, Closed, c) && affected !! Closed
        invariant Elems(queue) <= box && Elems(over) <= box
        invariant lastDeleteProbes == old(lastDeleteProbes) + |over|
        decreases nnz, |queue|
      {
        var p := queue[|queue| - 1];
        var (x, y) := p;
        PopLast(queue);
        InRow(x, y);
        if p in affected || y !in Row(fwd, x) {
          CascadeSkip(Base, c, Closed, s, o, queue);
          affected := affected + {p};
          queue := queue[..|queue| - 1];
        } else {
          affected := affected + {p};
          lastDeleteProbes := lastDeleteProbes + 1;
          DeltaDrop(over, c, Closed, p);
          Snoc(over, p);
          over := over + [p];
          var preds := PredecessorPairs(x, y);
          PredecessorsAffected(Base, s, o, p, preds);
          CascadeDrop(Base, c, Closed, s, o, queue, preds);
          DropClosed(x, y);
          Join(queue[..|queue| - 1], preds);
          queue := queue[..|queue| - 1] + preds;
        }
      }
      CascadeDone(Base, c, Closed, s, o);
      OverDeletesBox(Base, s, o, over, Closed);
    }

    /** Base out-edges of `x` that witness reaching `y`. */
    function Support(x: nat, y: nat): nat
      reads this`base, this`fwd
    {
      |set z | z in Row(base, x) && (z == y || y in Row(fwd, z))|
    }

    lemma SupportCounts(x: nat, y: nat)
      requires Coherent()
      ensures Support(x, y) >= 1 <==> Supported(Base, Closed, x, y)
    {
      var witnesses := set z | z in Row(base, x) && (z == y || y in Row(fwd, z));
      assert forall z: nat {:trigger z in witnesses} ::
        z in witnesses <==> (x, z) in Base && (z == y || (z, y) in Closed);
      if Supported(Base, Closed, x, y) {
        var z :| (x, z) in Base && (z == y || (z, y) in Closed);
        assert z in witnesses;
      }
      if witnesses != {} {
        var z :| z in witnesses;
        assert (x, z) in Base;
      }
    }

    /** Second phase: restore, until nothing changes, each dropped pair that some base edge still
        derives.  A pair is tried once for being dropped and once for each base edge that leads from
        it to a restored one. */
    method Rederive(over: seq<Edge>, ghost c: Rel)
      requires Coherent() && Closed <= Closure(Base) <= c && IsDelta(over, Closed, c)
      modifies this`fwd, this`bwd, this`nnz, this`Closed, this`lastDeleteProbes
      ensures Valid() && old(Closed) <= Closed
      ensures lastDeleteProbes <= old(lastDeleteProbes) + |over| + |Arrivals(Base, Closed - old(Closed))|
    {
      hide Coherent;
      hide Rederiving;
      hide Arrivals;
      hide Closure;
      hide Elems;
      hide NoDup;
      hide Supported;
      ghost var e, kept := Base, Closed;
      var queue := over;
      StartRederive(e, c, Closed, over);
      while queue != []
        invariant Coherent() && Rederiving(e, c, Closed, queue) && kept <= Closed
        invariant lastDeleteProbes + |queue| <= old(lastDeleteProbes) + |over| + |Arrivals(e, Closed - kept)|
        decreases Closure(e) - Closed, |queue|
      {
        var p := queue[|queue| - 1];
        var (x, y) := p;
        InRow(x, y);
        SupportCounts(x, y);
        if y in Row(fwd, x) {
          RederiveSkip(e, c, Closed, queue);
          queue := queue[..|queue| - 1];
        } else {
          lastDeleteProbes := lastDeleteProbes + 1;
          if Support(x, y) >= 1 {
            var preds := PredecessorPairs(x, y);
            RederiveAdd(e, c, Closed, queue, preds);
            RederivingIsSound(e, c, Closed, queue);
            SupportIsDerivation(e, Closed, x, y);
            ArrivalsNext(e, Closed - kept, p, preds);
            assert Closed + {p} - kept == Closed - kept + {p};
            var _ := AddClosed(x, y);
            queue := queue[..|queue| - 1] + preds;
          } else {
            RederiveSkip(e, c, Closed, queue);
            queue := queue[..|queue| - 1];
          }
        }
      }
      RederiveDone(e, c, Closed);
      IsClosed();
    }

    lemma IsClosed()
      requires Coherent() && Closed == Closure(Base)
      ensures Valid()
    {
    }

    /** Over-deleted pairs that were not put back. */
    method StillMissing(over: seq<Edge>, ghost kept: Rel, ghost c: Rel) returns (withdrawn: seq<Edge>)
      requires Coherent() && IsDelta(over, kept, c) && kept <= Closed <= c
      ensures IsDelta(withdrawn, Closed, c)
    {
      withdrawn := [];
      var i := 0;
      while i < |over|
        invariant 0 <= i <= |over|
        invariant NoDup(withdrawn) && Elems(withdrawn) == Elems(over[..i]) - Closed
      {
        TakeNext(over, i);
        var (x, y) := over[i];
        assert (x, y) in Closed <==> y in Row(fwd, x);
        if y !in Row(fwd, x) {
          assert over[i] !in over[..i];
          Snoc(withdrawn, over[i]);
          withdrawn := withdrawn + [over[i]];
        }
        i := i + 1;
      }
      assert over[..i] == over;
    }

    /** Retract (s, o) by over-deleting what could have used it, then re-deriving.  The work depends
        on the affected box alone, not on the rest of the store. */
    method DeleteEdgeSupportCounting(s: nat, o: nat) returns (out: DeleteOutcome)
      requires Valid()
      modifies this`fwd, this`bwd, this`nnz, this`Closed, this`base, this`bwdBase, this`Base, this`lastDeleteProbes
      ensures Valid() && Retracted(old(Base), old(Closed), s, o, Base, Closed, out)
      ensures lastDeleteProbes <= old(lastDeleteProbes) +
                if (s, o) in old(Base) then ProbeBound(Base, old(Closed), s, o) else 0
    {
      hide Coherent;
      hide Closure;
      hide Arrivals;
      hide Affected;
      hide OverDeleted;
      hide IsDelta;
      hide Retracted;
      ghost var c := Closed;
      var wasBase := RemoveBaseEdge(s, o);
      if !wasBase {
        NothingRetracted(old(Base), c, s, o);
        return DeleteOutcome([], []);
      }
      assert Base + {(s, o)} == old(Base) && Base == old(Base) - {(s, o)};
      var _, targets := AffectedSlice(s, o);
      var over := OverDelete(s, o, targets);
      ghost var kept := Closed;
      DeltaEnds(over, kept, c);
      OverDeletionSound(old(Base), s, o, kept);
      Rederive(over, c);
      ArrivalsMonotone(Base, Closed - kept, Affected(c, s, o));
      var withdrawn := StillMissing(over, kept, c);
      var survived := Survivor(s, o);
      out := DeleteOutcome(withdrawn, survived);
      RetractedBy(old(Base), c, s, o, Closed, withdrawn, survived);
    }

    /** Both strategies promise the same outcome. */
    method DeleteEdge(s: nat, o: nat) returns (out: DeleteOutcome)
      requires Valid()
      modifies this`fwd, this`bwd, this`nnz, this`Closed, this`base, this`bwdBase, this`Base, this`lastDeleteProbes
      ensures Valid() && Retracted(old(Base), old(Closed), s, o, Base, Closed, out)
      ensures lastDeleteProbes <=
                if (s, o) in old(Base) && strategy == SupportCounting then ProbeBound(Base, old(Closed), s, o) else 0
    {
      hide Arrivals;
      hide Affected;
      lastDeleteProbes := 0;
      match strategy {
        case SupportCounting => out := DeleteEdgeSupportCounting(s, o);
        case Recompute => out := DeleteEdgeRecompute(s, o);
      }
    }

    /** Retract a batch, folded one at a time; a survivor counts only if it is still closed at the end. */
    method DeleteEdges(edges: seq<Edge>) returns (out: DeleteOutcome)
      requires Valid()
      modifies this`fwd, this`bwd, this`nnz, this`Closed, this`base, this`bwdBase, this`Base, this`lastDeleteProbes
      ensures Valid() && Base == old(Base) - Elems(edges)
      ensures IsDelta(out.withdrawn, Closed, old(Closed))
      ensures NoDup(out.survived) && Elems(out.survived) == Elems(edges) * old(Base) * Closed
    {
      var withdrawn: seq<Edge>, survived: seq<Edge> := [], [];
      var i := 0;
      while i < |edges|
        invariant 0 <= i <= |edges| && Valid() && Base == old(Base) - Elems(edges[..i])
        invariant IsDelta(withdrawn, Closed, old(Closed))
        invariant SurvivorsSoFar(survived, Elems(edges[..i]), old(Base), Closed)
      {
        ghost var e, c := Base, Closed;
        var one := DeleteEdge(edges[i].0, edges[i].1);
        TakeNext(edges, i);
        DeltaChain(withdrawn, one.withdrawn, old(Closed), c, Closed);
        SurvivorStep(survived, Elems(edges[..i]), old(Base), e, c, edges[i], Base, Closed, one);
        withdrawn, survived := withdrawn + one.withdrawn, survived + one.survived;
        i := i + 1;
      }
      assert edges[..i] == edges;
      survived := StillClosed(survived);
      out := DeleteOutcome(withdrawn, survived);
    }

    method StillClosed(pairs: seq<Edge>) returns (kept: seq<Edge>)
      requires Coherent() && NoDup(pairs)
      ensures NoDup(kept) && Elems(kept) == Elems(pairs) * Closed
    {
      kept := [];
      var i := 0;
      while i < |pairs|
        invariant 0 <= i <= |pairs|
        invariant NoDup(kept) && Elems(kept) == Elems(pairs[..i]) * Closed
      {
        TakeNext(pairs, i);
        var (x, y) := pairs[i];
        assert (x, y) in Closed <==> y in Row(fwd, x);
        if y in Row(fwd, x) {
          assert pairs[i] !in pairs[..i];
          Snoc(kept, pairs[i]);
          kept := kept + [pairs[i]];
        }
        i := i + 1;
      }
      assert pairs[..i] == pairs;
    }

    method BaseEdges() returns (edges: seq<Edge>)
      requires Coherent()
      ensures NoDup(edges) && Elems(edges) == Base
    {
      edges := ListedPairs(base);
      forall p: Edge ensures p in Base <==> p in edges {
        assert (p.0, p.1) in Base <==> (p.0, p.1) in edges;
      }
    }
  }
}
