/** The incremental backend: retained closure state per predicate, in dictionary ids. */
module Backend {
  import opened Wrappers
  import opened Relations
  import opened DenseIds
  import opened Incremental
  import opened Sink
  import opened Ledger

  datatype DictDeleteOutcome = DictDeleteOutcome(withdrawn: seq<Edge>, survived: seq<Edge>)

  /** A delta between dense relations is a delta between the dictionary relations they decode to. */
  lemma DecodeDelta(ids: seq<nat>, dense: seq<Edge>, pairs: seq<Edge>, c0: Rel, c: Rel)
    requires NoDup(ids) && IsDelta(dense, c0, c) && Denotes(ids, dense, pairs)
    ensures IsDelta(pairs, Decode(ids, c0), Decode(ids, c))
  {
    DenotesDecodes(ids, dense, pairs);
    DecodeUnion(ids, c, c0);
  }

  lemma DecodeTransitive(ids: seq<nat>, r: Rel)
    requires NoDup(ids) && InRange(r, |ids|) && Transitive(Decode(ids, r))
    ensures Transitive(r)
  {
    forall x, y, z | (x, y) in r && (y, z) in r ensures (x, z) in r {
      DecodeMember(ids, r, x, y);
      DecodeMember(ids, r, y, z);
      assert x < |ids| && z < |ids|;
      DecodeMember(ids, r, x, z);
      assert (ids[x], ids[z]) in Decode(ids, r);
    }
  }

  class PredicateState {
    const ids: DenseIdMap
    const closure: IncrementalTransitiveClosure

    ghost predicate Valid()
      reads ids, closure
    {
      && ids.Valid() && closure.Valid()
      && InRange(closure.Base, |ids.reverse|)
      && InRange(closure.Closed, |ids.reverse|)
    }

    /** The asserted base and the retained closure, in dictionary ids. */
    ghost function Base(): Rel
      reads ids, closure
    {
      Decode(ids.reverse, closure.Base)
    }

    ghost function Closed(): Rel
      reads ids, closure
    {
      Decode(ids.reverse, closure.Closed)
    }

    lemma ClosedIsClosure()
      requires Valid()
      ensures Closed() == Closure(Base())
    {
      DecodeClosure(ids.reverse, closure.Base);
    }

    constructor ()
      ensures Valid() && fresh(ids) && fresh(closure) && Base() == {}
    {
      ids := new DenseIdMap();
      closure := new IncrementalTransitiveClosure();
    }

    /** The caller guarantees the edges are closed; they double as a conservative base. */
    constructor FromClosed(edges: seq<Edge>)
      requires Transitive(Elems(edges))
      ensures Valid() && fresh(ids) && fresh(closure) && Base() == Elems(edges)
    {
      var m := new DenseIdMap();
      var dense := m.InternEdges(edges);
      DenotesDecodes(m.reverse, dense, edges);
      DecodeTransitive(m.reverse, Elems(dense));
      ids := m;
      closure := new IncrementalTransitiveClosure.FromClosedEdges(dense);
    }

    constructor FromBase(edges: seq<Edge>)
      ensures Valid() && fresh(ids) && fresh(closure) && Base() == Elems(edges)
    {
      var m := new DenseIdMap();
      var dense := m.InternEdges(edges);
      DenotesDecodes(m.reverse, dense, edges);
      ids := m;
      closure := new IncrementalTransitiveClosure.FromBaseEdges(dense);
      new;
      ClosureInRange(closure.Base, |ids.reverse|);
    }

    /** Intern the new endpoints; nothing the state already means changes. */
    method InternBatch(edges: seq<Edge>) returns (dense: seq<Edge>)
      requires Valid()
      modifies ids
      ensures Valid() && Base() == old(Base()) && Closed() == old(Closed())
      ensures Denotes(ids.reverse, dense, edges)
    {
      dense := ids.InternEdges(edges);
      DecodeStable(old(ids.reverse), ids.reverse, closure.Base);
      DecodeStable(old(ids.reverse), ids.reverse, closure.Closed);
    }

    /** Fold the batch in and hand the new closure pairs to the sink; if the sink refuses them,
        closure and base return to what they were. */
    method Insert(p: nat, newEdges: seq<Edge>, sink: TripleSink)
      returns (r: Result<nat, SinkError>, ghost emitted: seq<Edge>)
      requires Valid()
      modifies ids, closure, sink`store, sink`received
      ensures Valid()
      ensures r.Err? <==> sink.refusing && !(Elems(newEdges) <= old(Closed()))
      ensures r.Ok? ==> Base() == old(Base()) + Elems(newEdges)
      ensures r.Ok? ==> IsDelta(emitted, old(Closed()), Closed()) && r.value == |sink.store - old(sink.store)|
      ensures r.Ok? ==> sink.received == old(sink.received) + Tagged(p, emitted)
      ensures r.Err? ==> Base() == old(Base()) && Closed() == old(Closed()) && sink.received == old(sink.received)
    {
      hide Decode;
      hide Denotes;
      hide Closure;
      hide InRange;
      hide Elems;
      emitted := [];
      var dense := InternBatch(newEdges);
      ghost var names, e0, c0 := ids.reverse, closure.Base, closure.Closed;
      DenotesDecodes(names, dense, newEdges);
      var delta, newBase := closure.InsertEdges(dense);
      BatchDecodes(names, e0, c0, dense, newEdges, closure.Base, closure.Closed, delta);
      if delta == [] {
        assert sink.store - old(sink.store) == {};
        assert sink.received == old(sink.received) + Tagged(p, []);
        return Ok(0), [];
      }
      r, emitted := WriteClosure(p, delta, ids, sink);
      if r.Err? {
        closure.Rollback(delta, newBase, c0, e0);
      }
    }

    method Delete(edges: seq<Edge>) returns (out: DictDeleteOutcome)
      requires Valid()
      modifies closure
      ensures Valid() && Base() == old(Base()) - Elems(edges)
      ensures IsDelta(out.withdrawn, Closed(), old(Closed()))
      ensures NoDup(out.survived) && Elems(out.survived) == Elems(edges) * old(Base()) * Closed()
    {
      hide Decode;
      hide Denotes;
      var dense := KnownEdges(edges);
      ghost var names, e0, c0 := ids.reverse, closure.Base, closure.Closed;
      var inner := closure.DeleteEdges(dense);
      var withdrawn := ids.PairsToDict(inner.withdrawn);
      var survived := ids.PairsToDict(inner.survived);
      RetractionDecodes(names, e0, c0, dense, edges, closure.Base, closure.Closed, inner, withdrawn, survived);
      out := DictDeleteOutcome(withdrawn, survived);
    }

    /** Dense images of the edges whose endpoints are both known. */
    method KnownEdges(edges: seq<Edge>) returns (dense: seq<Edge>)
      requires Valid()
      ensures Known(ids.reverse, dense, edges)
    {
      hide Known;
      dense := [];
      NoneKnown(ids.reverse, edges);
      var i := 0;
      while i < |edges|
        invariant 0 <= i <= |edges| && Known(ids.reverse, dense, edges[..i])
      {
        var s, o := ids.ToDense(edges[i].0), ids.ToDense(edges[i].1);
        KnownNext(ids.reverse, dense, edges, i, s, o);
        if s.Some? && o.Some? {
          dense := dense + [(s.value, o.value)];
        }
        i := i + 1;
      }
      assert edges[..i] == edges;
    }
  }

  /** `dense` lists the images of those `edges` whose endpoints are both known. */
  ghost predicate Known(ids: seq<nat>, dense: seq<Edge>, edges: seq<Edge>) {
    forall a: nat, b: nat :: (a, b) in Elems(dense) <==> a < |ids| && b < |ids| && (ids[a], ids[b]) in edges
  }

  lemma NoneKnown(ids: seq<nat>, edges: seq<Edge>)
    ensures Known(ids, [], edges[..0])
  {
  }

  /** `d` is the index of `id`, if it has one. */
  ghost predicate Looked(ids: seq<nat>, id: nat, d: Option<nat>) {
    match d
    case None => id !in ids
    case Some(k) => k < |ids| && ids[k] == id
  }

  lemma KnownNext(ids: seq<nat>, dense: seq<Edge>, edges: seq<Edge>, i: nat, s: Option<nat>, o: Option<nat>)
    requires NoDup(ids) && i < |edges| && Known(ids, dense, edges[..i])
    requires Looked(ids, edges[i].0, s) && Looked(ids, edges[i].1, o)
    ensures Known(ids, if s.Some? && o.Some? then dense + [(s.value, o.value)] else dense, edges[..i + 1])
  {
    var dense' := if s.Some? && o.Some? then dense + [(s.value, o.value)] else dense;
    assert edges[..i + 1] == edges[..i] + [edges[i]];
    forall a: nat, b: nat
      ensures (a, b) in Elems(dense') <==> a < |ids| && b < |ids| && (ids[a], ids[b]) in edges[..i + 1]
    {
      assert (a, b) in Elems(dense') <==>
             (a, b) in Elems(dense) || (s.Some? && o.Some? && (a, b) == (s.value, o.value));
    }
  }

  /** A batch adds nothing to the closure exactly when every edge of it is already closed. */
  lemma NothingNew(e0: Rel, batch: Rel)
    ensures Closure(e0 + batch) == Closure(e0) <==> batch <= Closure(e0)
  {
    ClosureContains(e0 + batch);
    if batch <= Closure(e0) {
      ClosureOfPart(e0, batch);
      assert Closure(e0) + batch == Closure(e0);
      ClosureIdempotent(e0);
    }
  }

  lemma DecodeSubset(ids: seq<nat>, r: Rel, r': Rel)
    requires NoDup(ids) && InRange(r, |ids|)
    ensures r <= r' <==> Decode(ids, r) <= Decode(ids, r')
  {
    if Decode(ids, r) <= Decode(ids, r') {
      forall p | p in r ensures p in r' {
        DecodeMember(ids, r, p.0, p.1);
        DecodeMember(ids, r', p.0, p.1);
      }
    }
  }

  lemma BatchDecodes(ids: seq<nat>, e0: Rel, c0: Rel, dense: seq<Edge>, edges: seq<Edge>, e: Rel, c: Rel,
                     delta: seq<Edge>)
    requires NoDup(ids) && InRange(e0, |ids|) && c0 == Closure(e0) && InRange(c0, |ids|)
    requires Denotes(ids, dense, edges) && e == e0 + Elems(dense) && c == Closure(e) && IsDelta(delta, c0, c)
    ensures InRange(e, |ids|) && InRange(c, |ids|) && InRange(Elems(delta), |ids|)
    ensures Decode(ids, e) == Decode(ids, e0) + Elems(edges)
    ensures Decode(ids, c0) <= Decode(ids, c) && Decode(ids, Elems(delta)) == Decode(ids, c) - Decode(ids, c0)
    ensures delta == [] <==> Elems(edges) <= Decode(ids, c0)
    ensures delta == [] ==> c == c0
  {
    hide Decode;
    hide IsDelta;
    hide Closure;
    DenotesDecodes(ids, dense, edges);
    ClosureInRange(e, |ids|);
    DecodeUnion(ids, e0, Elems(dense));
    DecodeUnion(ids, c, c0);
    NothingNew(e0, Elems(dense));
    DecodeSubset(ids, Elems(dense), c0);
    DecodeSubset(ids, c0, c);
    DeltaEmpty(delta, c0, c);
  }

  lemma DeltaNone(c: Rel)
    ensures IsDelta([], c, c)
  {
    assert Elems<Edge>([]) == {};
  }

  lemma DeltaEmpty(delta: seq<Edge>, c0: Rel, c: Rel)
    requires IsDelta(delta, c0, c)
    ensures delta == [] <==> c == c0
    ensures c0 <= c && Elems(delta) == c - c0
  {
    assert c == c0 + (c - c0);
    if delta != [] {
      assert delta[0] in Elems(delta);
    } else {
      assert Elems(delta) == {};
    }
  }

  lemma RetractionDecodes(ids: seq<nat>, e0: Rel, c0: Rel, dense: seq<Edge>, edges: seq<Edge>, e: Rel, c: Rel,
                          inner: DeleteOutcome, withdrawn: seq<Edge>, survived: seq<Edge>)
    requires NoDup(ids) && InRange(e0, |ids|) && InRange(c0, |ids|)
    requires Known(ids, dense, edges)
    requires e == e0 - Elems(dense) && IsDelta(inner.withdrawn, c, c0)
    requires NoDup(inner.survived) && Elems(inner.survived) == Elems(dense) * e0 * c
    requires InRange(Elems(inner.withdrawn), |ids|) ==> Denotes(ids, inner.withdrawn, withdrawn)
    requires InRange(Elems(inner.survived), |ids|) ==> Denotes(ids, inner.survived, survived)
    ensures InRange(e, |ids|) && InRange(c, |ids|)
    ensures Decode(ids, e) == Decode(ids, e0) - Elems(edges)
    ensures IsDelta(withdrawn, Decode(ids, c), Decode(ids, c0))
    ensures NoDup(survived) && Elems(survived) == Elems(edges) * Decode(ids, e0) * Decode(ids, c)
  {
    DecodeDelta(ids, inner.withdrawn, withdrawn, c, c0);
    DecodeUnion(ids, e0, Elems(dense));
    DenotesDecodes(ids, inner.survived, survived);
    forall p | p in Decode(ids, e0) ensures p in Elems(edges) <==> p in Decode(ids, Elems(dense)) {
      var q :| q in e0 && (ids[q.0], ids[q.1]) == p;
      DecodeMember(ids, Elems(dense), q.0, q.1);
    }
    forall p | p in Elems(edges) * Decode(ids, e0) * Decode(ids, c) ensures p in Elems(survived) {
      var q :| q in e0 && (ids[q.0], ids[q.1]) == p;
      DecodeMember(ids, c, q.0, q.1);
      DecodeMember(ids, Elems(inner.survived), q.0, q.1);
    }
  }

  /** What one insert call does to its predicate's base, and which event it is to a subscriber.
      It fails only when the sink refuses and there was something new to write. */
  ghost predicate Inserted(base: Rel, batch: Rel, refusing: bool, base': Rel, r: Result<nat, SinkError>, ev: Event) {
    && Step(base, ev, base')
    && (r.Err? <==> refusing && !(batch <= Closure(base)))
    && (r.Ok? ==> ev.Emitted? && base' == base + batch)
    && (r.Err? ==> ev == Refused && base' == base)
  }

  /** A refused batch, tried again, emits what it would have emitted the first time. */
  lemma RetryEmitsTheSame(base: Rel, batch: Rel, afterRefusal: Rel, r: Result<nat, SinkError>, ev: Event,
                          retried: Rel, r': Result<nat, SinkError>, ev': Event,
                          direct: Rel, r'': Result<nat, SinkError>, ev'': Event)
    requires Inserted(base, batch, true, afterRefusal, r, ev) && r.Err?
    requires Inserted(afterRefusal, batch, false, retried, r', ev')
    requires Inserted(base, batch, false, direct, r'', ev'')
    ensures retried == direct == base + batch && ev'.Emitted? && ev''.Emitted?
    ensures Elems(ev'.pairs) == Elems(ev''.pairs) == Closure(base + batch) - Closure(base)
    ensures ev'.pairs != []
  {
    DeltaEmpty(ev'.pairs, Closure(base), Closure(base + batch));
    DeltaEmpty(ev''.pairs, Closure(base), Closure(base + batch));
    NothingNew(base, batch);
  }

  ghost function Objects(states: map<nat, PredicateState>): set<object> {
    (set q | q in states :: states[q].ids as object) + (set q | q in states :: states[q].closure as object)
  }

  lemma InstalledFootprint(states: map<nat, PredicateState>, p: nat, state: PredicateState)
    ensures Objects(states[p := state]) <= Objects(states) + {state.ids, state.closure}
  {
  }

  /** Retained closure state for every predicate seen so far. */
  class IncrementalClosureBackend {
    var predicates: map<nat, PredicateState>
    ghost var log: map<nat, Log>    // what a subscriber to each predicate has been told

    ghost function Footprint(): set<object>
      reads this`predicates
    {
      Objects(predicates)
    }

    /** Predicates share no state. */
    ghost predicate Separate()
      reads this`predicates
    {
      forall q, q' :: q in predicates && q' in predicates && q != q' ==>
        predicates[q].ids != predicates[q'].ids && predicates[q].closure != predicates[q'].closure
    }

    ghost predicate Coherent()
      reads this`predicates, Footprint()
    {
      Separate() && forall q :: q in predicates ==> predicates[q].Valid()
    }

    /** The asserted edges retained for `p`; none when there is no state. */
    ghost function Base(p: nat): Rel
      reads this`predicates, Footprint()
    {
      if p in predicates then predicates[p].Base() else {}
    }

    ghost function LogOf(p: nat): Log
      reads this`log
    {
      if p in log then log[p] else StartLog({})
    }

    /** Every predicate's log is a run of the ledger that has arrived at its base. */
    ghost predicate Valid()
      reads this, Footprint()
    {
      Coherent() && forall q :: LeadsTo(LogOf(q), Base(q))
    }

    /** At any time, whatever has been called: what a predicate was seeded with, plus the pairs its
        inserts wrote, minus the pairs its retractions reported, is the closure of its base. */
    lemma LogIsLedger(p: nat, pair: Edge)
      requires Valid()
      ensures Weight(LogOf(p).bases[0], LogOf(p).events, pair) == if pair in Closure(Base(p)) then 1 else 0
    {
      var l := LogOf(p);
      assert LeadsTo(l, Base(p));
      LedgerIsClosure(l.bases, l.events, pair);
    }

    constructor ()
      ensures Valid() && predicates == map[] && log == map[]
    {
      predicates, log := map[], map[];
    }

    /** Note an event of `p`'s, whose base was `base` before it. */
    ghost method Record(p: nat, ev: Event, base: Rel)
      requires Coherent() && LeadsTo(LogOf(p), base) && Step(base, ev, Base(p))
      requires forall q :: q != p ==> LeadsTo(LogOf(q), Base(q))
      modifies this`log
      ensures Valid() && log == old(log)[p := Logged(old(LogOf(p)), ev, Base(p))]
      ensures forall q :: Base(q) == old(Base(q))
    {
      hide LeadsTo;
      hide Step;
      hide Coherent;
      hide Base;
      assert this !in Footprint();
      LoggedLeadsTo(LogOf(p), ev, base, Base(p));
      log := log[p := Logged(LogOf(p), ev, Base(p))];
    }

    /** Start `p`'s log afresh at its present base. */
    ghost method RecordSeed(p: nat)
      requires Coherent() && forall q :: q != p ==> LeadsTo(LogOf(q), Base(q))
      modifies this`log
      ensures Valid() && log == old(log)[p := StartLog(Base(p))]
      ensures forall q :: Base(q) == old(Base(q))
    {
      hide Coherent;
      hide Base;
      assert this !in Footprint();
      StartLogLeadsTo(Base(p));
      hide LeadsTo;
      log := log[p := StartLog(Base(p))];
    }

    /** Install `state` for `p`, replacing whatever was there. */
    method Install(p: nat, state: PredicateState)
      requires Coherent() && state.Valid() && state.ids !in Footprint() && state.closure !in Footprint()
      modifies this`predicates
      ensures Coherent() && Base(p) == state.Base()
      ensures predicates == old(predicates)[p := state]
      ensures Footprint() <= old(Footprint()) + {state.ids, state.closure}
      ensures forall q :: q != p ==> Base(q) == old(Base(q))
    {
      hide Decode;
      hide PredicateState.Valid;
      predicates := predicates[p := state];
      InstalledFootprint(old(predicates), p, state);
    }

    /** Seed from a closed extent whose asserted base is unknown. */
    method SeedTransitiveClosure(p: nat, closedEdges: seq<Edge>)
      requires Valid() && Transitive(Elems(closedEdges))
      modifies this
      ensures Valid() && Base(p) == Elems(closedEdges) && Closure(Base(p)) == Base(p)
      ensures log == old(log)[p := StartLog(Base(p))]
      ensures forall q :: q != p ==> Base(q) == old(Base(q))
    {
      hide Decode;
      hide InRange;
      hide Closure;
      hide LeadsTo;
      hide Transitive;
      hide Base;
      ClosureFixed(Elems(closedEdges));
      var state := new PredicateState.FromClosed(closedEdges);
      Install(p, state);
      hide Coherent;
      RecordSeed(p);
    }

    /** Seed from the true asserted base. */
    method SeedBaseEdges(p: nat, baseEdges: seq<Edge>)
      requires Valid()
      modifies this
      ensures Valid() && Base(p) == Elems(baseEdges) && log == old(log)[p := StartLog(Base(p))]
      ensures forall q :: q != p ==> Base(q) == old(Base(q))
    {
      hide Decode;
      hide InRange;
      hide Elems;
      hide LeadsTo;
      hide Base;
      var state := new PredicateState.FromBase(baseEdges);
      Install(p, state);
      hide Coherent;
      RecordSeed(p);
    }

    /** Insert a batch: on success only the newly closed pairs reach the sink, each once; if the
        sink refuses, nothing has changed for any predicate. */
    method InsertTransitiveEdges(p: nat, newEdges: seq<Edge>, sink: TripleSink)
      returns (r: Result<nat, SinkError>, ghost ev: Event)
      requires Valid()
      modifies this, Footprint(), sink`store, sink`received
      ensures Valid() && Inserted(old(Base(p)), Elems(newEdges), sink.refusing, Base(p), r, ev)
      ensures log == old(log)[p := Logged(old(LogOf(p)), ev, Base(p))]
      ensures r.Ok? ==> r.value == |sink.store - old(sink.store)|
      ensures sink.received == old(sink.received) + if r.Ok? then Tagged(p, ev.pairs) else []
      ensures forall q :: q != p ==> Base(q) == old(Base(q))
    {
      hide Decode;
      hide Closure;
      hide IsDelta;
      hide LeadsTo;
      hide Coherent;
      hide Base;
      if newEdges == [] {
        DeltaNone(Closure(Base(p)));
        assert sink.store - old(sink.store) == {};
        r, ev := Ok(0), Emitted([]);
      } else {
        StateFor(p);
        r, ev := InsertInto(p, newEdges, sink);
      }
      Record(p, ev, old(Base(p)));
    }

    /** The predicate's state, created empty on first use. */
    method StateFor(p: nat)
      requires Coherent()
      modifies this`predicates
      ensures Coherent() && p in predicates && fresh(Footprint() - old(Footprint()))
      ensures forall q :: Base(q) == old(Base(q))
    {
      hide Decode;
      hide PredicateState.Valid;
      NoState(p);
      if p !in predicates {
        var blank := new PredicateState();
        Install(p, blank);
      }
    }

    /** Changing one predicate's state leaves every other predicate's alone. */
    twostate lemma OthersUntouched(p: nat)
      requires old(Coherent()) && p in predicates && unchanged(this)
      requires forall q :: q in predicates && q != p ==> unchanged(predicates[q].ids, predicates[q].closure)
      ensures Separate() && forall q :: q in predicates && q != p ==> predicates[q].Valid()
      ensures forall q :: q != p ==> Base(q) == old(Base(q))
    {
      forall q | q in predicates && q != p ensures predicates[q].Valid() {
        assert old(predicates[q].Valid());
      }
    }

    method InsertInto(p: nat, newEdges: seq<Edge>, sink: TripleSink)
      returns (r: Result<nat, SinkError>, ghost ev: Event)
      requires Coherent() && p in predicates
      modifies Footprint(), sink`store, sink`received
      ensures Coherent() && Inserted(old(Base(p)), Elems(newEdges), sink.refusing, Base(p), r, ev)
      ensures r.Ok? ==> r.value == |sink.store - old(sink.store)|
      ensures sink.received == old(sink.received) + if r.Ok? then Tagged(p, ev.pairs) else []
      ensures forall q :: q != p ==> Base(q) == old(Base(q))
    {
      hide Decode;
      hide Closure;
      hide IsDelta;
      hide InRange;
      hide Elems;
      var state := predicates[p];
      state.ClosedIsClosure();
      ghost var emitted;
      r, emitted := state.Insert(p, newEdges, sink);
      OthersUntouched(p);
      state.ClosedIsClosure();
      ev := if r.Ok? then Emitted(emitted) else Refused;
    }

    lemma NoState(p: nat)
      ensures p !in predicates ==> Base(p) == {}
    {
    }

    /** Retract asserted edges and report the pairs that lost all support. */
    method DeleteTransitiveEdges(p: nat, edges: seq<Edge>) returns (out: DictDeleteOutcome, ghost ev: Event)
      requires Valid()
      modifies Footprint(), this`log
      ensures Valid() && Step(old(Base(p)), ev, Base(p)) && ev == Withdrawn(out.withdrawn)
      ensures Base(p) == old(Base(p)) - Elems(edges)
      ensures NoDup(out.survived) && Elems(out.survived) == Elems(edges) * old(Base(p)) * Closure(Base(p))
      ensures log == old(log)[p := Logged(old(LogOf(p)), ev, Base(p))]
      ensures forall q :: q != p ==> Base(q) == old(Base(q))
    {
      hide Decode;
      hide Closure;
      hide IsDelta;
      hide LeadsTo;
      hide Coherent;
      hide Base;
      if edges == [] || p !in predicates {
        out := DictDeleteOutcome([], []);
        NoState(p);
        DeltaNone(Closure(Base(p)));
        assert Elems<Edge>([]) == {};
      } else {
        out := DeleteFrom(p, edges);
      }
      ev := Withdrawn(out.withdrawn);
      Record(p, ev, old(Base(p)));
    }

    method DeleteFrom(p: nat, edges: seq<Edge>) returns (out: DictDeleteOutcome)
      requires Coherent() && p in predicates
      modifies Footprint()
      ensures Coherent() && Base(p) == old(Base(p)) - Elems(edges)
      ensures IsDelta(out.withdrawn, Closure(Base(p)), Closure(old(Base(p))))
      ensures NoDup(out.survived) && Elems(out.survived) == Elems(edges) * old(Base(p)) * Closure(Base(p))
      ensures forall q :: q != p ==> Base(q) == old(Base(q))
    {
      hide Decode;
      hide Closure;
      hide IsDelta;
      hide InRange;
      hide Elems;
      var state := predicates[p];
      state.ClosedIsClosure();
      out := state.Delete(edges);
      OthersUntouched(p);
      state.ClosedIsClosure();
    }

    method BaseEdges(p: nat) returns (edges: seq<Edge>)
      requires Valid()
      ensures NoDup(edges) && Elems(edges) == Base(p)
    {
      edges := [];
      if p in predicates {
        var state := predicates[p];
        var dense := state.closure.BaseEdges();
        edges := state.ids.PairsToDict(dense);
        DenotesDecodes(state.ids.reverse, dense, edges);
      }
    }
  }
}
