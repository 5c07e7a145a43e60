/** What a subscriber to the incremental backend can conclude from the deltas alone. */
module Ledger {
  import opened Relations
  import opened Incremental

  /** The visible outcome of one backend call on one predicate. */
  datatype Event =
    | Emitted(pairs: seq<Edge>)    // a successful insert: the pairs written to the sink
    | Refused                      // an insert whose sink write failed
    | Withdrawn(pairs: seq<Edge>)  // a retraction: the pairs reported as lost

  /** How an event moves the asserted base, and which pairs it must carry. */
  ghost predicate Step(base: Rel, ev: Event, base': Rel) {
    match ev
    case Emitted(ps) => base <= base' && IsDelta(ps, Closure(base), Closure(base'))
    case Refused => base' == base
    case Withdrawn(ws) => base' <= base && IsDelta(ws, Closure(base'), Closure(base))
  }

  ghost predicate Run(bases: seq<Rel>, events: seq<Event>) {
    |bases| == |events| + 1 && forall i :: 0 <= i < |events| ==> Step(bases[i], events[i], bases[i + 1])
  }

  /** The bases a predicate has had since it was seeded or first used, and the events between them. */
  datatype Log = Log(bases: seq<Rel>, events: seq<Event>)

  function StartLog(base: Rel): Log {
    Log([base], [])
  }

  function Logged(log: Log, ev: Event, base: Rel): Log {
    Log(log.bases + [base], log.events + [ev])
  }

  /** The log is a run that has arrived at `base`. */
  ghost predicate LeadsTo(log: Log, base: Rel) {
    Run(log.bases, log.events) && log.bases[|log.events|] == base
  }

  lemma StartLogLeadsTo(base: Rel)
    ensures LeadsTo(StartLog(base), base)
  {
  }

  lemma LoggedLeadsTo(log: Log, ev: Event, base: Rel, base': Rel)
    requires LeadsTo(log, base) && Step(base, ev, base')
    ensures LeadsTo(Logged(log, ev, base'), base')
  {
    var next := Logged(log, ev, base');
    forall i | 0 <= i < |next.events| ensures Step(next.bases[i], next.events[i], next.bases[i + 1]) {
      if i < |log.events| {
        assert Step(log.bases[i], log.events[i], log.bases[i + 1]);
      }
    }
  }

  function Count(pairs: seq<Edge>, p: Edge): nat {
    if pairs == [] then 0 else (if pairs[0] == p then 1 else 0) + Count(pairs[1..], p)
  }

  function EventWeight(ev: Event, p: Edge): int {
    match ev
    case Emitted(ps) => Count(ps, p)
    case Refused => 0
    case Withdrawn(ws) => 0 - Count(ws, p)
  }

  /** Z-set weight of a pair: seeded, plus times emitted, minus times withdrawn. */
  ghost function Weight(seed: Rel, events: seq<Event>, p: Edge): int {
    if events == [] then (if p in Closure(seed) then 1 else 0)
    else Weight(seed, events[..|events| - 1], p) + EventWeight(events[|events| - 1], p)
  }

  lemma {:induction false} CountDistinct(pairs: seq<Edge>, p: Edge)
    requires NoDup(pairs)
    ensures Count(pairs, p) == if p in Elems(pairs) then 1 else 0
    decreases |pairs|
  {
    if pairs != [] {
      CountDistinct(pairs[1..], p);
      assert pairs[1..] == pairs[1..|pairs|];
      assert forall q :: q in pairs <==> q == pairs[0] || q in pairs[1..];
    }
  }

  /** After every prefix of every run the ledger weight of each pair is 0 or 1, and is 1 exactly
      for the pairs in the closure of the current base. */
  lemma {:induction false} LedgerIsClosure(bases: seq<Rel>, events: seq<Event>, p: Edge)
    requires Run(bases, events)
    ensures Weight(bases[0], events, p) == if p in Closure(bases[|events|]) then 1 else 0
    decreases |events|
  {
    if events != [] {
      var n := |events| - 1;
      var init := events[..n];
      assert Run(bases[..n + 1], init) by {
        forall i | 0 <= i < |init| ensures Step(bases[..n + 1][i], init[i], bases[..n + 1][i + 1]) {
          assert Step(bases[i], events[i], bases[i + 1]);
        }
      }
      LedgerIsClosure(bases[..n + 1], init, p);
      assert Step(bases[n], events[n], bases[n + 1]);
      match events[n]
      case Emitted(ps) => CountDistinct(ps, p);
      case Refused =>
      case Withdrawn(ws) => CountDistinct(ws, p);
    }
  }

  /** No pair is emitted while the ledger already holds it, and none is withdrawn while it does not. */
  lemma DeltasAreNews(bases: seq<Rel>, events: seq<Event>, i: nat, p: Edge)
    requires Run(bases, events) && i < |events|
    ensures events[i].Emitted? && p in events[i].pairs ==> Weight(bases[0], events[..i], p) == 0
    ensures events[i].Withdrawn? && p in events[i].pairs ==> Weight(bases[0], events[..i], p) == 1
  {
    assert Run(bases[..i + 1], events[..i]) by {
      forall j | 0 <= j < i ensures Step(bases[..i + 1][j], events[..i][j], bases[..i + 1][j + 1]) {
        assert Step(bases[j], events[j], bases[j + 1]);
      }
    }
    LedgerIsClosure(bases[..i + 1], events[..i], p);
    assert Step(bases[i], events[i], bases[i + 1]);
    if !events[i].Refused? {
      assert p in events[i].pairs <==> p in Elems(events[i].pairs);
    }
  }

  // ----- predicates seeded with a closed extent whose asserted base is unknown

  datatype Edit = Assert(edges: Rel) | Retract(edges: Rel)

  function Edited(base: Rel, edits: seq<Edit>): Rel {
    if edits == [] then base
    else
      var b := Edited(base, edits[..|edits| - 1]);
      match edits[|edits| - 1]
      case Assert(e) => b + e
      case Retract(e) => b - e
  }

  ghost predicate RetractsOnlyOutside(c: Rel, edits: seq<Edit>) {
    forall i :: 0 <= i < |edits| && edits[i].Retract? ==> edits[i].edges !! c
  }

  lemma {:induction false} SeededBaseCovers(b: Rel, c: Rel, edits: seq<Edit>)
    requires b <= c
    ensures Edited(b, edits) <= Edited(c, edits) <= Edited(b, edits) + c
    ensures RetractsOnlyOutside(c, edits) ==> Edited(c, edits) == Edited(b, edits) + c
    decreases |edits|
  {
    if edits != [] {
      var n := |edits| - 1;
      SeededBaseCovers(b, c, edits[..n]);
      assert edits[..n + 1] == edits;
      if RetractsOnlyOutside(c, edits) {
        assert edits[n].Retract? ==> edits[n].edges !! c;
      }
    }
  }

  /** Seeding with the closed extent is exact until a seeded pair is itself retracted, and it
      never loses a pair the true base still entails. */
  lemma SeededTracksTrueBase(b: Rel, edits: seq<Edit>)
    ensures Closure(Edited(b, edits)) <= Closure(Edited(Closure(b), edits))
    ensures RetractsOnlyOutside(Closure(b), edits) ==>
              Closure(Edited(Closure(b), edits)) == Closure(Edited(b, edits))
  {
    var c := Closure(b);
    ClosureContains(b);
    SeededBaseCovers(b, c, edits);
    ClosureMonotone(Edited(b, edits), Edited(c, edits));
    if RetractsOnlyOutside(c, edits) {
      SeedStaysEntailed(b, edits);
      assert Edited(c, edits) == Edited(b, edits) + c;
      ClosureOfPart(b, Edited(b, edits));
      assert b + Edited(b, edits) == Edited(b, edits);
      assert c + Edited(b, edits) == Edited(c, edits);
    }
  }

  lemma {:induction false} SeedStaysEntailed(b: Rel, edits: seq<Edit>)
    requires RetractsOnlyOutside(Closure(b), edits)
    ensures b <= Edited(b, edits)
    decreases |edits|
  {
    ClosureContains(b);
    if edits != [] {
      var n := |edits| - 1;
      SeedStaysEntailed(b, edits[..n]);
      assert edits[n].Retract? ==> edits[n].edges !! Closure(b);
    }
  }

  /** The pairs a predicate seeded with the closed extent of `b` keeps although the true base no
      longer entails them. */
  ghost function Stale(b: Rel, edits: seq<Edit>): Rel {
    Closure(Edited(Closure(b), edits)) - Closure(Edited(b, edits))
  }

  /** After any history the seeded predicate is exact if and only if every seeded pair still in its
      base is entailed by what is left of the true base. */
  lemma SeededIsExactIff(b: Rel, edits: seq<Edit>)
    ensures Closure(Edited(b, edits)) <= Closure(Edited(Closure(b), edits))
    ensures Stale(b, edits) == {} <==> Closure(b) * Edited(Closure(b), edits) <= Closure(Edited(b, edits))
    ensures Stale(b, edits) == {} <==> Closure(Edited(Closure(b), edits)) == Closure(Edited(b, edits))
  {
    hide Closure;
    hide Edited;
    var c, x, s := Closure(b), Edited(b, edits), Edited(Closure(b), edits);
    SeededTracksTrueBase(b, edits);
    ClosureContains(b);
    SeededBaseCovers(b, c, edits);
    ClosureContains(s);
    ClosureContains(x);
    NoDifference(Closure(s), Closure(x));
    if c * s <= Closure(x) {
      Within(x, s, c, Closure(x));
      ClosureMonotone(s, Closure(x));
      ClosureIdempotent(x);
    }
  }

  lemma NoDifference(a: Rel, b: Rel)
    ensures a - b == {} <==> a <= b
  {
    if a - b == {} {
      forall p | p in a ensures p in b {
        assert p !in a - b;
      }
    }
  }

  lemma Within(x: Rel, s: Rel, c: Rel, t: Rel)
    requires s <= x + c && x <= t && c * s <= t
    ensures s <= t
  {
    forall p | p in s ensures p in t {
      assert p in x || p in c * s;
    }
  }

  lemma EditedNext(base: Rel, edits: seq<Edit>, edit: Edit)
    ensures Edited(base, edits + [edit]) ==
              if edit.Assert? then Edited(base, edits) + edit.edges else Edited(base, edits) - edit.edges
  {
    assert (edits + [edit])[..|edits|] == edits;
  }

  /** What a retraction withdraws from the seeded predicate against what the true base would lose,
      after any history: too much by exactly the stale pairs it drops, too little by exactly the
      pairs it makes stale. */
  lemma SeededRetractionAccounts(b: Rel, edits: seq<Edit>, d: Rel)
    ensures var x, s := Edited(b, edits), Edited(Closure(b), edits);
      var seeded, exact := Closure(s) - Closure(s - d), Closure(x) - Closure(x - d);
      var before, after := Stale(b, edits), Stale(b, edits + [Retract(d)]);
      && seeded - exact == before - after
      && exact - seeded == after - before
      && (seeded == exact <==> before == after)
  {
    var x, s := Edited(b, edits), Edited(Closure(b), edits);
    EditedNext(b, edits, Retract(d));
    EditedNext(Closure(b), edits, Retract(d));
    SeededTracksTrueBase(b, edits);
    SeededTracksTrueBase(b, edits + [Retract(d)]);
    ClosureMonotone(x - d, x);
    ClosureMonotone(s - d, s);
    StaleAccounts(Closure(s), Closure(x), Closure(s - d), Closure(x - d));
  }

  /** After any history a retraction of `d` is exact if and only if what it leaves of the seeded base
      still entails every stale pair, and no pair of the true closure that what it leaves of the true
      base does not entail. */
  lemma SeededRetractionExactIff(b: Rel, edits: seq<Edit>, d: Rel)
    ensures var x, s := Edited(b, edits), Edited(Closure(b), edits);
      Closure(s) - Closure(s - d) == Closure(x) - Closure(x - d) <==>
      Stale(b, edits) <= Closure(s - d) && Closure(x) * Closure(s - d) <= Closure(x - d)
  {
    hide Closure;
    hide Edited;
    var c, x, s := Closure(b), Edited(b, edits), Edited(Closure(b), edits);
    EditedNext(b, edits, Retract(d));
    EditedNext(c, edits, Retract(d));
    SeededTracksTrueBase(b, edits);
    SeededTracksTrueBase(b, edits + [Retract(d)]);
    ClosureMonotone(x - d, x);
    ClosureMonotone(s - d, s);
    SameLossIff(Closure(s), Closure(x), Closure(s - d), Closure(x - d));
  }

  lemma SameLossIff(s: Rel, x: Rel, s': Rel, x': Rel)
    requires x <= s && x' <= s' && s' <= s && x' <= x
    ensures s - s' == x - x' <==> s - x <= s' && x * s' <= x'
  {
    if s - s' == x - x' {
      forall p | p in s - x ensures p in s' {
        assert p !in x - x';
      }
      forall p | p in x * s' ensures p in x' {
        assert p !in s - s';
      }
    }
  }

  lemma StaleAccounts(s: Rel, x: Rel, s': Rel, x': Rel)
    requires x <= s && x' <= s' && s' <= s && x' <= x
    ensures (s - s') - (x - x') == (s - x) - (s' - x')
    ensures (x - x') - (s - s') == (s' - x') - (s - x)
    ensures s - s' == x - x' <==> s - x == s' - x'
  {
    assert (s - s') - (x - x') == (s - x) - (s' - x');
    assert (x - x') - (s - s') == (s' - x') - (s - x);
    NoDifference(s - s', x - x');
    NoDifference(x - x', s - s');
    NoDifference(s - x, s' - x');
    NoDifference(s' - x', s - x);
  }

  /** While nothing is stale a retraction withdraws at most what the true base would lose, and all
      of it if and only if the seeded pairs it leaves are entailed by what it leaves of the true base. */
  lemma ExactSeedRetraction(b: Rel, edits: seq<Edit>, d: Rel)
    requires Stale(b, edits) == {}
    ensures var x, s := Edited(b, edits), Edited(Closure(b), edits);
      && Closure(s) - Closure(s - d) <= Closure(x) - Closure(x - d)
      && (Closure(s) - Closure(s - d) == Closure(x) - Closure(x - d) <==> Closure(b) * s - d <= Closure(x - d))
  {
    hide Closure;
    hide Edited;
    hide Stale;
    var c, x, s := Closure(b), Edited(b, edits), Edited(Closure(b), edits);
    SeededRetractionAccounts(b, edits, d);
    SeededIsExactIff(b, edits + [Retract(d)]);
    EditedNext(b, edits, Retract(d));
    EditedNext(c, edits, Retract(d));
    assert c * (s - d) == c * s - d;
    NoDifference(Closure(s) - Closure(s - d), Closure(x) - Closure(x - d));
  }

  /** Retracting edges asserted after the seed, outside the closed extent.  That is exact as long as
      no seeded pair has ever been retracted; while nothing is stale it is exact if and only if the
      seeded pairs left in the base are entailed by what is left of the true base. */
  lemma LaterEdgeRetraction(b: Rel, edits: seq<Edit>, d: Rel)
    requires d !! Closure(b)
    ensures var x, s := Edited(b, edits), Edited(Closure(b), edits);
      var exactly := Closure(s) - Closure(s - d) == Closure(x) - Closure(x - d);
      && (RetractsOnlyOutside(Closure(b), edits) ==> exactly)
      && (Stale(b, edits) == {} ==> (exactly <==> Closure(b) * s <= Closure(x - d)))
  {
    hide Closure;
    hide Edited;
    hide Stale;
    var c, x, s := Closure(b), Edited(b, edits), Edited(Closure(b), edits);
    assert c * s - d == c * s;
    if Stale(b, edits) == {} {
      ExactSeedRetraction(b, edits, d);
    }
    if RetractsOnlyOutside(c, edits) {
      var edits' := edits + [Retract(d)];
      OutsideNext(c, edits, d);
      SeededTracksTrueBase(b, edits);
      SeededTracksTrueBase(b, edits');
      SeededIsExactIff(b, edits);
      SeededIsExactIff(b, edits');
      SeededRetractionAccounts(b, edits, d);
    }
  }

  lemma OutsideNext(c: Rel, edits: seq<Edit>, d: Rel)
    requires RetractsOnlyOutside(c, edits) && d !! c
    ensures RetractsOnlyOutside(c, edits + [Retract(d)])
  {
  }

  /** An edge inserted after the seed that does not retract exactly.  Base 1->2->3 is seeded closed,
      (2, 3) retracted, and 2->4->3 asserted, which makes the predicate exact again; retracting
      (4, 3) then loses (1, 3) from the true base but not from the seeded one. */
  lemma LaterEdgeCanUnderWithdraw()
    ensures var b, d := {(1, 2), (2, 3)}, {(4, 3)};
      var edits := [Retract({(2, 3)}), Assert({(2, 4), (4, 3)})];
      var x, s := Edited(b, edits), Edited(Closure(b), edits);
      && d !! Closure(b) && Stale(b, edits) == {}
      && (1, 3) in Closure(x) - Closure(x - d) && (1, 3) in Closure(s - d)
  {
    hide Edited;
    hide Closure;
    var b, d, r, e: Rel := {(1, 2), (2, 3)}, {(4, 3)}, {(2, 3)}, {(2, 4), (4, 3)};
    var c := Closure(b);
    ClosureOfChain();
    EditedTwice(b, r, e);
    EditedTwice(c, r, e);
    var x, s := b - r + e, c - r + e;
    assert x == {(1, 2), (2, 4), (4, 3)} && s == x + {(1, 3)};
    ClosureContains(x);
    ClosureTransitive(x);
    assert (1, 2) in Closure(x) && (2, 4) in Closure(x) && (4, 3) in Closure(x);
    assert (1, 4) in Closure(x);
    SeededIsExactIff(b, [Retract(r), Assert(e)]);
    assert c * s <= Closure(x);
    ClosureLeast(x - d, {(1, 2), (2, 4), (1, 4)});
    ClosureContains(s - d);
  }

  lemma ClosureOfChain()
    ensures Closure({(1, 2), (2, 3)}) == {(1, 2), (2, 3), (1, 3)}
  {
    var b: Rel, all: Rel := {(1, 2), (2, 3)}, {(1, 2), (2, 3), (1, 3)};
    hide Closure;
    ClosureContains(b);
    ClosureTransitive(b);
    assert (1, 2) in b && (2, 3) in b;
    assert (1, 3) in Closure(b);
    forall x, z, y | (x, z) in b && (z, y) in all ensures (x, y) in all {
      assert x == 1 && z == 2 && y == 3;
    }
    ClosureLeast(b, all);
    var c := Closure(b);
    assert (1, 2) in c && (2, 3) in c;
    assert all == {(1, 2)} + {(2, 3)} + {(1, 3)};
  }

  lemma EditedTwice(base: Rel, r: Rel, e: Rel)
    ensures Edited(base, [Retract(r), Assert(e)]) == base - r + e
  {
    EditedOnce(base, r);
    assert [Retract(r), Assert(e)] == [Retract(r)] + [Assert(e)];
    EditedNext(base, [Retract(r)], Assert(e));
  }

  /** The difference is real: with base 1->2->3 seeded closed, retracting (2, 3) leaves (1, 3) behind. */
  lemma SeededRetractionCanLeavePairsBehind()
    ensures var b, d := {(1, 2), (2, 3)}, {(2, 3)};
      (1, 3) in Closure(b) && (1, 3) !in Closure(b - d) && (1, 3) in Closure(Closure(b) - d)
  {
    var b, d: Rel := {(1, 2), (2, 3)}, {(2, 3)};
    ClosureContains(b);
    ClosureTransitive(b);
    assert (1, 2) in Closure(b) && (2, 3) in Closure(b);
    ClosureFixed(b - d);
    ClosureContains(Closure(b) - d);
  }

  /** It goes wrong the other way too: retracting (1, 3) next withdraws that stale pair, which the
      true base had already lost. */
  lemma SeededRetractionCanOverWithdraw()
    ensures var b, edits, d := {(1, 2), (2, 3)}, [Retract({(2, 3)})], {(1, 3)};
      var x, s := Edited(b, edits), Edited(Closure(b), edits);
      (1, 3) in Closure(s) - Closure(s - d) && (1, 3) !in Closure(x) - Closure(x - d)
  {
    hide Edited;
    hide Closure;
    var b, r, d: Rel := {(1, 2), (2, 3)}, {(2, 3)}, {(1, 3)};
    EditedOnce(b, r);
    EditedOnce(Closure(b), r);
    SeededRetractionCanLeavePairsBehind();
    var all: Rel := {(1, 2), (2, 3), (1, 3)};
    ClosureLeast(b, all);
    ClosureMonotone(Closure(b) - r - d, {(1, 2)});
    ClosureFixed({(1, 2)});
  }

  lemma EditedOnce(base: Rel, r: Rel)
    ensures Edited(base, [Retract(r)]) == base - r
  {
    assert [Retract(r)][..0] == [];
  }
}
