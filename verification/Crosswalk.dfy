/** Best-confidence crosswalk resolution over dictionary ids. */
module Crosswalk {
  import opened Wrappers
  import opened Relations
  import opened Weights
  import opened DenseIds
  import opened ValuedClosure

  datatype CrosswalkEdge = CrosswalkEdge(src: nat, dst: nat, confidence: real)

  datatype CrosswalkError = InvalidConfidence(src: nat, dst: nat, confidence: real)

  datatype CrosswalkPair = CrosswalkPair(src: nat, dst: nat, confidence: real)

  predicate Acceptable(e: CrosswalkEdge) {
    0.0 < e.confidence <= 1.0
  }

  function Triples(edges: seq<CrosswalkEdge>): seq<WeightedEdge> {
    seq(|edges|, k requires 0 <= k < |edges| => (edges[k].src, edges[k].dst, edges[k].confidence))
  }

  /** The asserted graph in dictionary ids; the strongest of repeated assertions wins. */
  ghost function Asserted(edges: seq<CrosswalkEdge>): Matrix {
    Loaded(Triples(edges))
  }

  // ----- renumbering carries walks and their products over

  /** `d` is `m` with every dense index replaced by its id. */
  ghost predicate Renames(ids: seq<nat>, m: Matrix, d: Matrix) {
    && (forall p :: p in m ==>
          p.0 < |ids| && p.1 < |ids| && (ids[p.0], ids[p.1]) in d && d[(ids[p.0], ids[p.1])] == m[p])
    && (forall a, b :: 0 <= a < |ids| && 0 <= b < |ids| && (ids[a], ids[b]) in d ==> (a, b) in m)
    && (forall q :: q in d ==> q.0 in ids && q.1 in ids)
  }

  ghost function Named(ids: seq<nat>, w: seq<nat>): seq<nat>
    requires forall k :: 0 <= k < |w| ==> w[k] < |ids|
  {
    seq(|w|, k requires 0 <= k < |w| => ids[w[k]])
  }

  lemma {:induction false} NamedProduct(ids: seq<nat>, m: Matrix, d: Matrix, w: seq<nat>)
    requires Renames(ids, m, d) && Trail(m.Keys, w) && forall k :: 0 <= k < |w| ==> w[k] < |ids|
    ensures Trail(d.Keys, Named(ids, w)) && Product(d, Named(ids, w)) == Product(m, w)
    decreases |w|
  {
    hide Times;
    var n := |w| - 1;
    if n > 0 {
      TrailSlices(m.Keys, w, 0, n);
      TrailSlices(m.Keys, w, n - 1, n);
      NamedProduct(ids, m, d, w[..n]);
      ProductStep(m, w);
      hide Product;
      assert Named(ids, w) == Named(ids, w[..n]) + [ids[w[n]]];
      ProductLast(d, Named(ids, w[..n]), ids[w[n]]);
    }
  }

  lemma WalkNodesInRange(ids: seq<nat>, m: Matrix, d: Matrix, w: seq<nat>)
    requires Renames(ids, m, d) && Walk(m.Keys, w)
    ensures forall k :: 0 <= k < |w| ==> w[k] < |ids|
  {
    forall k | 0 <= k < |w| ensures w[k] < |ids| {
      if k + 1 < |w| {
        assert (w[k], w[k + 1]) in m;
      } else {
        assert (w[k - 1], w[k]) in m;
      }
    }
  }

  /** Every walk over ids is the image of a dense walk with the same product. */
  lemma WalkOverIds(ids: seq<nat>, m: Matrix, d: Matrix, v: seq<nat>) returns (w: seq<nat>)
    requires NoDup(ids) && Renames(ids, m, d) && Walk(d.Keys, v)
    ensures Walk(m.Keys, w) && |w| == |v| && (forall k :: 0 <= k < |w| ==> w[k] < |ids| && ids[w[k]] == v[k])
    ensures Product(m, w) == Product(d, v)
  {
    forall k | 0 <= k < |v| ensures v[k] in ids {
      if k + 1 < |v| {
        assert (v[k], v[k + 1]) in d;
      } else {
        assert (v[k - 1], v[k]) in d;
      }
    }
    w := seq(|v|, k requires 0 <= k < |v| => IndexOf(ids, v[k]));
    forall a, b | 0 <= a && b == a + 1 && b < |w| ensures (w[a], w[b]) in m.Keys {
      assert (v[a], v[b]) in d;
    }
    NamedProduct(ids, m, d, w);
    assert Named(ids, w) == v;
  }

  ghost function IndexOf(ids: seq<nat>, x: nat): (i: nat)
    requires x in ids
    ensures i < |ids| && ids[i] == x
  {
    var i :| 0 <= i < |ids| && ids[i] == x;
    i
  }

  lemma RenamedEntry(ids: seq<nat>, m: Matrix, d: Matrix, p: Edge)
    requires Renames(ids, m, d) && p in m
    ensures p.0 < |ids| && p.1 < |ids| && (ids[p.0], ids[p.1]) in d && d[(ids[p.0], ids[p.1])] == m[p]
  {
  }

  lemma BestDominates(m: Matrix, r: Matrix, w: seq<nat>)
    requires BestOverAllWalks(m, r) && Walk(m.Keys, w)
    ensures Dominates(r, m, w)
  {
  }

  lemma RenamedDominates(ids: seq<nat>, m: Matrix, d: Matrix, r: Matrix, rd: Matrix, v: seq<nat>)
    requires NoDup(ids) && Renames(ids, m, d) && Renames(ids, r, rd) && BestOverAllWalks(m, r)
    requires Walk(d.Keys, v)
    ensures Dominates(rd, d, v)
  {
    hide Product;
    hide Renames;
    hide BestOverAllWalks;
    var w := WalkOverIds(ids, m, d, v);
    BestDominates(m, r, w);
    RenamedEntry(ids, r, rd, (w[0], w[|w| - 1]));
  }

  lemma RenamedAttains(ids: seq<nat>, m: Matrix, d: Matrix, r: Matrix, rd: Matrix, q: Edge)
    requires Renames(ids, m, d) && Renames(ids, r, rd) && BestOverAllWalks(m, r) && q in rd
    ensures Attains(d, q, rd[q]) && Joined(d.Keys, q.0, q.1)
  {
    hide Product;
    var p := (IndexOf(ids, q.0), IndexOf(ids, q.1));
    assert (ids[p.0], ids[p.1]) == q;
    hide Renames;
    RenamedEntry(ids, r, rd, p);
    assert Attains(m, p, r[p]);
    var w :| WalkFrom(m.Keys, w, p.0, p.1) && Product(m, w) == r[p];
    WalkNodesInRange(ids, m, d, w);
    NamedProduct(ids, m, d, w);
    assert WalkFrom(d.Keys, Named(ids, w), q.0, q.1);
  }

  /** A best closure over dense indexes is, renamed, a best closure over ids. */
  lemma RenamedBest(ids: seq<nat>, m: Matrix, d: Matrix, r: Matrix, rd: Matrix)
    requires NoDup(ids) && Renames(ids, m, d) && Renames(ids, r, rd) && BestOverAllWalks(m, r)
    ensures BestOverAllWalks(d, rd)
  {
    hide Product;
    hide Renames;
    hide Attains;
    hide Dominates;
    forall v | Walk(d.Keys, v) ensures Dominates(rd, d, v) {
      RenamedDominates(ids, m, d, r, rd, v);
    }
    forall q: Edge | q in rd ensures Attains(d, q, rd[q]) && Joined(d.Keys, q.0, q.1) {
      RenamedAttains(ids, m, d, r, rd, q);
    }
    forall q: Edge | Joined(d.Keys, q.0, q.1) ensures q in rd {
      var v :| WalkFrom(d.Keys, v, q.0, q.1);
      RenamedDominates(ids, m, d, r, rd, v);
      DominatesMember(rd, d, v);
    }
  }

  lemma DominatesMember(r: Matrix, m: Matrix, w: seq<nat>)
    requires Walk(m.Keys, w) && Dominates(r, m, w)
    ensures (w[0], w[|w| - 1]) in r
  {
  }

  ghost predicate SameEdges(ids: seq<nat>, dense: seq<WeightedEdge>, named: seq<WeightedEdge>) {
    && WithinEdges(dense, |ids|) && |dense| == |named|
    && forall k :: 0 <= k < |dense| ==> named[k] == (ids[dense[k].0], ids[dense[k].1], dense[k].2)
  }

  lemma LoadedEntry(ids: seq<nat>, dense: seq<WeightedEdge>, named: seq<WeightedEdge>, p: Edge)
    requires NoDup(ids) && SameEdges(ids, dense, named) && p in Loaded(dense)
    ensures p.0 < |ids| && p.1 < |ids| && (ids[p.0], ids[p.1]) in Loaded(named)
    ensures Loaded(named)[(ids[p.0], ids[p.1])] == Loaded(dense)[p]
  {
    hide Loaded;
    var m, d := Loaded(dense), Loaded(named);
    LoadedIsBest(dense, p);
    var k :| 0 <= k < |dense| && dense[k] == (p.0, p.1, m[p]);
    var q := (ids[p.0], ids[p.1]);
    LoadedIsBest(named, q);
    assert (named[k].0, named[k].1) == q;
    var l :| 0 <= l < |named| && named[l] == (q.0, q.1, d[q]);
    assert (dense[l].0, dense[l].1) == p;
  }

  lemma LoadedSource(ids: seq<nat>, dense: seq<WeightedEdge>, named: seq<WeightedEdge>, q: Edge)
    requires NoDup(ids) && SameEdges(ids, dense, named) && q in Loaded(named)
    ensures q.0 in ids && q.1 in ids
    ensures forall a, b :: 0 <= a < |ids| && 0 <= b < |ids| && (ids[a], ids[b]) == q ==> (a, b) in Loaded(dense)
  {
    hide Loaded;
    LoadedIsBest(named, q);
    var k :| 0 <= k < |named| && named[k] == (q.0, q.1, Loaded(named)[q]);
    assert ids[dense[k].0] == q.0 && ids[dense[k].1] == q.1;
    LoadedIsBest(dense, (dense[k].0, dense[k].1));
  }

  /** Loading renamed edges renames the loaded matrix. */
  lemma LoadedRenames(ids: seq<nat>, dense: seq<WeightedEdge>, named: seq<WeightedEdge>)
    requires NoDup(ids) && SameEdges(ids, dense, named)
    ensures Renames(ids, Loaded(dense), Loaded(named))
  {
    hide Loaded;
    hide SameEdges;
    forall p | p in Loaded(dense)
      ensures p.0 < |ids| && p.1 < |ids| && (ids[p.0], ids[p.1]) in Loaded(named)
      ensures Loaded(named)[(ids[p.0], ids[p.1])] == Loaded(dense)[p]
    {
      LoadedEntry(ids, dense, named, p);
    }
    forall q | q in Loaded(named) ensures q.0 in ids && q.1 in ids {
      LoadedSource(ids, dense, named, q);
    }
    forall a, b | 0 <= a < |ids| && 0 <= b < |ids| && (ids[a], ids[b]) in Loaded(named)
      ensures (a, b) in Loaded(dense)
    {
      LoadedSource(ids, dense, named, (ids[a], ids[b]));
    }
  }

  lemma AssertedConfidences(edges: seq<CrosswalkEdge>)
    requires forall k :: 0 <= k < |edges| ==> Acceptable(edges[k])
    ensures Confidences(Asserted(edges))
  {
    hide Loaded;
    forall p | p in Asserted(edges) ensures 0.0 < Asserted(edges)[p] <= 1.0 {
      LoadedIsBest(Triples(edges), p);
      var k :| 0 <= k < |edges| && Triples(edges)[k] == (p.0, p.1, Asserted(edges)[p]);
      assert Acceptable(edges[k]);
    }
  }

  lemma RenamedConfidences(ids: seq<nat>, m: Matrix, d: Matrix)
    requires Renames(ids, m, d) && Confidences(d)
    ensures Confidences(m) && InRange(m.Keys, |ids|)
  {
  }

  class CrosswalkGraph {
    const ids: DenseIdMap
    const matrix: ValuedMatrix
    ghost const asserted: Matrix

    ghost predicate Valid()
      reads ids, matrix
    {
      && ids.Valid() && matrix.Valid() && matrix.n == |ids.reverse|
      && Confidences(asserted) && Renames(ids.reverse, matrix.entries, asserted)
    }

    constructor (ids: DenseIdMap, matrix: ValuedMatrix, ghost asserted: Matrix)
      requires ids.Valid() && matrix.Valid() && matrix.n == |ids.reverse|
      requires Confidences(asserted) && Renames(ids.reverse, matrix.entries, asserted)
      ensures Valid() && this.asserted == asserted && this.ids == ids && this.matrix == matrix
    {
      this.ids, this.matrix, this.asserted := ids, matrix, asserted;
    }

    /** Every reachable pair once, with the confidence of its strongest path. */
    method BestConfidenceClosure() returns (pairs: seq<CrosswalkPair>, metrics: ClosureMetrics)
      requires Valid()
      ensures BestOverAllWalks(asserted, Loaded(PairTriples(pairs)))
      ensures Lists(PairTriples(pairs), Loaded(PairTriples(pairs)))
      ensures ListsBest(asserted, pairs)
    {
      hide Renames;
      hide BestOverAllWalks;
      hide Lists;
      hide Loaded;
      hide InRange;
      hide Confidences;
      hide LoopResult;
      var star, m, stop := ValuedTransitiveClosure(matrix);
      metrics := m;
      ghost var names := ids.reverse;
      RenamedConfidences(names, matrix.entries, asserted);
      ConfidencesConverge(matrix.entries, matrix.n, star.entries, m, stop);
      var dense := star.ExtractWeightedEdges();
      EdgesInRange(dense, star.entries, |names|);
      pairs := NamePairs(dense);
      NamedIsBest(names, matrix.entries, asserted, star.entries, dense, PairTriples(pairs));
      BestIsListed(asserted, pairs);
    }

    method NamePairs(dense: seq<WeightedEdge>) returns (pairs: seq<CrosswalkPair>)
      requires WithinEdges(dense, |ids.reverse|)
      ensures SameEdges(ids.reverse, dense, PairTriples(pairs))
    {
      pairs := [];
      var i := 0;
      while i < |dense|
        invariant 0 <= i <= |dense| && |pairs| == i
        invariant forall k :: 0 <= k < i ==>
          pairs[k] == CrosswalkPair(ids.reverse[dense[k].0], ids.reverse[dense[k].1], dense[k].2)
      {
        pairs := pairs + [CrosswalkPair(ids.reverse[dense[i].0], ids.reverse[dense[i].1], dense[i].2)];
        i := i + 1;
      }
    }

    /** The strongest path between two ids; `None` exactly when no path joins them. */
    method BestConfidence(from: nat, to: nat) returns (r: Option<real>)
      requires Valid()
      ensures r == None <==> !Joined(asserted.Keys, from, to)
      ensures r.Some? ==> Attains(asserted, (from, to), r.value)
      ensures r.Some? ==> forall w :: WalkFrom(asserted.Keys, w, from, to) ==> Product(asserted, w) <= r.value
    {
      hide Product;
      hide Renames;
      hide BestOverAllWalks;
      hide Attains;
      hide Joined;
      hide Confidences;
      hide Lists;
      hide Loaded;
      if ids.ToDense(from) == None || ids.ToDense(to) == None {
        UnknownIsUnreachable(ids.reverse, matrix.entries, asserted, from, to);
        return None;
      }
      var pairs, _ := BestConfidenceClosure();
      ghost var best := Loaded(PairTriples(pairs));
      r := None;
      var i := 0;
      while i < |pairs|
        invariant 0 <= i <= |pairs| && r == None
        invariant forall k :: 0 <= k < i ==> (pairs[k].src, pairs[k].dst) != (from, to)
      {
        if pairs[i].src == from && pairs[i].dst == to {
          r := Some(pairs[i].confidence);
          break;
        }
        i := i + 1;
      }
      PairFound(pairs, best, from, to, i);
      BestAt(asserted, best, from, to);
    }
  }

  /** An entry of the best closure is attained, and no walk beats it; no entry means no walk. */
  lemma BestAt(m: Matrix, best: Matrix, from: nat, to: nat)
    requires BestOverAllWalks(m, best)
    ensures (from, to) in best <==> Joined(m.Keys, from, to)
    ensures (from, to) in best ==> Attains(m, (from, to), best[(from, to)])
    ensures (from, to) in best ==> forall w :: WalkFrom(m.Keys, w, from, to) ==> Product(m, w) <= best[(from, to)]
  {
    hide Product;
    forall w | WalkFrom(m.Keys, w, from, to) ensures Dominates(best, m, w) {
    }
  }

  /** One pair for each two ids joined by a path, in that direction, with the best product of a path. */
  ghost predicate ListsBest(m: Matrix, pairs: seq<CrosswalkPair>) {
    && (forall x: nat, y: nat :: Joined(m.Keys, x, y) <==> exists v :: CrosswalkPair(x, y, v) in pairs)
    && (forall i, j :: 0 <= i < j < |pairs| ==> (pairs[i].src, pairs[i].dst) != (pairs[j].src, pairs[j].dst))
    && (forall c :: c in pairs ==> Attains(m, (c.src, c.dst), c.confidence))
    && (forall c, w :: c in pairs && WalkFrom(m.Keys, w, c.src, c.dst) ==> Product(m, w) <= c.confidence)
  }

  lemma BestIsListed(m: Matrix, pairs: seq<CrosswalkPair>)
    requires var best := Loaded(PairTriples(pairs)); BestOverAllWalks(m, best) && Lists(PairTriples(pairs), best)
    ensures ListsBest(m, pairs)
  {
    var ts, best := PairTriples(pairs), Loaded(PairTriples(pairs));
    hide Loaded;
    hide Product;
    hide Attains;
    hide Joined;
    forall c | c in pairs
      ensures (c.src, c.dst) in best && best[(c.src, c.dst)] == c.confidence
    {
      var k :| 0 <= k < |pairs| && pairs[k] == c;
      assert (ts[k].0, ts[k].1) in best;
    }
    forall x: nat, y: nat ensures Joined(m.Keys, x, y) <==> exists v :: CrosswalkPair(x, y, v) in pairs {
      if (x, y) in best {
        assert (x, y, best[(x, y)]) in ts;
        var k :| 0 <= k < |ts| && ts[k] == (x, y, best[(x, y)]);
        assert pairs[k] == CrosswalkPair(x, y, best[(x, y)]);
      }
    }
    forall i, j | 0 <= i < j < |pairs| ensures (pairs[i].src, pairs[i].dst) != (pairs[j].src, pairs[j].dst) {
      assert (ts[i].0, ts[i].1) != (ts[j].0, ts[j].1);
    }
    hide Lists;
    hide BestOverAllWalks;
    forall c, w | c in pairs && WalkFrom(m.Keys, w, c.src, c.dst) ensures Product(m, w) <= c.confidence {
      BestAt(m, best, c.src, c.dst);
    }
    forall c | c in pairs ensures Attains(m, (c.src, c.dst), c.confidence) {
      BestAt(m, best, c.src, c.dst);
    }
  }

  ghost function PairTriples(pairs: seq<CrosswalkPair>): seq<WeightedEdge> {
    seq(|pairs|, k requires 0 <= k < |pairs| => (pairs[k].src, pairs[k].dst, pairs[k].confidence))
  }

  lemma NamedCell(ids: seq<nat>, dense: seq<WeightedEdge>, named: seq<WeightedEdge>, m: Matrix, k: nat)
    requires NoDup(ids) && SameEdges(ids, dense, named) && Lists(dense, m) && k < |named|
    ensures (named[k].0, named[k].1) in Loaded(named) && Loaded(named)[(named[k].0, named[k].1)] == named[k].2
  {
    hide Loaded;
    LoadedLists(dense, m);
    var p := (dense[k].0, dense[k].1);
    assert p in m && m[p] == dense[k].2;
    hide Lists;
    LoadedEntry(ids, dense, named, p);
  }

  lemma NamedApart(ids: seq<nat>, x: WeightedEdge, y: WeightedEdge, x': WeightedEdge, y': WeightedEdge)
    requires NoDup(ids) && x.0 < |ids| && x.1 < |ids| && y.0 < |ids| && y.1 < |ids|
    requires x' == (ids[x.0], ids[x.1], x.2) && y' == (ids[y.0], ids[y.1], y.2)
    requires (x.0, x.1) != (y.0, y.1)
    ensures (x'.0, x'.1) != (y'.0, y'.1)
  {
  }

  lemma NamedLists(ids: seq<nat>, dense: seq<WeightedEdge>, named: seq<WeightedEdge>, m: Matrix)
    requires NoDup(ids) && SameEdges(ids, dense, named) && Lists(dense, m)
    ensures Lists(named, Loaded(named))
  {
    hide Loaded;
    forall k | 0 <= k < |named|
      ensures (named[k].0, named[k].1) in Loaded(named) && Loaded(named)[(named[k].0, named[k].1)] == named[k].2
    {
      NamedCell(ids, dense, named, m, k);
    }
    forall q | q in Loaded(named) ensures (q.0, q.1, Loaded(named)[q]) in named {
      LoadedIsBest(named, q);
    }
    forall i, j | 0 <= i < j < |named| ensures (named[i].0, named[i].1) != (named[j].0, named[j].1) {
      assert (dense[i].0, dense[i].1) != (dense[j].0, dense[j].1);
      NamedApart(ids, dense[i], dense[j], named[i], named[j]);
    }
  }

  lemma NamedIsBest(ids: seq<nat>, m: Matrix, d: Matrix, r: Matrix, dense: seq<WeightedEdge>, named: seq<WeightedEdge>)
    requires NoDup(ids) && Renames(ids, m, d) && BestOverAllWalks(m, r)
    requires Lists(dense, r) && SameEdges(ids, dense, named)
    ensures BestOverAllWalks(d, Loaded(named)) && Lists(named, Loaded(named))
  {
    hide Renames;
    hide BestOverAllWalks;
    hide Lists;
    hide Loaded;
    LoadedLists(dense, r);
    LoadedRenames(ids, dense, named);
    RenamedBest(ids, m, d, r, Loaded(named));
    NamedLists(ids, dense, named, r);
  }

  /** A linear search over the listed pairs finds the entry exactly when there is one. */
  lemma PairFound(pairs: seq<CrosswalkPair>, best: Matrix, from: nat, to: nat, i: nat)
    requires Lists(PairTriples(pairs), best) && i <= |pairs|
    requires forall k :: 0 <= k < i ==> (pairs[k].src, pairs[k].dst) != (from, to)
    ensures i < |pairs| && (pairs[i].src, pairs[i].dst) == (from, to) ==>
              (from, to) in best && best[(from, to)] == pairs[i].confidence
    ensures i == |pairs| ==> (from, to) !in best
  {
    var ts := PairTriples(pairs);
    if i < |pairs| {
      assert (ts[i].0, ts[i].1) in best && best[(ts[i].0, ts[i].1)] == ts[i].2;
    } else {
      assert forall k :: 0 <= k < |ts| ==> (ts[k].0, ts[k].1) == (pairs[k].src, pairs[k].dst) != (from, to);
    }
  }

  lemma UnknownIsUnreachable(ids: seq<nat>, m: Matrix, d: Matrix, from: nat, to: nat)
    requires Renames(ids, m, d) && (from !in ids || to !in ids)
    ensures !Joined(d.Keys, from, to)
  {
    forall w ensures !WalkFrom(d.Keys, w, from, to) {
      if |w| >= 2 {
        var n := |w| - 1;
        assert (w[0], w[1]) in d ==> w[0] in ids;
        assert (w[n - 1], w[n]) in d ==> w[n] in ids;
      }
    }
  }

  ghost predicate FirstUnacceptable(edges: seq<CrosswalkEdge>, k: nat, error: CrosswalkError) {
    && k < |edges| && !(0.0 < edges[k].confidence <= 1.0)
    && (forall j :: 0 <= j < k ==> 0.0 < edges[j].confidence <= 1.0)
    && error == InvalidConfidence(edges[k].src, edges[k].dst, edges[k].confidence)
  }

  /** `m` joins exactly the asserted pairs of ids, each with the largest confidence asserted for it. */
  ghost predicate Strongest(edges: seq<CrosswalkEdge>, m: Matrix) {
    && (forall k :: 0 <= k < |edges| ==>
          (edges[k].src, edges[k].dst) in m && edges[k].confidence <= m[(edges[k].src, edges[k].dst)])
    && (forall p :: p in m ==> CrosswalkEdge(p.0, p.1, m[p]) in edges)
  }

  lemma AssertedIsStrongest(edges: seq<CrosswalkEdge>)
    ensures Strongest(edges, Asserted(edges))
  {
    hide Loaded;
    var ts, m := Triples(edges), Asserted(edges);
    forall k | 0 <= k < |edges|
      ensures (edges[k].src, edges[k].dst) in m && edges[k].confidence <= m[(edges[k].src, edges[k].dst)]
    {
      LoadedIsBest(ts, (ts[k].0, ts[k].1));
    }
    forall p | p in m ensures CrosswalkEdge(p.0, p.1, m[p]) in edges {
      LoadedIsBest(ts, p);
      var k :| 0 <= k < |ts| && ts[k] == (p.0, p.1, m[p]);
      assert edges[k] == CrosswalkEdge(p.0, p.1, m[p]);
    }
  }

  /** Validate, renumber in first-appearance order and load.  The first unacceptable edge is the
      one reported. */
  method FromEdges(edges: seq<CrosswalkEdge>) returns (r: Result<CrosswalkGraph, CrosswalkError>)
    ensures r.Err? <==> exists k :: 0 <= k < |edges| && !(0.0 < edges[k].confidence <= 1.0)
    ensures r.Err? ==> exists k :: FirstUnacceptable(edges, k, r.error)
    ensures r.Ok? ==> fresh(r.value) && r.value.Valid() && r.value.asserted == Asserted(edges)
    ensures r.Ok? ==> Strongest(edges, r.value.asserted)
  {
    hide Strongest;
    hide Loaded;
    hide Renames;
    hide SameEdges;
    hide Triples;
    hide Asserted;
    hide WithinEdges;
    hide Confidences;
    hide NoDup;
    hide DenseIdMap.Valid;
    hide AcceptableUpTo;
    var taken, ids, dense := TakeEdges(edges);
    StoppedAt(edges, taken);
    if taken < |edges| {
      var e := edges[taken];
      return Err(InvalidConfidence(e.src, e.dst, e.confidence));
    }
    ids.Distinct();
    GraphIsReady(ids.reverse, dense, edges);
    AssertedIsStrongest(edges);
    var matrix := new ValuedMatrix.FromWeightedEdges(|ids.reverse|, dense);
    var g := new CrosswalkGraph(ids, matrix, Asserted(edges));
    r := Ok(g);
  }

  ghost predicate AcceptableUpTo(edges: seq<CrosswalkEdge>, i: nat) {
    i <= |edges| && forall k :: 0 <= k < i ==> Acceptable(edges[k])
  }

  lemma StoppedAt(edges: seq<CrosswalkEdge>, i: nat)
    requires AcceptableUpTo(edges, i) && (i < |edges| ==> !Acceptable(edges[i]))
    ensures i < |edges| <==> exists k :: 0 <= k < |edges| && !(0.0 < edges[k].confidence <= 1.0)
    ensures i < |edges| ==>
              FirstUnacceptable(edges, i, InvalidConfidence(edges[i].src, edges[i].dst, edges[i].confidence))
  {
  }

  lemma StartAcceptable(edges: seq<CrosswalkEdge>)
    ensures AcceptableUpTo(edges, 0)
  {
  }

  lemma NextAcceptable(edges: seq<CrosswalkEdge>, i: nat)
    requires AcceptableUpTo(edges, i)
    ensures i < |edges| && Acceptable(edges[i]) ==> AcceptableUpTo(edges, i + 1)
  {
  }

  /** Renumber the edges in order, up to the first unacceptable one. */
  method TakeEdges(edges: seq<CrosswalkEdge>) returns (taken: nat, ids: DenseIdMap, dense: seq<WeightedEdge>)
    ensures AcceptableUpTo(edges, taken) && (taken < |edges| ==> !Acceptable(edges[taken]))
    ensures fresh(ids) && ids.Valid() && taken <= |edges|
    ensures taken == |edges| ==> SameEdges(ids.reverse, dense, Triples(edges))
  {
    hide SameEdges;
    hide Triples;
    hide AcceptableUpTo;
    hide DenseIdMap.Valid;
    StartAcceptable(edges);
    ids := new DenseIdMap();
    dense, taken := [], 0;
    NoEdgesYet(ids.reverse, edges);
    while taken < |edges|
      invariant 0 <= taken <= |edges| && fresh(ids) && ids.Valid() && AcceptableUpTo(edges, taken)
      invariant SameEdges(ids.reverse, dense, Triples(edges[..taken]))
    {
      var e := edges[taken];
      NextAcceptable(edges, taken);
      if !Acceptable(e) {
        return;
      }
      ghost var before := ids.reverse;
      var s := ids.Intern(e.src);
      var o := ids.Intern(e.dst);
      SameEdgesNext(before, ids.reverse, dense, edges, taken, s, o);
      dense := dense + [(s, o, e.confidence)];
      taken := taken + 1;
    }
    assert edges[..taken] == edges;
  }

  /** What the renumbered edge list promises once every edge has been taken in. */
  lemma GraphIsReady(ids: seq<nat>, dense: seq<WeightedEdge>, edges: seq<CrosswalkEdge>)
    requires NoDup(ids) && SameEdges(ids, dense, Triples(edges))
    requires AcceptableUpTo(edges, |edges|)
    ensures WithinEdges(dense, |ids|)
    ensures Confidences(Asserted(edges)) && Renames(ids, Loaded(dense), Asserted(edges))
  {
    hide Loaded;
    hide Renames;
    LoadedRenames(ids, dense, Triples(edges));
    AssertedConfidences(edges);
  }

  lemma NoEdgesYet(ids: seq<nat>, edges: seq<CrosswalkEdge>)
    ensures SameEdges(ids, [], Triples(edges[..0]))
  {
  }

  lemma SameEdgesNext(ids: seq<nat>, ids': seq<nat>, dense: seq<WeightedEdge>, edges: seq<CrosswalkEdge>, i: nat,
                      s: nat, o: nat)
    requires i < |edges| && SameEdges(ids, dense, Triples(edges[..i])) && ids <= ids'
    requires s < |ids'| && o < |ids'| && ids'[s] == edges[i].src && ids'[o] == edges[i].dst
    ensures SameEdges(ids', dense + [(s, o, edges[i].confidence)], Triples(edges[..i + 1]))
  {
  }
}
