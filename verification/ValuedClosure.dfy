/** Best-confidence closure: the frontier loop over the (max, times) semiring. */
module ValuedClosure {
  import opened Wrappers
  import opened Relations
  import opened Weights
  import opened DenseIds

  // ----- the matrix operations, by meaning

  function Better(x: Option<real>, y: Option<real>): Option<real> {
    if x.None? then y else if y.None? || x.value >= y.value then x else y
  }

  function Via(a: Matrix, b: Matrix, i: nat, j: nat, l: nat): Option<real> {
    if (i, l) in a && (l, j) in b then Some(Times(a[(i, l)], b[(l, j)])) else None
  }

  /** The best product through a middle node below `k`. */
  function BestVia(a: Matrix, b: Matrix, i: nat, j: nat, k: nat): Option<real> {
    if k == 0 then None else Better(BestVia(a, b, i, j, k - 1), Via(a, b, i, j, k - 1))
  }

  function MaxTimes(a: Matrix, b: Matrix, n: nat): Matrix {
    map i: nat, j: nat | i < n && j < n && BestVia(a, b, i, j, n).Some? :: (i, j) := BestVia(a, b, i, j, n).value
  }

  /** Element-wise maximum over the union of the patterns. */
  function MaxUnion(a: Matrix, b: Matrix): Matrix {
    map p | p in a.Keys + b.Keys :: if p !in a || (p in b && b[p] > a[p]) then b[p] else a[p]
  }

  lemma {:induction false} BestViaIsBest(a: Matrix, b: Matrix, i: nat, j: nat, k: nat)
    ensures forall l :: 0 <= l < k && Via(a, b, i, j, l).Some? ==>
              BestVia(a, b, i, j, k).Some? && Via(a, b, i, j, l).value <= BestVia(a, b, i, j, k).value
    ensures BestVia(a, b, i, j, k).Some? ==> exists l :: 0 <= l < k && Via(a, b, i, j, l) == BestVia(a, b, i, j, k)
  {
    if k > 0 {
      BestViaIsBest(a, b, i, j, k - 1);
      if BestVia(a, b, i, j, k).Some? && BestVia(a, b, i, j, k) == BestVia(a, b, i, j, k - 1) {
        var l :| 0 <= l < k - 1 && Via(a, b, i, j, l) == BestVia(a, b, i, j, k - 1);
        assert Via(a, b, i, j, l) == BestVia(a, b, i, j, k);
      }
    }
  }

  lemma MaxTimesAttained(a: Matrix, b: Matrix, n: nat, p: Edge) returns (l: nat)
    requires p in MaxTimes(a, b, n)
    ensures l < n && (p.0, l) in a && (l, p.1) in b
    ensures MaxTimes(a, b, n)[p] == Times(a[(p.0, l)], b[(l, p.1)])
  {
    hide Times;
    hide BestVia;
    BestViaIsBest(a, b, p.0, p.1, n);
    l :| 0 <= l < n && Via(a, b, p.0, p.1, l) == BestVia(a, b, p.0, p.1, n);
  }

  lemma MaxTimesBounds(a: Matrix, b: Matrix, n: nat, i: nat, l: nat, j: nat)
    requires i < n && l < n && j < n && (i, l) in a && (l, j) in b
    ensures (i, j) in MaxTimes(a, b, n) && Times(a[(i, l)], b[(l, j)]) <= MaxTimes(a, b, n)[(i, j)]
  {
    hide Times;
    hide BestVia;
    BestViaIsBest(a, b, i, j, n);
    assert Via(a, b, i, j, l).Some?;
  }

  /** `b` has an entry at every coordinate of `a`, at least as large. */
  ghost predicate Below(a: Matrix, b: Matrix) {
    a.Keys <= b.Keys && forall p :: p in a ==> a[p] <= b[p]
  }

  /** Coordinates of the shared pattern where `a` is strictly greater. */
  function StrictlyGreater(a: Matrix, b: Matrix): set<Edge> {
    set p | p in a && p in b && a[p] > b[p]
  }

  /** The two-part stop test is exact: no new coordinate and no strict gain is "pointwise below". */
  lemma StopTestExact(next: Matrix, reach: Matrix)
    ensures |MaxUnion(reach, next)| == |reach| && |StrictlyGreater(next, reach)| == 0 <==> Below(next, reach)
    ensures Below(next, reach) ==> MaxUnion(reach, next) == reach
  {
    var joined := MaxUnion(reach, next);
    assert joined.Keys == reach.Keys + next.Keys;
    SubsetSize(reach.Keys, joined.Keys);
    assert |joined| == |joined.Keys| && |reach| == |reach.Keys|;
    if |joined| == |reach| && |StrictlyGreater(next, reach)| == 0 {
      forall p | p in next ensures p in reach && next[p] <= reach[p] {
        assert p in joined.Keys;
        assert p !in StrictlyGreater(next, reach);
      }
    }
    if Below(next, reach) {
      assert joined.Keys == reach.Keys;
      assert StrictlyGreater(next, reach) == {};
    }
  }

  // ----- powers and their accumulation

  ghost function Power(m: Matrix, n: nat, t: nat): Matrix
    requires t >= 1
  {
    if t == 1 then m else MaxTimes(Power(m, n, t - 1), m, n)
  }

  ghost function Folded(m: Matrix, n: nat, t: nat): Matrix
    requires t >= 1
  {
    if t == 1 then m else MaxUnion(Folded(m, n, t - 1), Power(m, n, t))
  }

  /** Every entry of the t-th power is the product of a walk of exactly t edges. */
  lemma {:induction false} PowerAttained(m: Matrix, n: nat, t: nat, p: Edge) returns (w: seq<nat>)
    requires t >= 1 && p in Power(m, n, t)
    ensures WalkFrom(m.Keys, w, p.0, p.1) && |w| == t + 1 && Product(m, w) == Power(m, n, t)[p]
    decreases t
  {
    hide Product;
    hide Times;
    hide MaxTimes;
    if t == 1 {
      w := [p.0, p.1];
      EdgeProduct(m, p);
    } else {
      var l := MaxTimesAttained(Power(m, n, t - 1), m, n, p);
      var v := PowerAttained(m, n, t - 1, (p.0, l));
      w := v + [p.1];
      ProductLast(m, v, p.1);
    }
  }

  /** No walk of exactly t edges beats the t-th power. */
  lemma {:induction false} PowerBounds(m: Matrix, n: nat, t: nat, w: seq<nat>)
    requires t >= 1 && Positive(m) && InRange(m.Keys, n) && Walk(m.Keys, w) && |w| == t + 1
    ensures (w[0], w[t]) in Power(m, n, t) && Product(m, w) <= Power(m, n, t)[(w[0], w[t])]
    decreases t
  {
    hide Product;
    hide Times;
    hide MaxTimes;
    TrailSlices(m.Keys, w, 0, t);
    TrailSlices(m.Keys, w, t - 1, t);
    var last := (w[t - 1], w[t]);
    if t == 1 {
      assert w == [w[0], w[1]];
      EdgeProduct(m, last);
    } else {
      PowerBounds(m, n, t - 1, w[..t]);
      TrailSlices(m.Keys, w, 0, 1);
      MaxTimesBounds(Power(m, n, t - 1), m, n, w[0], w[t - 1], w[t]);
      assert w == w[..t] + [w[t]];
      ProductLast(m, w[..t], w[t]);
      ProductPositive(m, w[..t]);
      TimesMono(Product(m, w[..t]), Power(m, n, t - 1)[(w[0], w[t - 1])], m[last], m[last]);
    }
  }

  lemma {:induction false} FoldedAttained(m: Matrix, n: nat, t: nat, p: Edge) returns (w: seq<nat>)
    requires t >= 1 && p in Folded(m, n, t)
    ensures WalkFrom(m.Keys, w, p.0, p.1) && |w| <= t + 1 && Product(m, w) == Folded(m, n, t)[p]
    decreases t
  {
    hide Product;
    hide MaxTimes;
    if t == 1 {
      w := PowerAttained(m, n, 1, p);
    } else if p in Folded(m, n, t - 1) && Folded(m, n, t)[p] == Folded(m, n, t - 1)[p] {
      w := FoldedAttained(m, n, t - 1, p);
    } else {
      w := PowerAttained(m, n, t, p);
    }
  }

  /** No walk of at most t edges beats the fold of the first t powers. */
  lemma {:induction false} FoldedBounds(m: Matrix, n: nat, t: nat, w: seq<nat>)
    requires t >= 1 && Positive(m) && InRange(m.Keys, n) && Walk(m.Keys, w) && |w| <= t + 1
    ensures var p := (w[0], w[|w| - 1]); p in Folded(m, n, t) && Product(m, w) <= Folded(m, n, t)[p]
    decreases t
  {
    hide Product;
    hide MaxTimes;
    if |w| == t + 1 {
      PowerBounds(m, n, t, w);
    } else {
      FoldedBounds(m, n, t - 1, w);
    }
  }

  // ----- the result

  ghost predicate Attains(m: Matrix, p: Edge, v: real) {
    exists w :: WalkFrom(m.Keys, w, p.0, p.1) && Product(m, w) == v
  }

  ghost predicate Dominates(r: Matrix, m: Matrix, w: seq<nat>)
    requires Walk(m.Keys, w)
  {
    var p := (w[0], w[|w| - 1]);
    p in r && Product(m, w) <= r[p]
  }

  /** `r` gives every pair the maximum product over all its walks of any length; a pair has an
      entry exactly when some walk joins it. */
  ghost predicate BestOverAllWalks(m: Matrix, r: Matrix) {
    && (forall p: Edge :: p in r <==> Joined(m.Keys, p.0, p.1))
    && (forall p: Edge :: p in r ==> Attains(m, p, r[p]))
    && (forall w :: Walk(m.Keys, w) ==> Dominates(r, m, w))
  }

  /** A fold that has reached its fixed point absorbs one more edge. */
  lemma FixpointAbsorbs(m: Matrix, n: nat, t: nat, p: Edge, y: nat)
    requires t >= 1 && Positive(m) && InRange(m.Keys, n)
    requires Below(Power(m, n, t + 1), Folded(m, n, t))
    requires p in Folded(m, n, t) && (p.1, y) in m
    ensures (p.0, y) in Folded(m, n, t)
    ensures Times(Folded(m, n, t)[p], m[(p.1, y)]) <= Folded(m, n, t)[(p.0, y)]
  {
    hide Product;
    hide Times;
    hide Power;
    hide Folded;
    var v := FoldedAttained(m, n, t, p);
    ProductLast(m, v, y);
    if |v| <= t {
      FoldedBounds(m, n, t, v + [y]);
    } else {
      PowerBounds(m, n, t + 1, v + [y]);
    }
  }

  /** Once the next power is below the fold, no longer walk improves anything. */
  lemma {:induction false} FixpointDominates(m: Matrix, n: nat, t: nat, w: seq<nat>)
    requires t >= 1 && Positive(m) && InRange(m.Keys, n) && Walk(m.Keys, w)
    requires Below(Power(m, n, t + 1), Folded(m, n, t))
    ensures Dominates(Folded(m, n, t), m, w)
    decreases |w|
  {
    hide Product;
    hide Times;
    hide Power;
    hide Folded;
    var k := |w| - 1;
    if k == 1 {
      FoldedBounds(m, n, t, w);
    } else {
      TrailSlices(m.Keys, w, 0, k);
      TrailSlices(m.Keys, w, k - 1, k);
      FixpointDominates(m, n, t, w[..k]);
      assert w == w[..k] + [w[k]];
      ProductLast(m, w[..k], w[k]);
      var p, last := (w[0], w[k - 1]), m[(w[k - 1], w[k])];
      ProductPositive(m, w[..k]);
      TimesMono(Product(m, w[..k]), Folded(m, n, t)[p], last, last);
      FixpointAbsorbs(m, n, t, p, w[k]);
    }
  }

  lemma FixpointIsBest(m: Matrix, n: nat, t: nat)
    requires t >= 1 && Positive(m) && InRange(m.Keys, n)
    requires Below(Power(m, n, t + 1), Folded(m, n, t))
    ensures BestOverAllWalks(m, Folded(m, n, t))
  {
    hide Product;
    hide Power;
    hide Folded;
    var r := Folded(m, n, t);
    forall w | Walk(m.Keys, w) ensures Dominates(r, m, w) {
      FixpointDominates(m, n, t, w);
    }
    forall p: Edge | p in r ensures Attains(m, p, r[p]) && Joined(m.Keys, p.0, p.1) {
      var w := FoldedAttained(m, n, t, p);
    }
    forall p: Edge | Joined(m.Keys, p.0, p.1) ensures p in r {
      var w :| WalkFrom(m.Keys, w, p.0, p.1);
      assert Dominates(r, m, w);
    }
  }

  /** When nothing amplifies, n powers are enough: the next one is already below the fold. */
  lemma FixpointByN(m: Matrix, n: nat)
    requires n >= 1 && Positive(m) && InRange(m.Keys, n) && !(exists c :: Amplifying(m, c))
    ensures Below(Power(m, n, n + 1), Folded(m, n, n))
  {
    hide Product;
    hide Power;
    hide Folded;
    forall p | p in Power(m, n, n + 1)
      ensures p in Folded(m, n, n) && Power(m, n, n + 1)[p] <= Folded(m, n, n)[p]
    {
      var w := PowerAttained(m, n, n + 1, p);
      var short := ShortWalkSuffices(m, n, w);
      FoldedBounds(m, n, n, short);
    }
  }

  lemma SquareGrows(v: real)
    requires v > 1.0
    ensures Times(v, v) > v
  {
  }

  /** An amplifying closed walk rules a maximum out: going round it twice beats going round once. */
  lemma AmplifyingHasNoBest(m: Matrix, r: Matrix, c: seq<nat>)
    requires Positive(m) && Amplifying(m, c)
    ensures !BestOverAllWalks(m, r)
  {
    hide Product;
    hide Times;
    if BestOverAllWalks(m, r) {
      var p := (c[0], c[0]);
      assert Dominates(r, m, c);
      assert Attains(m, p, r[p]);
      var w :| WalkFrom(m.Keys, w, p.0, p.1) && Product(m, w) == r[p];
      var twice := w + w[1..];
      ProductJoins(m, w, w);
      assert Walk(m.Keys, twice) && twice[0] == c[0] && twice[|twice| - 1] == c[0];
      assert Dominates(r, m, twice);
      var v := r[p];
      SquareGrows(v);
    }
  }

  // ----- the loop

  type WeightedEdge = (nat, nat, real)

  /** The stored entries of a list of weighted edges; a repeated coordinate keeps its best weight. */
  function Loaded(edges: seq<WeightedEdge>): Matrix {
    if edges == [] then map[]
    else
      var init, e := Loaded(edges[..|edges| - 1]), edges[|edges| - 1];
      MaxUnion(init, map[(e.0, e.1) := e.2])
  }

  /** A matrix loaded from edges holds, at each coordinate, the largest weight listed there. */
  lemma {:induction false} LoadedIsBest(edges: seq<WeightedEdge>, p: Edge)
    ensures p in Loaded(edges) <==> exists k :: 0 <= k < |edges| && (edges[k].0, edges[k].1) == p
    ensures p in Loaded(edges) ==> exists k :: 0 <= k < |edges| && edges[k] == (p.0, p.1, Loaded(edges)[p])
    ensures forall k :: 0 <= k < |edges| && (edges[k].0, edges[k].1) == p ==>
              p in Loaded(edges) && edges[k].2 <= Loaded(edges)[p]
    decreases |edges|
  {
    if edges != [] {
      var n := |edges| - 1;
      LoadedIsBest(edges[..n], p);
      var init, e := Loaded(edges[..n]), edges[n];
      if p in Loaded(edges) {
        if p == (e.0, e.1) && Loaded(edges)[p] == e.2 {
          assert edges[n] == (p.0, p.1, Loaded(edges)[p]);
        } else {
          var k :| 0 <= k < |edges[..n]| && edges[..n][k] == (p.0, p.1, init[p]);
          assert edges[k] == (p.0, p.1, Loaded(edges)[p]);
        }
      }
    }
  }

  ghost predicate WithinEdges(edges: seq<WeightedEdge>, n: nat) {
    forall k :: 0 <= k < |edges| ==> edges[k].0 < n && edges[k].1 < n
  }

  class ValuedMatrix {
    const n: nat
    var entries: Matrix

    ghost predicate Valid()
      reads this
    {
      InRange(entries.Keys, n)
    }

    constructor FromEntries(n: nat, entries: Matrix)
      requires InRange(entries.Keys, n)
      ensures Valid() && this.n == n && this.entries == entries
    {
      this.n := n;
      this.entries := entries;
    }

    /** Load a triple list, combining duplicates with max. */
    constructor FromWeightedEdges(n: nat, edges: seq<WeightedEdge>)
      requires WithinEdges(edges, n)
      ensures Valid() && this.n == n && entries == Loaded(edges)
    {
      this.n := n;
      this.entries := Loaded(edges);
      new;
      forall p | p in entries ensures p.0 < n && p.1 < n {
        LoadedIsBest(edges, p);
      }
    }

    function Nvals(): nat
      reads this
    {
      |entries|
    }

    method MxmMaxTimes(other: ValuedMatrix) returns (c: ValuedMatrix)
      requires Valid() && other.Valid() && n == other.n
      ensures fresh(c) && c.Valid() && c.n == n && c.entries == MaxTimes(entries, other.entries, n)
    {
      c := new ValuedMatrix.FromEntries(n, MaxTimes(entries, other.entries, n));
    }

    method MaxAssign(other: ValuedMatrix)
      requires Valid() && other.Valid() && n == other.n
      modifies this
      ensures Valid() && entries == MaxUnion(old(entries), old(other.entries))
    {
      entries := MaxUnion(entries, other.entries);
    }

    function CountStrictlyGreater(other: ValuedMatrix): nat
      reads this, other
    {
      |StrictlyGreater(entries, other.entries)|
    }

    /** Every entry once, in row-major order. */
    method ExtractWeightedEdges() returns (out: seq<WeightedEdge>)
      requires Valid()
      ensures Lists(out, entries) && Ordered(out)
    {
      hide Lists;
      hide Ordered;
      out := [];
      var r := 0;
      ListsNone(entries);
      while r < n
        invariant r <= n && Ordered(out) && Lists(out, FirstCells(entries, r, 0))
      {
        var c := 0;
        while c < n
          invariant c <= n && Ordered(out) && Lists(out, FirstCells(entries, r, c))
        {
          ListsNext(out, entries, r, c);
          if (r, c) in entries {
            out := out + [(r, c, entries[(r, c)])];
          }
          c := c + 1;
        }
        RowDone(entries, n, r);
        r := r + 1;
      }
      RowsDone(entries, n);
    }
  }

  /** `out` lists the entries of `m`, each coordinate once. */
  ghost predicate Lists(out: seq<WeightedEdge>, m: Matrix) {
    && (forall k :: 0 <= k < |out| ==> (out[k].0, out[k].1) in m && m[(out[k].0, out[k].1)] == out[k].2)
    && (forall p :: p in m ==> (p.0, p.1, m[p]) in out)
    && (forall i, j :: 0 <= i < j < |out| ==> (out[i].0, out[i].1) != (out[j].0, out[j].1))
  }

  ghost predicate Ordered(out: seq<WeightedEdge>) {
    forall i, j :: 0 <= i < j < |out| ==> out[i].0 < out[j].0 || (out[i].0 == out[j].0 && out[i].1 < out[j].1)
  }

  /** Entries before cell (r, c) in row-major order. */
  ghost function FirstCells(m: Matrix, r: nat, c: nat): Matrix {
    map p | p in m && (p.0 < r || (p.0 == r && p.1 < c)) :: m[p]
  }

  lemma ListsNone(m: Matrix)
    ensures Ordered([]) && Lists([], FirstCells(m, 0, 0))
  {
  }

  lemma ListsNext(out: seq<WeightedEdge>, m: Matrix, r: nat, c: nat)
    requires Ordered(out) && Lists(out, FirstCells(m, r, c))
    ensures (r, c) !in m ==> FirstCells(m, r, c + 1) == FirstCells(m, r, c)
    ensures (r, c) in m ==>
              var out' := out + [(r, c, m[(r, c)])]; Ordered(out') && Lists(out', FirstCells(m, r, c + 1))
  {
    if (r, c) in m {
      CellsNext(m, r, c);
      ListsOneMore(out, FirstCells(m, r, c), (r, c, m[(r, c)]));
      forall k | 0 <= k < |out| ensures out[k].0 < r || (out[k].0 == r && out[k].1 < c) {
        assert (out[k].0, out[k].1) in FirstCells(m, r, c);
      }
      hide Lists;
      hide FirstCells;
    }
  }

  lemma CellsNext(m: Matrix, r: nat, c: nat)
    requires (r, c) in m
    ensures (r, c) !in FirstCells(m, r, c)
    ensures FirstCells(m, r, c + 1) == FirstCells(m, r, c)[(r, c) := m[(r, c)]]
  {
  }

  lemma ListsOneMore(out: seq<WeightedEdge>, m: Matrix, e: WeightedEdge)
    requires Lists(out, m) && (e.0, e.1) !in m
    ensures Lists(out + [e], m[(e.0, e.1) := e.2])
  {
    var out', m' := out + [e], m[(e.0, e.1) := e.2];
    forall p | p in m' ensures (p.0, p.1, m'[p]) in out' {
      if p == (e.0, e.1) {
        assert out'[|out|] == e;
      } else {
        assert (p.0, p.1, m[p]) in out;
      }
    }
  }

  lemma RowDone(m: Matrix, n: nat, r: nat)
    requires InRange(m.Keys, n)
    ensures FirstCells(m, r, n) == FirstCells(m, r + 1, 0)
  {
    forall p | p in m ensures p.1 < n {
      assert p in m.Keys;
    }
  }

  lemma RowsDone(m: Matrix, n: nat)
    requires InRange(m.Keys, n)
    ensures FirstCells(m, n, 0) == m
  {
    forall p | p in m ensures p.0 < n {
      assert p in m.Keys;
    }
  }

  lemma {:induction false} LoadedLists(out: seq<WeightedEdge>, m: Matrix)
    requires Lists(out, m)
    ensures Loaded(out) == m
  {
    forall p | p in m ensures p in Loaded(out) {
      LoadedIsBest(out, p);
    }
    forall p | p in Loaded(out) ensures p in m && m[p] == Loaded(out)[p] {
      LoadedIsBest(out, p);
    }
  }

  /** Why the loop stopped. */
  datatype Stop = EmptyInput | EmptyFrontier | Fixpoint | Cap

  datatype ClosureMetrics =
    ClosureMetrics(n: nat, inputNnz: nat, closureNnz: nat, iterations: nat, frontierNnz: seq<nat>)

  /** The frontier sizes seen, one per iteration. */
  ghost predicate Profile(m: Matrix, n: nat, frontierNnz: seq<nat>) {
    forall k :: 0 <= k < |frontierNnz| ==> frontierNnz[k] == |Power(m, n, k + 2)|
  }

  lemma ProfileNext(m: Matrix, n: nat, frontierNnz: seq<nat>)
    ensures Profile(m, n, [])
    ensures Profile(m, n, frontierNnz) ==> Profile(m, n, frontierNnz + [|Power(m, n, |frontierNnz| + 2)|])
  {
  }

  /** What the loop returns for any weights at all: a fold of powers, and the work profile. */
  ghost predicate LoopResult(m: Matrix, n: nat, r: Matrix, metrics: ClosureMetrics, stop: Stop) {
    && r == Folded(m, n, metrics.iterations + 1)
    && metrics.n == n && metrics.inputNnz == |m| && metrics.closureNnz == |r|
    && metrics.iterations <= n && |metrics.frontierNnz| == metrics.iterations && Profile(m, n, metrics.frontierNnz)
    && (stop == Cap ==> n >= 1 && metrics.iterations == n && !Below(Power(m, n, n + 1), Folded(m, n, n)))
    && (stop == EmptyInput ==> metrics.iterations == 0 && m == map[])
    && (stop == EmptyFrontier || stop == Fixpoint ==>
          metrics.iterations >= 1 && Below(Power(m, n, metrics.iterations + 1), Folded(m, n, metrics.iterations)))
  }

  lemma EmptyIsBelow(next: Matrix, reach: Matrix)
    ensures |next| == 0 ==> Below(next, reach)
  {
    if |next| == 0 {
      assert next.Keys == {};
    }
  }

  lemma FoldedNext(m: Matrix, n: nat, t: nat)
    requires t >= 1
    ensures Folded(m, n, t + 1) == MaxUnion(Folded(m, n, t), Power(m, n, t + 1))
    ensures Power(m, n, t + 1) == MaxTimes(Power(m, n, t), m, n)
    ensures Power(m, n, 1) == m && Folded(m, n, 1) == m
    ensures var reach, next := Folded(m, n, t), Power(m, n, t + 1);
      && (|Folded(m, n, t + 1)| == |reach| && |StrictlyGreater(next, reach)| == 0 <==> Below(next, reach))
      && (Below(next, reach) ==> Folded(m, n, t + 1) == reach)
      && (|next| == 0 ==> Below(next, reach))
  {
    hide MaxTimes;
    hide MaxUnion;
    hide StrictlyGreater;
    hide Below;
    EmptyIsBelow(Power(m, n, t + 1), Folded(m, n, t));
    StopTestExact(Power(m, n, t + 1), Folded(m, n, t));
  }

  /** Extend the frontier by one hop, fold it in, and stop on an empty frontier, on a step that
      changes nothing, or after N steps.  No assumption on the weights. */
  method ValuedTransitiveClosure(m: ValuedMatrix)
    returns (reach: ValuedMatrix, metrics: ClosureMetrics, stop: Stop)
    requires m.Valid()
    ensures fresh(reach) && reach.Valid() && reach.n == m.n
    ensures LoopResult(m.entries, m.n, reach.entries, metrics, stop)
  {
    hide MaxTimes;
    hide MaxUnion;
    hide StrictlyGreater;
    hide Below;
    hide Loaded;
    hide Lists;
    hide Profile;
    hide Power;
    hide Folded;
    hide InRange;
    hide WithinEdges;
    ghost var e, n := m.entries, m.n;
    var inputNnz := m.Nvals();
    if inputNnz == 0 {
      reach := new ValuedMatrix.FromWeightedEdges(m.n, []);
      metrics := ClosureMetrics(m.n, inputNnz, 0, 0, []);
      EmptyFold(e, n);
      return reach, metrics, EmptyInput;
    }
    var edges := m.ExtractWeightedEdges();
    LoadedLists(edges, e);
    EdgesInRange(edges, e, n);
    reach := new ValuedMatrix.FromWeightedEdges(m.n, edges);
    var frontier := new ValuedMatrix.FromWeightedEdges(m.n, edges);
    var iterations, frontierNnz: seq<nat> := 0, [];
    FoldedNext(e, n, 1);
    ProfileNext(e, n, []);
    assert n >= 1 by { NonEmptyDimension(e, n); }
    while true
      invariant fresh(reach) && reach.Valid() && reach.n == n && m.entries == e
      invariant fresh(frontier) && frontier.Valid() && frontier.n == n
      invariant iterations < n && |frontierNnz| == iterations
      invariant reach.entries == Folded(e, n, iterations + 1) && frontier.entries == Power(e, n, iterations + 1)
      invariant Profile(e, n, frontierNnz)
      decreases n - iterations
    {
      FoldedNext(e, n, iterations + 1);
      ProfileNext(e, n, frontierNnz);
      var next := frontier.MxmMaxTimes(m);
      iterations := iterations + 1;
      frontierNnz := frontierNnz + [next.Nvals()];
      if next.Nvals() == 0 {
        stop := EmptyFrontier;
        break;
      }
      var prevNnz := reach.Nvals();
      var improved := next.CountStrictlyGreater(reach);
      reach.MaxAssign(next);
      var grew := reach.Nvals() != prevNnz;
      if !grew && improved == 0 {
        stop := Fixpoint;
        break;
      }
      frontier := next;
      if iterations >= m.n {
        stop := Cap;
        break;
      }
    }
    metrics := ClosureMetrics(m.n, inputNnz, reach.Nvals(), iterations, frontierNnz);
  }

  lemma EmptyFold(m: Matrix, n: nat)
    requires |m| == 0
    ensures m == map[] && Loaded([]) == Folded(m, n, 1) && Profile(m, n, []) && |Loaded([])| == 0
  {
  }

  lemma NonEmptyDimension(m: Matrix, n: nat)
    requires |m| > 0 && InRange(m.Keys, n)
    ensures n >= 1
  {
    var p :| p in m.Keys;
  }

  lemma EdgesInRange(edges: seq<WeightedEdge>, m: Matrix, n: nat)
    requires Lists(edges, m) && InRange(m.Keys, n)
    ensures WithinEdges(edges, n)
  {
    forall k | 0 <= k < |edges| ensures edges[k].0 < n && edges[k].1 < n {
      assert (edges[k].0, edges[k].1) in m.Keys;
    }
  }

  /** For positive weights the loop returns the maximum over all walks of any length, unless it
      was cut off by the cap; and the cap fires exactly when some closed walk amplifies, in which
      case no maximum exists. */
  lemma CapIsDivergence(m: Matrix, n: nat, r: Matrix, metrics: ClosureMetrics, stop: Stop)
    requires LoopResult(m, n, r, metrics, stop) && Positive(m) && InRange(m.Keys, n)
    ensures stop == Cap <==> exists c :: Amplifying(m, c)
    ensures stop == Cap <==> !BestOverAllWalks(m, r)
  {
    hide Product;
    hide Power;
    hide Folded;
    if stop == Cap {
      if !(exists c :: Amplifying(m, c)) {
        FixpointByN(m, n);
      }
      var c :| Amplifying(m, c);
      AmplifyingHasNoBest(m, r, c);
    } else {
      StoppedIsBest(m, n, r, metrics, stop);
      if c :| Amplifying(m, c) {
        AmplifyingHasNoBest(m, r, c);
      }
    }
  }

  lemma NoWalks(m: Matrix)
    requires m == map[]
    ensures forall w :: !Walk(m.Keys, w)
    ensures forall p: Edge :: !Joined(m.Keys, p.0, p.1)
  {
    forall w ensures !Walk(m.Keys, w) {
      assert |w| < 2 || (w[0], w[1]) !in m.Keys;
    }
  }

  lemma StoppedIsBest(m: Matrix, n: nat, r: Matrix, metrics: ClosureMetrics, stop: Stop)
    requires LoopResult(m, n, r, metrics, stop) && Positive(m) && InRange(m.Keys, n) && stop != Cap
    ensures BestOverAllWalks(m, r)
  {
    if stop == EmptyInput {
      NoWalks(m);
    } else {
      hide Product;
      hide Power;
      var t := metrics.iterations;
      FixpointIsBest(m, n, t);
      FoldedNext(m, n, t);
    }
  }

  /** Under the documented weight contract the cap never fires, the loop stops within N steps, and
      the result is exact. */
  lemma ConfidencesConverge(m: Matrix, n: nat, r: Matrix, metrics: ClosureMetrics, stop: Stop)
    requires LoopResult(m, n, r, metrics, stop) && Confidences(m) && InRange(m.Keys, n)
    ensures stop != Cap && metrics.iterations <= n && BestOverAllWalks(m, r)
    ensures forall p :: p in r ==> 0.0 < r[p] <= 1.0
  {
    CapIsDivergence(m, n, r, metrics, stop);
    if c :| Amplifying(m, c) {
      ConfidenceProduct(m, c);
    }
    forall p | p in r ensures 0.0 < r[p] <= 1.0 {
      assert Attains(m, p, r[p]);
      var w :| WalkFrom(m.Keys, w, p.0, p.1) && Product(m, w) == r[p];
      ConfidenceProduct(m, w);
    }
  }
}
