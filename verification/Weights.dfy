/** Weighted graphs over exact reals: trails, their products, and cycle removal. */
module Weights {
  import opened Relations

  /** Stored entries of a matrix; an absent coordinate has no value at all. */
  type Matrix = map<Edge, real>

  /** A trail may be a single node; a walk has at least one edge. */
  ghost predicate Trail(e: Rel, w: seq<nat>) {
    |w| >= 1 && forall a, b :: 0 <= a && b == a + 1 && b < |w| ==> (w[a], w[b]) in e
  }

  /** The multiplication of the semiring. */
  function Times(x: real, y: real): real {
    x * y
  }

  /** The product of the edge weights along a trail. */
  ghost function Product(m: Matrix, w: seq<nat>): real
    requires Trail(m.Keys, w)
    decreases |w|
  {
    var n := |w| - 1;
    if n == 0 then 1.0 else Product(m, w[..n]) * m[(w[n - 1], w[n])]
  }

  ghost predicate Positive(m: Matrix) {
    forall p :: p in m ==> m[p] > 0.0
  }

  /** The documented weight contract: confidences in (0, 1]. */
  ghost predicate Confidences(m: Matrix) {
    forall p :: p in m ==> 0.0 < m[p] <= 1.0
  }

  /** A closed walk whose product exceeds one: going round it again always pays. */
  ghost predicate Amplifying(m: Matrix, c: seq<nat>) {
    Walk(m.Keys, c) && c[0] == c[|c| - 1] && Product(m, c) > 1.0
  }

  lemma TimesMono(x: real, x': real, y: real, y': real)
    requires 0.0 <= x <= x' && 0.0 <= y <= y'
    ensures 0.0 <= Times(x, y) <= Times(x', y')
  {
    assert x * y <= x' * y;
    assert x' * y <= x' * y';
  }

  lemma TimesLaws(x: real, y: real, z: real)
    ensures Times(Times(x, y), z) == Times(x, Times(y, z))
    ensures Times(x, 1.0) == x && Times(1.0, x) == x
    ensures x > 0.0 && y > 0.0 ==> Times(x, y) > 0.0
  {
  }

  /** The semiring's multiplication computes the product of a trail. */
  lemma ProductStep(m: Matrix, w: seq<nat>)
    requires Trail(m.Keys, w) && |w| >= 2
    ensures var n := |w| - 1;
      Trail(m.Keys, w[..n]) && Product(m, w) == Times(Product(m, w[..n]), m[(w[n - 1], w[n])])
  {
  }

  /** The last edge of a trail. */
  lemma ProductLast(m: Matrix, w: seq<nat>, y: nat)
    requires Trail(m.Keys, w) && (w[|w| - 1], y) in m
    ensures Trail(m.Keys, w + [y]) && Product(m, w + [y]) == Times(Product(m, w), m[(w[|w| - 1], y)])
  {
    var v := w + [y];
    assert v[..|w|] == w && v[|w| - 1] == w[|w| - 1];
    ProductStep(m, v);
    hide Times;
    hide Product;
  }

  lemma EdgeProduct(m: Matrix, p: Edge)
    requires p in m
    ensures WalkFrom(m.Keys, [p.0, p.1], p.0, p.1) && Product(m, [p.0, p.1]) == m[p]
  {
    ProductLast(m, [p.0], p.1);
    TimesLaws(m[p], 1.0, 1.0);
  }

  lemma TrailSlices(e: Rel, w: seq<nat>, i: nat, j: nat)
    requires Trail(e, w) && i < j <= |w|
    ensures Trail(e, w[i..j])
    ensures i + 1 < |w| ==> (w[i], w[i + 1]) in e
  {
  }

  lemma {:induction false} ProductPositive(m: Matrix, w: seq<nat>)
    requires Trail(m.Keys, w) && Positive(m)
    ensures Product(m, w) > 0.0
    decreases |w|
  {
    var n := |w| - 1;
    if n > 0 {
      ProductStep(m, w);
      hide Times;
      TrailSlices(m.Keys, w, 0, n);
      TrailSlices(m.Keys, w, n - 1, n);
      ProductPositive(m, w[..n]);
      TimesLaws(Product(m, w[..n]), m[(w[n - 1], w[n])], 0.0);
    }
  }

  /** Under the weight contract no product exceeds one, so nothing amplifies. */
  lemma {:induction false} ConfidenceProduct(m: Matrix, w: seq<nat>)
    requires Trail(m.Keys, w) && Confidences(m)
    ensures 0.0 < Product(m, w) <= 1.0
    decreases |w|
  {
    var n := |w| - 1;
    if n > 0 {
      ProductStep(m, w);
      hide Times;
      TrailSlices(m.Keys, w, 0, n);
      TrailSlices(m.Keys, w, n - 1, n);
      ConfidenceProduct(m, w[..n]);
      var x, y := Product(m, w[..n]), m[(w[n - 1], w[n])];
      TimesLaws(x, y, 0.0);
      TimesLaws(1.0, 1.0, 0.0);
      TimesMono(x, 1.0, y, 1.0);
    }
  }

  /** Two trails joined at a shared node multiply. */
  lemma {:induction false} ProductJoins(m: Matrix, v: seq<nat>, w: seq<nat>)
    requires Trail(m.Keys, v) && Trail(m.Keys, w) && v[|v| - 1] == w[0]
    ensures Trail(m.Keys, v + w[1..])
    ensures Product(m, v + w[1..]) == Times(Product(m, v), Product(m, w))
    decreases |w|
  {
    hide Times;
    var n := |w| - 1;
    if n == 0 {
      assert v + w[1..] == v;
      TimesLaws(Product(m, v), 1.0, 1.0);
    } else {
      var init, y := w[..n], w[n];
      TrailSlices(m.Keys, w, 0, n);
      TrailSlices(m.Keys, w, n - 1, n);
      ProductJoins(m, v, init);
      var j := v + init[1..];
      assert v + w[1..] == j + [y];
      assert j[|j| - 1] == w[n - 1];
      ProductLast(m, j, y);
      ProductStep(m, w);
      hide Product;
      TimesLaws(Product(m, v), Product(m, init), m[(w[n - 1], y)]);
    }
  }

  /** A trail's product splits at any of its nodes. */
  lemma ProductSplits(m: Matrix, w: seq<nat>, k: nat)
    requires Trail(m.Keys, w) && k < |w|
    ensures Trail(m.Keys, w[..k + 1]) && Trail(m.Keys, w[k..])
    ensures Product(m, w) == Times(Product(m, w[..k + 1]), Product(m, w[k..]))
  {
    hide Product;
    TrailSlices(m.Keys, w, 0, k + 1);
    TrailSlices(m.Keys, w, k, |w|);
    ProductJoins(m, w[..k + 1], w[k..]);
    assert w[..k + 1] + w[k..][1..] == w;
  }

  /** More than n nodes drawn from 0..n must repeat one. */
  lemma Pigeonhole(s: seq<nat>, n: nat) returns (i: nat, j: nat)
    requires |s| > n && forall k :: 0 <= k < |s| ==> s[k] < n
    ensures i < j < |s| && s[i] == s[j]
  {
    NoDupLength(s);
    SizeBelow(Elems(s), n);
    i, j :| 0 <= i < j < |s| && s[i] == s[j];
  }

  /** Cutting out a closed piece that does not amplify never lowers the product. */
  lemma CutCycle(m: Matrix, w: seq<nat>, i: nat, j: nat) returns (w': seq<nat>)
    requires Trail(m.Keys, w) && Positive(m) && i < j < |w| && w[i] == w[j]
    requires !(exists c :: Amplifying(m, c))
    ensures w' == w[..i + 1] + w[j + 1..] && Trail(m.Keys, w') && w'[0] == w[0] && w'[|w'| - 1] == w[|w| - 1]
    ensures Product(m, w') >= Product(m, w)
  {
    hide Product;
    hide Times;
    var pre, rest := w[..i + 1], w[i..];
    ProductSplits(m, w, i);
    ProductSplits(m, rest, j - i);
    var cycle, post := rest[..j - i + 1], rest[j - i..];
    assert !Amplifying(m, cycle);
    ProductPositive(m, pre);
    ProductPositive(m, cycle);
    ProductPositive(m, post);
    TimesMono(Product(m, cycle), 1.0, Product(m, post), Product(m, post));
    TimesLaws(Product(m, post), 1.0, 1.0);
    TimesMono(Product(m, pre), Product(m, pre), Product(m, rest), Product(m, post));
    ProductJoins(m, pre, post);
    w' := pre + post[1..];
    assert post[1..] == w[j + 1..];
  }

  /** In a graph of n nodes where nothing amplifies, every walk is matched by one of at most n edges. */
  lemma {:induction false} ShortWalkSuffices(m: Matrix, n: nat, w: seq<nat>) returns (w': seq<nat>)
    requires Walk(m.Keys, w) && Positive(m) && (forall p :: p in m ==> p.0 < n && p.1 < n)
    requires !(exists c :: Amplifying(m, c))
    ensures Walk(m.Keys, w') && w'[0] == w[0] && w'[|w'| - 1] == w[|w| - 1] && |w'| <= n + 1
    ensures Product(m, w') >= Product(m, w)
    decreases |w|
  {
    if |w| <= n + 1 {
      return w;
    }
    forall k | 0 <= k < n + 1 ensures w[k] < n {
      assert (w[k], w[k + 1]) in m;
    }
    var i, j := Pigeonhole(w[..n + 1], n);
    var shorter := CutCycle(m, w, i, j);
    w' := ShortWalkSuffices(m, n, shorter);
  }
}
