/** Finite relations over node numbers, walks, and the strict transitive closure.

    The closure is defined by walks.  Three facts about it carry every proof about
    the closure engine: it contains the relation, it is transitive, and it is the
    least relation that absorbs one more leading edge. */
module Relations {

  type Edge = (nat, nat)
  type Rel = set<Edge>

  /** A walk visits at least two nodes, and consecutive nodes are joined by an edge. */
  ghost predicate Walk(e: Rel, w: seq<nat>) {
    |w| >= 2 && forall a, b :: 0 <= a && b == a + 1 && b < |w| ==> (w[a], w[b]) in e
  }

  ghost predicate WalkFrom(e: Rel, w: seq<nat>, x: nat, y: nat) {
    Walk(e, w) && w[0] == x && w[|w| - 1] == y
  }

  ghost predicate Joined(e: Rel, x: nat, y: nat) {
    exists w :: WalkFrom(e, w, x, y)
  }

  ghost function Nodes(e: Rel): set<nat> {
    (set p | p in e :: p.0) + (set p | p in e :: p.1)
  }

  /** Strict transitive closure: no identity is added, so (x, x) appears only on a cycle. */
  ghost function Closure(e: Rel): Rel {
    set x, y | x in Nodes(e) && y in Nodes(e) && Joined(e, x, y) :: (x, y)
  }

  ghost predicate Transitive(t: Rel) {
    forall x, y, z :: (x, y) in t && (y, z) in t ==> (x, z) in t
  }

  /** Prefixing an edge of `e` to a pair of `t` stays in `t`. */
  ghost predicate AbsorbsFirstEdge(e: Rel, t: Rel) {
    forall x, z, y :: (x, z) in e && (z, y) in t ==> (x, y) in t
  }

  ghost predicate AbsorbsLastEdge(e: Rel, t: Rel) {
    forall x, z, y :: (x, z) in t && (z, y) in e ==> (x, y) in t
  }

  function Box(b: set<nat>, f: set<nat>): (r: Rel)
    ensures forall x: nat, y: nat {:trigger (x, y) in r} :: (x, y) in r <==> x in b && y in f
  {
    set x, y | x in b && y in f :: (x, y)
  }

  /** Everything that reaches `s` in `c`, and `s` itself. */
  function Back(c: Rel, s: nat): (r: set<nat>)
    ensures forall x: nat {:trigger x in r} :: x in r <==> (x, s) in c || x == s
  {
    (set p | p in c && p.1 == s :: p.0) + {s}
  }

  /** Everything `o` reaches in `c`, and `o` itself. */
  function Forth(c: Rel, o: nat): (r: set<nat>)
    ensures forall y: nat {:trigger y in r} :: y in r <==> (o, y) in c || y == o
  {
    (set p | p in c && p.0 == o :: p.1) + {o}
  }

  lemma NodesNext(e: Rel, p: Edge)
    ensures Nodes(e + {p}) == Nodes(e) + {p.0} + {p.1}
  {
  }

  lemma WalkEnds(e: Rel, w: seq<nat>)
    requires Walk(e, w)
    ensures w[0] in Nodes(e) && w[|w| - 1] in Nodes(e)
  {
    assert (w[0], w[1]) in e;
    var n := |w| - 1;
    assert (w[n - 1], w[n]) in e;
  }

  lemma ClosureIsJoined(e: Rel, x: nat, y: nat)
    ensures (x, y) in Closure(e) <==> Joined(e, x, y)
  {
    if Joined(e, x, y) {
      var w :| WalkFrom(e, w, x, y);
      WalkEnds(e, w);
    }
  }

  lemma ClosureContains(e: Rel)
    ensures e <= Closure(e)
  {
    forall p | p in e ensures p in Closure(e) {
      assert WalkFrom(e, [p.0, p.1], p.0, p.1);
      ClosureIsJoined(e, p.0, p.1);
    }
  }

  lemma ClosureTransitive(e: Rel)
    ensures Transitive(Closure(e))
  {
    forall x, y, z | (x, y) in Closure(e) && (y, z) in Closure(e) ensures (x, z) in Closure(e) {
      var v :| WalkFrom(e, v, x, y);
      var w :| WalkFrom(e, w, y, z);
      assert WalkFrom(e, v + w[1..], x, z);
      ClosureIsJoined(e, x, z);
    }
  }

  lemma {:induction false} WalkAbsorbed(e: Rel, t: Rel, w: seq<nat>)
    requires e <= t && AbsorbsFirstEdge(e, t) && Walk(e, w)
    ensures (w[0], w[|w| - 1]) in t
    decreases |w|
  {
    assert (w[0], w[1]) in e;
    if |w| > 2 {
      WalkAbsorbed(e, t, w[1..]);
    }
  }

  /** The closure is least among the relations that contain `e` and absorb a leading edge. */
  lemma ClosureLeast(e: Rel, t: Rel)
    requires e <= t && AbsorbsFirstEdge(e, t)
    ensures Closure(e) <= t
  {
    forall p | p in Closure(e) ensures p in t {
      var w :| WalkFrom(e, w, p.0, p.1);
      WalkAbsorbed(e, t, w);
    }
  }

  lemma {:induction false} WalkAbsorbedRight(e: Rel, t: Rel, w: seq<nat>)
    requires e <= t && AbsorbsLastEdge(e, t) && Walk(e, w)
    ensures (w[0], w[|w| - 1]) in t
    decreases |w|
  {
    var n := |w| - 1;
    assert (w[n - 1], w[n]) in e;
    if n > 1 {
      WalkAbsorbedRight(e, t, w[..n]);
    }
  }

  lemma ClosureLeastRight(e: Rel, t: Rel)
    requires e <= t && AbsorbsLastEdge(e, t)
    ensures Closure(e) <= t
  {
    forall p | p in Closure(e) ensures p in t {
      var w :| WalkFrom(e, w, p.0, p.1);
      WalkAbsorbedRight(e, t, w);
    }
  }

  lemma ClosureMonotone(e: Rel, e': Rel)
    requires e <= e'
    ensures Closure(e) <= Closure(e')
  {
    ClosureContains(e');
    ClosureTransitive(e');
    ClosureLeast(e, Closure(e'));
  }

  /** A relation is its own closure exactly when it is transitive. */
  lemma ClosureFixed(e: Rel)
    ensures Closure(e) == e <==> Transitive(e)
  {
    ClosureContains(e);
    ClosureTransitive(e);
    if Transitive(e) {
      ClosureLeast(e, e);
    }
  }

  lemma ClosureIdempotent(e: Rel)
    ensures Closure(Closure(e)) == Closure(e)
  {
    ClosureTransitive(e);
    ClosureFixed(Closure(e));
  }

  /** Closing part of a relation first does not change the closure of the whole. */
  lemma ClosureOfPart(e: Rel, d: Rel)
    ensures Closure(Closure(e) + d) == Closure(e + d)
  {
    ClosureMonotone(e, e + d);
    ClosureContains(e + d);
    ClosureContains(e);
    ClosureMonotone(Closure(e) + d, Closure(e + d));
    ClosureIdempotent(e + d);
    ClosureMonotone(e + d, Closure(e) + d);
  }

  /** One inserted edge adds exactly (backward reach of s, with s) x (forward reach of o, with o). */
  lemma ClosureOfAddedEdge(e: Rel, s: nat, o: nat)
    ensures Closure(e + {(s, o)}) == Closure(e) + Box(Back(Closure(e), s), Forth(Closure(e), o))
  {
    var c, e' := Closure(e), e + {(s, o)};
    var box := Box(Back(c, s), Forth(c, o));
    ClosureContains(e);
    ClosureTransitive(e);
    ClosureLeast(e', c + box);
    ClosureMonotone(e, e');
    ClosureContains(e');
    ClosureTransitive(e');
    assert (s, o) in Closure(e');
    forall p | p in box ensures p in Closure(e') {
      assert p.0 == s || (p.0, s) in Closure(e');
      assert (p.0, o) in Closure(e');
      assert p.1 == o || (o, p.1) in Closure(e');
    }
  }

  /** A subset of the same size is the whole set. */
  lemma SubsetSize<T>(a: set<T>, b: set<T>)
    requires a <= b
    ensures |a| <= |b|
    ensures |a| == |b| <==> a == b
  {
    assert b == a + (b - a);
  }

  lemma {:induction false} SizeBelow(s: set<nat>, n: nat)
    requires forall x :: x in s ==> x < n
    ensures |s| <= n
    decreases n
  {
    if n == 0 {
      assert s == {};
    } else {
      SizeBelow(s - {n - 1}, n - 1);
      SubsetSize(s - {n - 1}, s);
      assert s <= (s - {n - 1}) + {n - 1};
      SubsetSize(s, (s - {n - 1}) + {n - 1});
    }
  }

  // ----- sequences of edges

  function Elems<T>(s: seq<T>): set<T> {
    set x | x in s
  }

  ghost predicate NoDup<T>(s: seq<T>) {
    forall i, j :: 0 <= i < j < |s| ==> s[i] != s[j]
  }

  lemma Snoc<T>(s: seq<T>, x: T)
    ensures Elems(s + [x]) == Elems(s) + {x}
    ensures NoDup(s) && x !in s ==> NoDup(s + [x])
  {
    assert forall y :: y in s + [x] <==> y in s || y == x;
  }

  /** One more element of a prefix. */
  lemma TakeNext<T>(s: seq<T>, i: nat)
    requires i < |s|
    ensures Elems(s[..i + 1]) == Elems(s[..i]) + {s[i]}
    ensures i + 1 == |s| ==> s[..i + 1] == s
  {
    assert s[..i + 1] == s[..i] + [s[i]];
    Snoc(s[..i], s[i]);
  }

  /** The inner and the outer step of a nested loop over `b` x `f`. */
  lemma BoxInner(c: Rel, x: nat, f: seq<nat>, j: nat)
    requires j < |f|
    ensures c + Box({x}, Elems(f[..0])) == c
    ensures c + Box({x}, Elems(f[..j + 1])) == c + Box({x}, Elems(f[..j])) + {(x, f[j])}
    ensures j + 1 == |f| ==> f[..j + 1] == f
  {
    TakeNext(f, j);
  }

  lemma BoxOuter(c: Rel, b: seq<nat>, f: set<nat>, i: nat)
    requires i < |b|
    ensures c + Box(Elems(b[..0]), f) == c
    ensures c + Box(Elems(b[..i + 1]), f) == c + Box(Elems(b[..i]), f) + Box({b[i]}, f)
    ensures i + 1 == |b| ==> b[..i + 1] == b
  {
    TakeNext(b, i);
  }

  lemma Join<T>(s: seq<T>, t: seq<T>)
    ensures Elems(s + t) == Elems(s) + Elems(t)
    ensures NoDup(s) && NoDup(t) && Elems(s) !! Elems(t) ==> NoDup(s + t)
  {
    assert forall y :: y in s + t <==> y in s || y in t;
    assert forall i :: 0 <= i < |s| ==> s[i] in Elems(s);
    assert forall j :: 0 <= j < |t| ==> t[j] in Elems(t);
  }

  /** Distinct elements: the length of the sequence is the size of its set. */
  lemma {:induction false} NoDupLength<T>(s: seq<T>)
    ensures NoDup(s) ==> |Elems(s)| == |s|
    ensures |Elems(s)| <= |s|
    decreases |s|
  {
    if s == [] {
      assert Elems(s) == {};
    } else {
      var n := |s| - 1;
      NoDupLength(s[..n]);
      assert Elems(s) == Elems(s[..n]) + {s[n]};
    }
  }
}
