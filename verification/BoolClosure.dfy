/** The bulk transitive closure: powers of a Boolean matrix folded to a fixed point. */
module BoolClosure {
  import opened Relations
  import opened DenseIds

  /** Relational composition: the Boolean (or, and) product. */
  function Compose(a: Rel, b: Rel): Rel {
    set p, q | p in a && q in b && p.1 == q.0 :: (p.0, q.1)
  }

  lemma ComposeMember(a: Rel, b: Rel, x: nat, y: nat)
    ensures (x, y) in Compose(a, b) <==> exists z: nat :: (x, z) in a && (z, y) in b
  {
    forall z: nat | (x, z) in a && (z, y) in b ensures (x, y) in Compose(a, b) {
      var p, q := (x, z), (z, y);
      assert p in a && q in b && p.1 == q.0;
    }
  }

  lemma ComposeUnion(a: Rel, a': Rel, b: Rel)
    ensures Compose(a + a', b) == Compose(a, b) + Compose(a', b)
  {
  }

  lemma ComposeStaysClosed(e: Rel, f: Rel)
    requires f <= Closure(e)
    ensures Compose(f, e) <= Closure(e)
  {
    ClosureContains(e);
    ClosureTransitive(e);
  }

  /** A relation between `e` and its closure that absorbs its own product with `e` is the closure. */
  lemma ComposeFixpoint(e: Rel, reach: Rel)
    requires e <= reach <= Closure(e) && Compose(reach, e) <= reach
    ensures reach == Closure(e)
  {
    forall x, z, y | (x, z) in reach && (z, y) in e ensures (x, y) in reach {
      ComposeMember(reach, e, x, y);
    }
    ClosureLeastRight(e, reach);
  }

  function Diagonal(n: nat): Rel {
    set i | 0 <= i < n :: (i, i)
  }

  ghost function IdentityOn(nodes: set<nat>): Rel {
    set x | x in nodes :: (x, x)
  }

  /** Row-major order, strictly increasing. */
  ghost predicate RowMajor(v: seq<Edge>) {
    forall i, j :: 0 <= i < j < |v| ==> v[i].0 < v[j].0 || (v[i].0 == v[j].0 && v[i].1 < v[j].1)
  }

  /** `reach` folds the powers so far and `frontier` is the last of them. */
  ghost predicate Folding(e: Rel, reach: Rel, frontier: Rel) {
    && e <= reach <= Closure(e) && frontier <= Closure(e)
    && Compose(reach, e) <= reach + Compose(frontier, e)
  }

  lemma FoldStart(e: Rel)
    ensures Folding(e, e, e)
  {
    ClosureContains(e);
  }

  /** Folding the next power keeps the invariant, and one that adds nothing ends the work. */
  lemma FoldStep(e: Rel, reach: Rel, frontier: Rel)
    requires Folding(e, reach, frontier)
    ensures var next := Compose(frontier, e);
      Folding(e, reach + next, next) && reach + next <= Closure(e) && (next <= reach ==> reach == Closure(e))
  {
    hide Compose;
    var next := Compose(frontier, e);
    ComposeStaysClosed(e, frontier);
    ComposeUnion(reach, next, e);
    if next <= reach {
      ComposeFixpoint(e, reach);
    }
  }

  /** An owned Boolean matrix, read as the relation of its `true` entries. */
  class BoolMatrix {
    const n: nat
    var entries: Rel

    ghost predicate Valid()
      reads this
    {
      InRange(entries, n)
    }

    /** Duplicates combine with OR. */
    constructor FromEdges(n: nat, edges: seq<Edge>)
      requires InRange(Elems(edges), n)
      ensures Valid() && this.n == n && entries == Elems(edges)
    {
      this.n := n;
      entries := Elems(edges);
    }

    constructor Identity(n: nat)
      ensures Valid() && this.n == n && entries == Diagonal(n)
    {
      this.n := n;
      entries := Diagonal(n);
    }

    function Nvals(): nat
      reads this
    {
      |entries|
    }

    method MxmLorLand(other: BoolMatrix) returns (c: BoolMatrix)
      requires Valid() && other.Valid() && n == other.n
      ensures fresh(c) && c.Valid() && c.n == n && c.entries == Compose(entries, other.entries)
    {
      c := new BoolMatrix.FromEdges(n, []);
      c.entries := Compose(entries, other.entries);
    }

    method OrAssign(other: BoolMatrix)
      requires Valid() && other.Valid() && n == other.n
      modifies this
      ensures Valid() && entries == old(entries) + old(other.entries)
    {
      entries := entries + other.entries;
    }

    /** Every `true` entry once, in row-major order. */
    method ExtractEdges() returns (out: seq<Edge>)
      requires Valid()
      ensures RowMajor(out) && NoDup(out) && Elems(out) == entries
    {
      out := [];
      var r := 0;
      while r < n
        invariant r <= n && RowMajor(out)
        invariant forall p :: p in out <==> p in entries && p.0 < r
      {
        var c := 0;
        while c < n
          invariant c <= n && RowMajor(out)
          invariant forall p :: p in out <==> p in entries && (p.0 < r || (p.0 == r && p.1 < c))
        {
          if (r, c) in entries {
            assert forall k :: 0 <= k < |out| ==> out[k] in out;
            assert forall p :: p in out + [(r, c)] <==> p in out || p == (r, c);
            out := out + [(r, c)];
          }
          c := c + 1;
        }
        r := r + 1;
      }
    }
  }

  /** Fold powers of `m` until one adds nothing.  The identity is not included. */
  method TransitiveClosure(m: BoolMatrix) returns (reach: BoolMatrix)
    requires m.Valid()
    ensures fresh(reach) && reach.Valid() && reach.n == m.n && reach.entries == Closure(m.entries)
  {
    hide Compose;
    hide Folding;
    ghost var e := m.entries;
    if m.Nvals() == 0 {
      reach := new BoolMatrix.FromEdges(m.n, []);
      ClosureFixed(e);
      return;
    }
    var edges := m.ExtractEdges();
    reach := new BoolMatrix.FromEdges(m.n, edges);
    var frontier := new BoolMatrix.FromEdges(m.n, edges);
    ClosureContains(e);
    FoldStart(e);
    while true
      invariant fresh(reach) && reach.Valid() && reach.n == m.n && m.entries == e
      invariant fresh(frontier) && frontier.Valid() && frontier.n == m.n
      invariant Folding(e, reach.entries, frontier.entries)
      decreases Closure(e) - reach.entries
    {
      var next := frontier.MxmLorLand(m);
      FoldStep(e, reach.entries, frontier.entries);
      if next.Nvals() == 0 {
        assert next.entries <= reach.entries;
        break;
      }
      ghost var before := reach.entries;
      var prevNvals := reach.Nvals();
      reach.OrAssign(next);
      SubsetSize(before, reach.entries);
      if reach.Nvals() == prevNvals {
        assert next.entries <= before;
        break;
      }
      frontier := next;
    }
  }
}
