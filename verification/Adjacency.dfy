/** Hash-map-of-hash-sets adjacency, and the relation it stands for. */
module Adjacency {
  import opened Relations

  type Adj = map<nat, set<nat>>

  /** The neighbours of `x`; a missing row and an empty row are the same relation. */
  function Row(a: Adj, x: nat): set<nat> {
    if x in a then a[x] else {}
  }

  function Put(a: Adj, x: nat, y: nat): Adj {
    a[x := Row(a, x) + {y}]
  }

  /** Remove the pair and leave the row behind, even when it becomes empty. */
  function Drop(a: Adj, x: nat, y: nat): Adj {
    if x in a then a[x := a[x] - {y}] else a
  }

  /** Remove the pair, and the row with it when the row becomes empty. */
  function DropPrune(a: Adj, x: nat, y: nat): Adj {
    var d := Drop(a, x, y);
    if x in d && d[x] == {} then d - {x} else d
  }

  /** `fwd` and `bwd` are the forward and backward adjacency of `r`. */
  ghost predicate Indexes(fwd: Adj, bwd: Adj, r: Rel) {
    && (forall x: nat, y: nat {:trigger (x, y) in r} :: (x, y) in r <==> y in Row(fwd, x))
    && (forall x: nat, y: nat {:trigger (x, y) in r} :: (x, y) in r <==> x in Row(bwd, y))
  }

  lemma IndexesPut(fwd: Adj, bwd: Adj, r: Rel, x: nat, y: nat)
    requires Indexes(fwd, bwd, r)
    ensures Indexes(Put(fwd, x, y), Put(bwd, y, x), r + {(x, y)})
    ensures y in Row(fwd, x) ==> r + {(x, y)} == r
  {
    assert (x, y) in r <==> y in Row(fwd, x);
  }

  lemma IndexesDrop(fwd: Adj, bwd: Adj, r: Rel, x: nat, y: nat)
    requires Indexes(fwd, bwd, r)
    ensures Indexes(Drop(fwd, x, y), Drop(bwd, y, x), r - {(x, y)})
    ensures Indexes(DropPrune(fwd, x, y), DropPrune(bwd, y, x), r - {(x, y)})
    ensures y !in Row(fwd, x) ==> r - {(x, y)} == r
    ensures y in Row(fwd, x) ==> (x, y) in r && |r - {(x, y)}| == |r| - 1
  {
    assert (x, y) in r <==> y in Row(fwd, x);
  }

  lemma PairInRow(fwd: Adj, bwd: Adj, r: Rel, x: nat, y: nat)
    requires Indexes(fwd, bwd, r)
    ensures (x, y) in r <==> y in Row(fwd, x)
  {
  }

  lemma IndexesRow(fwd: Adj, bwd: Adj, r: Rel, x: nat)
    requires Indexes(fwd, bwd, r)
    ensures Row(fwd, x) + {x} == Forth(r, x)
    ensures Row(bwd, x) + {x} == Back(r, x)
  {
    assert forall y: nat {:trigger y in Row(fwd, x)} :: y in Row(fwd, x) <==> (x, y) in r;
    assert forall y: nat {:trigger y in Row(bwd, x)} :: y in Row(bwd, x) <==> (y, x) in r;
  }

  /** The pairs of `r` from `x` into `targets` that `c'` does not have. */
  lemma RowLost(fwd: Adj, bwd: Adj, r: Rel, c': Rel, x: nat, targets: set<nat>, reach: set<nat>)
    requires Indexes(fwd, bwd, r)
    requires forall y :: (x, y) in c' <==> y in reach
    ensures Box({x}, Row(fwd, x) * targets - reach) == Box({x}, targets) * r - c'
  {
    assert forall y: nat {:trigger y in Row(fwd, x)} :: y in Row(fwd, x) <==> (x, y) in r;
  }

  lemma RowMisses(fwd: Adj, bwd: Adj, r: Rel, x: nat, targets: set<nat>)
    requires Indexes(fwd, bwd, r) && Row(fwd, x) * targets == {}
    ensures Box({x}, targets) * r == {}
  {
    assert forall y: nat {:trigger y in targets} :: y in targets ==> y !in Row(fwd, x) * targets;
  }

  /** Copy a hash set out as a vector, in whatever order iteration gives. */
  method Listed(s: set<nat>) returns (v: seq<nat>)
    ensures Elems(v) == s && NoDup(v)
  {
    v := [];
    var rest := s;
    while rest != {}
      invariant rest <= s && Elems(v) == s - rest && NoDup(v)
    {
      var x :| x in rest;
      Snoc(v, x);
      v := v + [x];
      rest := rest - {x};
    }
  }

  /** `[(x, y) for y in ys]`, in whatever order iteration gives. */
  method Paired(x: nat, ys: set<nat>) returns (v: seq<Edge>)
    ensures Elems(v) == Box({x}, ys) && NoDup(v)
  {
    v := [];
    var rest := ys;
    while rest != {}
      invariant rest <= ys && Elems(v) == Box({x}, ys - rest) && NoDup(v)
    {
      var y :| y in rest;
      Snoc(v, (x, y));
      v := v + [(x, y)];
      rest := rest - {y};
    }
  }

  /** All pairs of an adjacency map, each once. */
  method ListedPairs(a: Adj) returns (v: seq<Edge>)
    ensures NoDup(v)
    ensures forall x: nat, y: nat {:trigger (x, y) in v} :: (x, y) in v <==> y in Row(a, x)
  {
    v := [];
    var rows := a.Keys;
    while rows != {}
      invariant rows <= a.Keys && NoDup(v)
      invariant forall x: nat, y: nat {:trigger (x, y) in v} :: (x, y) in v <==> x !in rows && y in Row(a, x)
    {
      var x :| x in rows;
      var row := Paired(x, a[x]);
      Join(v, row);
      assert forall p :: p in row <==> p in Box({x}, a[x]);
      v := v + row;
      rows := rows - {x};
    }
  }
}
