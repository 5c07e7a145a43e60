/** owl:sameAs equivalence classes: union by rank, path halving, least member as representative. */
module SameAs {
  import opened Wrappers
  import opened Relations
  import opened Powers

  const NIL: nat := 0xFFFF_FFFF    // slots are u32 and this one is reserved
  const RANK_MAX: nat := 255       // ranks are u8

  // ----- the equivalence the pairs generate

  ghost function Sym(pairs: Rel): Rel {
    pairs + (set p | p in pairs :: (p.1, p.0))
  }

  /** Reflexive, symmetric, transitive closure of the asserted pairs. */
  ghost predicate Equiv(pairs: Rel, a: nat, b: nat) {
    a == b || (a, b) in Closure(Sym(pairs))
  }

  lemma SymmetricClosure(pairs: Rel)
    ensures forall x: nat, y: nat :: (x, y) in Closure(Sym(pairs)) ==> (y, x) in Closure(Sym(pairs))
  {
    var e := Sym(pairs);
    var c := Closure(e);
    ClosureContains(e);
    ClosureTransitive(e);
    var t := set p | p in c && (p.1, p.0) in c;
    forall x, z, y | (x, z) in e && (z, y) in t ensures (x, y) in t {
      assert (z, x) in e;
    }
    ClosureLeast(e, t);
  }

  lemma EquivIsEquivalence(pairs: Rel, a: nat, b: nat, c: nat)
    ensures Equiv(pairs, a, a)
    ensures Equiv(pairs, a, b) ==> Equiv(pairs, b, a)
    ensures Equiv(pairs, a, b) && Equiv(pairs, b, c) ==> Equiv(pairs, a, c)
    ensures (a, b) in pairs ==> Equiv(pairs, a, b)
  {
    SymmetricClosure(pairs);
    ClosureTransitive(Sym(pairs));
    ClosureContains(Sym(pairs));
  }

  lemma EquivGrows(pairs: Rel, pairs': Rel, a: nat, b: nat)
    requires pairs <= pairs' && Equiv(pairs, a, b)
    ensures Equiv(pairs', a, b)
  {
    ClosureMonotone(Sym(pairs), Sym(pairs'));
  }

  // ----- the forest

  /** `rep` is the root each slot reaches; along every parent link the rank strictly increases. */
  ghost predicate Forest(parent: seq<nat>, rank: seq<nat>, rep: seq<nat>) {
    && |parent| == |rank| == |rep|
    && (forall i :: 0 <= i < |rep| ==> parent[i] < |rep| && rep[i] < |rep|)
    && (forall i :: 0 <= i < |rep| ==> rep[parent[i]] == rep[i] && rep[rep[i]] == rep[i])
    && (forall i :: 0 <= i < |rep| ==> (parent[i] == i <==> rep[i] == i))
    && (forall i :: 0 <= i < |rep| && parent[i] != i ==> rank[i] < rank[parent[i]] <= rank[rep[i]])
  }

  function Class(rep: seq<nat>, r: nat): set<nat> {
    set i | 0 <= i < |rep| && rep[i] == r
  }

  /** A root of rank r heads a class of at least 2^r slots. */
  ghost predicate Weighty(rank: seq<nat>, rep: seq<nat>) {
    |rank| == |rep| && forall r :: 0 <= r < |rep| && rep[r] == r ==> |Class(rep, r)| >= Pow2(rank[r])
  }

  lemma {:induction false} ClassSize(rep: seq<nat>, r: nat)
    ensures |Class(rep, r)| <= |rep|
    decreases |rep|
  {
    if rep == [] {
      assert Class(rep, r) == {};
    } else {
      var n := |rep| - 1;
      ClassSize(rep[..n], r);
      assert Class(rep, r) == Class(rep[..n], r) + if rep[n] == r then {n} else {};
    }
  }

  /** With at most 2^32 - 1 slots no rank exceeds 31: the u8 increment never saturates. */
  lemma RankBound(parent: seq<nat>, rank: seq<nat>, rep: seq<nat>, i: nat)
    requires Forest(parent, rank, rep) && Weighty(rank, rep) && i < |rep| && |rep| <= NIL
    ensures rank[i] <= rank[rep[i]] <= 31
  {
    RankBelowRoot(parent, rank, rep, i);
    HeavyRootRank(rank, rep, rep[i]);
  }

  lemma HeavyRootRank(rank: seq<nat>, rep: seq<nat>, r: nat)
    requires Weighty(rank, rep) && r < |rep| && rep[r] == r && |rep| <= NIL
    ensures rank[r] <= 31
  {
    ClassSize(rep, r);
    Pow2At32();
    if rank[r] >= 32 {
      Pow2Monotone(32, rank[r]);
    }
  }

  /** Parent links followed from `i` to its root. */
  ghost function Hops(parent: seq<nat>, rank: seq<nat>, rep: seq<nat>, i: nat): nat
    requires Forest(parent, rank, rep) && i < |rep|
    decreases rank[rep[i]] - rank[i]
  {
    if parent[i] == i then 0 else
      RankBelowRoot(parent, rank, rep, i);
      1 + Hops(parent, rank, rep, parent[i])
  }

  lemma RankBelowRoot(parent: seq<nat>, rank: seq<nat>, rep: seq<nat>, i: nat)
    requires Forest(parent, rank, rep) && i < |rep|
    ensures rank[i] <= rank[rep[i]]
    ensures parent[i] != i ==> rank[i] < rank[parent[i]] <= rank[rep[parent[i]]]
  {
    assert rep[parent[i]] == rep[i];
  }

  /** No walk to a root is longer than 31 links. */
  lemma {:induction false} HopsBound(parent: seq<nat>, rank: seq<nat>, rep: seq<nat>, i: nat)
    requires Forest(parent, rank, rep) && Weighty(rank, rep) && i < |rep| && |rep| <= NIL
    ensures Hops(parent, rank, rep, i) <= rank[rep[i]] - rank[i] <= 31
    decreases rank[rep[i]] - rank[i]
  {
    RankBound(parent, rank, rep, i);
    if parent[i] != i {
      RankBelowRoot(parent, rank, rep, i);
      assert rep[parent[i]] == rep[i];
      HopsBound(parent, rank, rep, parent[i]);
    }
  }

  /** Pointing a slot at its grandparent keeps the forest and every root. */
  lemma HalvingKeepsForest(parent: seq<nat>, rank: seq<nat>, rep: seq<nat>, cur: nat)
    requires Forest(parent, rank, rep) && cur < |rep| && parent[cur] != cur
    ensures parent[parent[cur]] < |rep|
    ensures Forest(parent[cur := parent[parent[cur]]], rank, rep)
    ensures rep[parent[parent[cur]]] == rep[cur] && rank[cur] < rank[parent[parent[cur]]]
  {
    var p := parent[cur];
    var g := parent[p];
    assert rep[g] == rep[p] == rep[cur];
    RankBelowRoot(parent, rank, rep, p);
    RankBelowRoot(parent, rank, rep, g);
    assert p != g ==> rank[p] < rank[g];
  }

  // ----- linking two roots

  function Merged(rep: seq<nat>, root: nat, child: nat): seq<nat> {
    seq(|rep|, i requires 0 <= i < |rep| => if rep[i] == child then root else rep[i])
  }

  lemma LinkKeepsRoots(parent: seq<nat>, rank: seq<nat>, rep: seq<nat>, root: nat, child: nat)
    requires Forest(parent, rank, rep) && root < |rep| && child < |rep| && root != child
    requires rep[root] == root && rep[child] == child
    ensures var parent', rep' := parent[child := root], Merged(rep, root, child);
      && |rep'| == |rep|
      && (forall i :: 0 <= i < |rep| ==> parent'[i] < |rep| && rep'[i] < |rep|)
      && (forall i :: 0 <= i < |rep| ==> rep'[i] == if rep[i] == child then root else rep[i])
      && (forall i :: 0 <= i < |rep| ==> rep'[parent'[i]] == rep'[i] && rep'[rep'[i]] == rep'[i])
      && (forall i :: 0 <= i < |rep| ==> (parent'[i] == i <==> rep'[i] == i))
  {
  }

  lemma LinkKeepsRank(parent: seq<nat>, rank: seq<nat>, rank': seq<nat>, rep: seq<nat>, root: nat, child: nat,
                      i: nat)
    requires Forest(parent, rank, rep) && root < |rep| && child < |rep| && root != child
    requires rep[root] == root && rep[child] == child
    requires rank' == rank || (rank' == rank[root := rank[root] + 1])
    requires rank[child] < rank'[root]
    requires i < |rep| && i != root
    ensures var up, top := if i == child then root else parent[i], if rep[i] == child then root else rep[i];
      up < |rep| && top < |rep| && (up != i ==> rank'[i] < rank'[up] <= rank'[top])
  {
    if i != child && parent[i] != i {
      RankBelowRoot(parent, rank, rep, i);
    }
  }

  lemma IsForest(parent: seq<nat>, rank: seq<nat>, rep: seq<nat>)
    requires |parent| == |rank| == |rep|
    requires forall i :: 0 <= i < |rep| ==> parent[i] < |rep| && rep[i] < |rep|
    requires forall i :: 0 <= i < |rep| ==> rep[parent[i]] == rep[i] && rep[rep[i]] == rep[i]
    requires forall i :: 0 <= i < |rep| ==> (parent[i] == i <==> rep[i] == i)
    requires forall i :: 0 <= i < |rep| && parent[i] != i ==> rank[i] < rank[parent[i]] <= rank[rep[i]]
    ensures Forest(parent, rank, rep)
  {
  }

  lemma LinkKeepsForest(parent: seq<nat>, rank: seq<nat>, rank': seq<nat>, rep: seq<nat>, root: nat, child: nat)
    requires Forest(parent, rank, rep) && root < |rep| && child < |rep| && root != child
    requires rep[root] == root && rep[child] == child
    requires rank' == rank || (rank' == rank[root := rank[root] + 1])
    requires rank[child] < rank'[root]
    ensures Forest(parent[child := root], rank', Merged(rep, root, child))
  {
    var parent', rep' := parent[child := root], Merged(rep, root, child);
    LinkKeepsRoots(parent, rank, rep, root, child);
    hide Merged;
    assert |parent| == |rank| == |rep| && parent'[root] == root by { assert parent[root] == root; }
    hide Forest;
    forall i | 0 <= i < |rep| && parent'[i] != i ensures rank'[i] < rank'[parent'[i]] <= rank'[rep'[i]] {
      LinkKeepsRank(parent, rank, rank', rep, root, child, i);
    }
    IsForest(parent', rank', rep');
  }

  lemma LinkKeepsWeight(rank: seq<nat>, rank': seq<nat>, rep: seq<nat>, root: nat, child: nat)
    requires Weighty(rank, rep) && root < |rep| && child < |rep| && root != child
    requires rep[root] == root && rep[child] == child
    requires (rank' == rank) || (rank[root] == rank[child] && rank' == rank[root := rank[root] + 1])
    ensures Weighty(rank', Merged(rep, root, child))
  {
    var rep' := Merged(rep, root, child);
    assert Class(rep', root) == Class(rep, root) + Class(rep, child);
    assert Class(rep, root) !! Class(rep, child);
    forall r | 0 <= r < |rep'| && rep'[r] == r ensures |Class(rep', r)| >= Pow2(rank'[r]) {
      if r != root {
        assert r != child;
        assert Class(rep', r) == Class(rep, r);
      }
    }
  }

  /** The classes of slots are exactly the classes of ids. */
  ghost predicate Partition(values: seq<nat>, rep: seq<nat>, pairs: Rel) {
    && |values| == |rep|
    && Nodes(pairs) <= Elems(values)
    && forall i, j :: 0 <= i < |rep| && 0 <= j < |rep| ==>
         (rep[i] == rep[j] <==> Equiv(pairs, values[i], values[j]))
  }

  /** Linking the roots of a and b is adding the pair (a, b). */
  lemma LinkKeepsPartition(values: seq<nat>, rep: seq<nat>, pairs: Rel, sa: nat, sb: nat, root: nat, child: nat)
    requires NoDup(values) && Partition(values, rep, pairs) && sa < |rep| && sb < |rep|
    requires {root, child} == {rep[sa], rep[sb]}
    ensures Partition(values, Merged(rep, root, child), pairs + {(values[sa], values[sb])})
  {
    var a, b, rep' := values[sa], values[sb], Merged(rep, root, child);
    var pairs' := pairs + {(a, b)};
    NodesNext(pairs, (a, b));
    forall i, j | 0 <= i < |rep| && 0 <= j < |rep|
      ensures rep'[i] == rep'[j] <==> Equiv(pairs', values[i], values[j])
    {
      if rep'[i] == rep'[j] {
        MergedIsEquiv(values, rep, pairs, sa, sb, i, j);
      }
      if Equiv(pairs', values[i], values[j]) {
        EquivIsMerged(values, rep, pairs, sa, sb, rep', i, j);
      }
    }
  }

  lemma MergedIsEquiv(values: seq<nat>, rep: seq<nat>, pairs: Rel, sa: nat, sb: nat, i: nat, j: nat)
    requires Partition(values, rep, pairs) && sa < |rep| && sb < |rep| && i < |rep| && j < |rep|
    requires rep[i] == rep[j] || {rep[i], rep[j]} == {rep[sa], rep[sb]}
    ensures Equiv(pairs + {(values[sa], values[sb])}, values[i], values[j])
  {
    var a, b, x, y := values[sa], values[sb], values[i], values[j];
    var pairs' := pairs + {(a, b)};
    EquivIsEquivalence(pairs', a, b, y);
    if rep[i] == rep[j] {
      EquivGrows(pairs, pairs', x, y);
    } else if rep[i] == rep[sa] && rep[sb] == rep[j] {
      EquivGrows(pairs, pairs', x, a);
      EquivGrows(pairs, pairs', b, y);
      EquivIsEquivalence(pairs', x, a, y);
    } else {
      EquivGrows(pairs, pairs', x, b);
      EquivGrows(pairs, pairs', a, y);
      EquivIsEquivalence(pairs', b, a, y);
      EquivIsEquivalence(pairs', x, b, y);
    }
  }

  /** The pairs of ids whose slots share a root. */
  ghost function Together(values: seq<nat>, rep: seq<nat>): Rel
    requires |values| == |rep|
  {
    set k, l | 0 <= k < |rep| && 0 <= l < |rep| && rep[k] == rep[l] :: (values[k], values[l])
  }

  lemma TogetherAt(values: seq<nat>, rep: seq<nat>, i: nat, j: nat)
    requires |values| == |rep| && NoDup(values) && i < |rep| && j < |rep|
    ensures (values[i], values[j]) in Together(values, rep) <==> rep[i] == rep[j]
  {
    if (values[i], values[j]) in Together(values, rep) {
      var k, l :| 0 <= k < |rep| && 0 <= l < |rep| && rep[k] == rep[l]
                  && (values[k], values[l]) == (values[i], values[j]);
      assert k == i && l == j;
    }
  }

  lemma TogetherTransitive(values: seq<nat>, rep: seq<nat>, x: nat, z: nat, y: nat)
    requires |values| == |rep| && NoDup(values)
    requires (x, z) in Together(values, rep) && (z, y) in Together(values, rep)
    ensures (x, y) in Together(values, rep)
  {
    var k, l :| 0 <= k < |rep| && 0 <= l < |rep| && rep[k] == rep[l] && (values[k], values[l]) == (x, z);
    var l', m :| 0 <= l' < |rep| && 0 <= m < |rep| && rep[l'] == rep[m] && (values[l'], values[m]) == (z, y);
    assert l == l';
  }

  lemma EquivIsMerged(values: seq<nat>, rep: seq<nat>, pairs: Rel, sa: nat, sb: nat, rep': seq<nat>, i: nat, j: nat)
    requires NoDup(values) && Partition(values, rep, pairs) && |rep'| == |rep|
    requires sa < |rep| && sb < |rep| && i < |rep| && j < |rep|
    requires forall k, l :: 0 <= k < |rep| && 0 <= l < |rep| && rep[k] == rep[l] ==> rep'[k] == rep'[l]
    requires rep'[sa] == rep'[sb]
    requires Equiv(pairs + {(values[sa], values[sb])}, values[i], values[j])
    ensures rep'[i] == rep'[j]
  {
    var e, t := Sym(pairs + {(values[sa], values[sb])}), Together(values, rep');
    forall p | p in e ensures p in t {
      PairWithinMerge(values, rep, pairs, sa, sb, rep', p);
    }
    TogetherIsClosed(values, rep', e);
    TogetherAt(values, rep', i, j);
    if values[i] == values[j] {
      assert i == j;
    }
  }

  lemma TogetherIsClosed(values: seq<nat>, rep: seq<nat>, e: Rel)
    requires |values| == |rep| && NoDup(values) && e <= Together(values, rep)
    ensures Closure(e) <= Together(values, rep)
  {
    hide Together;
    hide NoDup;
    var t := Together(values, rep);
    forall x, z, y | (x, z) in e && (z, y) in t ensures (x, y) in t {
      TogetherTransitive(values, rep, x, z, y);
    }
    ClosureLeast(e, t);
  }

  lemma PairWithinMerge(values: seq<nat>, rep: seq<nat>, pairs: Rel, sa: nat, sb: nat, rep': seq<nat>, p: Edge)
    requires Partition(values, rep, pairs) && |rep'| == |rep| && sa < |rep| && sb < |rep|
    requires forall k, l :: 0 <= k < |rep| && 0 <= l < |rep| && rep[k] == rep[l] ==> rep'[k] == rep'[l]
    requires rep'[sa] == rep'[sb] && p in Sym(pairs + {(values[sa], values[sb])})
    ensures |values| == |rep'| && p in Together(values, rep')
  {
    if p == (values[sa], values[sb]) || p == (values[sb], values[sa]) {
    } else {
      assert p in pairs || (p.1, p.0) in pairs;
      assert p.0 in Nodes(pairs) && p.1 in Nodes(pairs);
      var k :| 0 <= k < |values| && values[k] == p.0;
      var l :| 0 <= l < |values| && values[l] == p.1;
      EquivIsEquivalence(pairs, p.0, p.1, p.0);
      EquivIsEquivalence(pairs, p.1, p.0, p.1);
      assert rep[k] == rep[l];
    }
  }

  /** A new id is alone in its class. */
  lemma SingletonKeepsPartition(values: seq<nat>, rep: seq<nat>, pairs: Rel, id: nat)
    requires Partition(values, rep, pairs) && id !in values
    requires forall i :: 0 <= i < |rep| ==> rep[i] < |rep|
    ensures Partition(values + [id], rep + [|rep|], pairs)
  {
    assert forall i :: 0 <= i < |values| ==> values[i] in Elems(values);
    Snoc(values, id);
    forall x: nat ensures (x, id) !in Closure(Sym(pairs)) && (id, x) !in Closure(Sym(pairs)) {
      assert Nodes(Sym(pairs)) <= Elems(values) by {
        forall y | y in Nodes(Sym(pairs)) ensures y in Nodes(pairs) {
          var p :| p in Sym(pairs) && (p.0 == y || p.1 == y);
          assert p in pairs || (p.1, p.0) in pairs;
        }
      }
    }
  }

  // ----- canonical members

  /** A root's `canon` entry is the least id of its class. */
  ghost predicate LeastCanon(values: seq<nat>, rep: seq<nat>, canon: seq<nat>) {
    && |values| == |rep| == |canon|
    && (forall r, k :: 0 <= r < |rep| && 0 <= k < |rep| && rep[r] == r && rep[k] == r ==> canon[r] <= values[k])
    && (forall r :: 0 <= r < |rep| && rep[r] == r ==> Attained(values, rep, canon[r], r))
  }

  ghost predicate Attained(values: seq<nat>, rep: seq<nat>, v: nat, r: nat) {
    |values| == |rep| && exists k :: 0 <= k < |rep| && rep[k] == r && values[k] == v
  }

  lemma LinkKeepsCanon(values: seq<nat>, rep: seq<nat>, canon: seq<nat>, root: nat, child: nat)
    requires LeastCanon(values, rep, canon) && root < |rep| && child < |rep| && root != child
    requires rep[root] == root && rep[child] == child
    ensures LeastCanon(values, Merged(rep, root, child),
                       canon[root := if canon[root] <= canon[child] then canon[root] else canon[child]])
  {
    var rep' := Merged(rep, root, child);
    var canon' := canon[root := if canon[root] <= canon[child] then canon[root] else canon[child]];
    forall r | 0 <= r < |rep'| && rep'[r] == r ensures Attained(values, rep', canon'[r], r) {
      assert Attained(values, rep, canon[r], r);
      assert Attained(values, rep, canon[child], child);
      var k :| 0 <= k < |rep| && rep[k] == r && values[k] == canon[r];
      var l :| 0 <= l < |rep| && rep[l] == child && values[l] == canon[child];
      assert r == root ==> rep'[l] == r;
      assert rep'[k] == r;
      assert r == root || canon'[r] == values[k];
      if r == root {
        assert canon'[r] == values[k] || canon'[r] == values[l];
      }
    }
  }

  lemma SingletonKeepsForest(parent: seq<nat>, rank: seq<nat>, rep: seq<nat>)
    requires Forest(parent, rank, rep)
    ensures Forest(parent + [|rep|], rank + [0], rep + [|rep|])
    ensures forall i :: 0 <= i < |rep| ==> rep[i] < |rep|
  {
    var n := |rep|;
    var parent', rank', rep' := parent + [n], rank + [0], rep + [n];
    forall i | 0 <= i < |rep'|
      ensures parent'[i] < |rep'| && rep'[i] < |rep'| && rep'[parent'[i]] == rep'[i] && rep'[rep'[i]] == rep'[i]
      ensures parent'[i] == i <==> rep'[i] == i
      ensures parent'[i] != i ==> rank'[i] < rank'[parent'[i]] <= rank'[rep'[i]]
    {
      if i < n {
        assert parent'[i] == parent[i] && rep'[i] == rep[i];
      }
    }
  }

  lemma SingletonKeepsWeight(rank: seq<nat>, rep: seq<nat>)
    requires Weighty(rank, rep) && forall i :: 0 <= i < |rep| ==> rep[i] < |rep|
    ensures Weighty(rank + [0], rep + [|rep|])
  {
    var n := |rep|;
    var rep' := rep + [n];
    forall r | 0 <= r < |rep'| && rep'[r] == r ensures |Class(rep', r)| >= Pow2((rank + [0])[r]) {
      if r == n {
        assert Class(rep', n) == {n};
      } else {
        assert Class(rep', r) == Class(rep, r);
      }
    }
  }

  lemma SingletonKeepsCanon(values: seq<nat>, rep: seq<nat>, canon: seq<nat>, id: nat)
    requires LeastCanon(values, rep, canon) && forall i :: 0 <= i < |rep| ==> rep[i] < |rep|
    ensures LeastCanon(values + [id], rep + [|rep|], canon + [id])
  {
    var n := |rep|;
    var rep' := rep + [n];
    forall r | 0 <= r < |rep'| && rep'[r] == r ensures Attained(values + [id], rep', (canon + [id])[r], r) {
      if r < n {
        assert Attained(values, rep, canon[r], r);
        var k :| 0 <= k < |rep| && rep[k] == r && values[k] == canon[r];
        assert rep'[k] == r && (values + [id])[k] == canon[r];
      } else {
        assert rep'[n] == n && (values + [id])[n] == id;
      }
    }
  }

  /** Everything the parallel vectors keep between calls. */
  ghost predicate Shape(values: seq<nat>, parent: seq<nat>, rank: seq<nat>, canon: seq<nat>, rep: seq<nat>,
                        pairs: Rel) {
    && |values| == |rep| && NoDup(values)
    && Forest(parent, rank, rep)
    && Weighty(rank, rep)
    && Partition(values, rep, pairs)
    && LeastCanon(values, rep, canon)
  }

  /** `index` inverts `values`. */
  ghost predicate Indexed(index: map<nat, nat>, values: seq<nat>) {
    && index.Keys == Elems(values)
    && (forall id :: id in index ==> index[id] < |values| && values[index[id]] == id)
  }

  lemma EmptyShape()
    ensures Shape([], [], [], [], [], {}) && Indexed(map[], []) && Elems<nat>([]) == {}
  {
    assert Nodes({}) == {};
  }

  lemma SingletonKeepsShape(values: seq<nat>, parent: seq<nat>, rank: seq<nat>, canon: seq<nat>, rep: seq<nat>,
                            pairs: Rel, id: nat)
    requires Shape(values, parent, rank, canon, rep, pairs) && id !in values
    ensures Shape(values + [id], parent + [|rep|], rank + [0], canon + [id], rep + [|rep|], pairs)
  {
    SingletonKeepsForest(parent, rank, rep);
    SingletonKeepsWeight(rank, rep);
    SingletonKeepsCanon(values, rep, canon, id);
    SingletonKeepsPartition(values, rep, pairs, id);
    Snoc(values, id);
  }

  lemma ShapeRoots(values: seq<nat>, parent: seq<nat>, rank: seq<nat>, canon: seq<nat>, rep: seq<nat>, pairs: Rel,
                   sa: nat, sb: nat)
    requires Shape(values, parent, rank, canon, rep, pairs) && sa < |rep| && sb < |rep|
    ensures rep[sa] < |rep| && rep[sb] < |rep| && rep[rep[sa]] == rep[sa] && rep[rep[sb]] == rep[sb]
    ensures rep[sa] == rep[sb] <==> Equiv(pairs, values[sa], values[sb])
    ensures rep[sa] == rep[sb] ==> Shape(values, parent, rank, canon, rep, pairs + {(values[sa], values[sb])})
  {
    if rep[sa] == rep[sb] {
      LinkKeepsPartition(values, rep, pairs, sa, sb, rep[sa], rep[sb]);
      assert Merged(rep, rep[sa], rep[sb]) == rep;
    }
  }

  lemma RoomForTwo(known: set<nat>, a: nat, b: nat)
    ensures known + {a} + {b} == known + {a, b}
    ensures |known + {a}| <= |known + {a, b}|
  {
    SubsetSize(known + {a}, known + {a, b});
  }

  lemma ShapeNoDup(values: seq<nat>, parent: seq<nat>, rank: seq<nat>, canon: seq<nat>, rep: seq<nat>, pairs: Rel)
    requires Shape(values, parent, rank, canon, rep, pairs)
    ensures NoDup(values)
  {
  }

  /** What a walk to the root relies on: ranks climb by at most 31. */
  lemma ShapeWalk(values: seq<nat>, parent: seq<nat>, rank: seq<nat>, canon: seq<nat>, rep: seq<nat>, pairs: Rel,
                  cur: nat)
    requires Shape(values, parent, rank, canon, rep, pairs) && |values| <= NIL && cur < |values|
    ensures |parent| == |rank| == |canon| == |rep| == |values| && parent[cur] < |rep| && rep[cur] < |rep|
    ensures rank[cur] <= rank[rep[cur]] <= 31
    ensures parent[cur] == cur <==> rep[cur] == cur
    ensures parent[cur] != cur ==> rep[parent[cur]] == rep[cur] && rank[cur] < rank[parent[cur]] <= 31
  {
    RankBound(parent, rank, rep, cur);
    RankBound(parent, rank, rep, parent[cur]);
  }

  lemma HalvingKeepsShape(values: seq<nat>, parent: seq<nat>, rank: seq<nat>, canon: seq<nat>, rep: seq<nat>,
                          pairs: Rel, cur: nat)
    requires Shape(values, parent, rank, canon, rep, pairs) && cur < |values| == |parent|
    requires parent[cur] != cur && parent[cur] < |parent|
    ensures Shape(values, parent[cur := parent[parent[cur]]], rank, canon, rep, pairs)
  {
    hide Weighty;
    hide Partition;
    hide LeastCanon;
    hide NoDup;
    HalvingKeepsForest(parent, rank, rep, cur);
  }

  /** A root's `canon` entry: it is a member of the class, and the least one. */
  lemma CanonMember(values: seq<nat>, parent: seq<nat>, rank: seq<nat>, canon: seq<nat>, rep: seq<nat>, pairs: Rel,
                    s: nat)
    requires Shape(values, parent, rank, canon, rep, pairs) && s < |values|
    ensures |canon| == |rep| == |values| && rep[s] < |rep|
    ensures canon[rep[s]] in Elems(values) && Equiv(pairs, values[s], canon[rep[s]])
  {
    hide Weighty;
    hide Equiv;
    assert rep[rep[s]] == rep[s];
    assert Attained(values, rep, canon[rep[s]], rep[s]);
    var k :| 0 <= k < |rep| && rep[k] == rep[s] && values[k] == canon[rep[s]];
  }

  lemma CanonLeast(values: seq<nat>, parent: seq<nat>, rank: seq<nat>, canon: seq<nat>, rep: seq<nat>, pairs: Rel,
                   s: nat, t: nat)
    requires Shape(values, parent, rank, canon, rep, pairs) && s < |values| && t < |values|
    requires Equiv(pairs, values[s], values[t])
    ensures |canon| == |rep| == |values| && rep[s] < |rep| && canon[rep[s]] <= values[t]
  {
    hide Weighty;
    hide Equiv;
    hide Attained;
    assert rep[rep[s]] == rep[s];
    assert rep[t] == rep[s];
  }

  /** Increment of a u8 that stops at its maximum. */
  function SaturatingInc(r: nat): nat {
    if r < RANK_MAX then r + 1 else RANK_MAX
  }

  /** Linking by rank is the union of two classes. */
  lemma LinkKeepsShape(values: seq<nat>, parent: seq<nat>, rank: seq<nat>, rank': seq<nat>, canon: seq<nat>,
                       rep: seq<nat>,
                       pairs: Rel, sa: nat, sb: nat, root: nat, child: nat)
    requires Shape(values, parent, rank, canon, rep, pairs) && |values| <= NIL
    requires sa < |rep| && sb < |rep| && root < |rep| && child < |rep|
    requires |parent| == |rank| == |canon| == |rep|
    requires root != child && {root, child} == {rep[sa], rep[sb]}
    requires (rank[child] < rank[root] && rank' == rank)
          || (rank[child] == rank[root] && rank' == rank[root := SaturatingInc(rank[root])])
    ensures Shape(values, parent[child := root], rank',
                  canon[root := if canon[root] <= canon[child] then canon[root] else canon[child]],
                  Merged(rep, root, child), pairs + {(values[sa], values[sb])})
  {
    hide Partition;
    hide Weighty;
    hide LeastCanon;
    hide Forest;
    hide Merged;
    ShapeRoots(values, parent, rank, canon, rep, pairs, sa, sb);
    assert root == rep[sa] || root == rep[sb];
    assert child == rep[sa] || child == rep[sb];
    RankBound(parent, rank, rep, root);
    LinkKeepsForest(parent, rank, rank', rep, root, child);
    LinkKeepsWeight(rank, rank', rep, root, child);
    LinkKeepsCanon(values, rep, canon, root, child);
    LinkKeepsPartition(values, rep, pairs, sa, sb, root, child);
  }

  lemma ShapeLengths(values: seq<nat>, parent: seq<nat>, rank: seq<nat>, canon: seq<nat>, rep: seq<nat>, pairs: Rel)
    requires Shape(values, parent, rank, canon, rep, pairs)
    ensures |parent| == |rank| == |canon| == |rep| == |values| == |Elems(values)|
    ensures Forest(parent, rank, rep) && Weighty(rank, rep)
    ensures Nodes(pairs) <= Elems(values)
  {
    NoDupLength(values);
  }

  lemma IndexNext(index: map<nat, nat>, values: seq<nat>, id: nat)
    requires Indexed(index, values)
    ensures Indexed(index[id := |values|], values + [id]) || id in index
    ensures id in index <==> id in values
    ensures id in index ==> index[id] < |values| && values[index[id]] == id
    ensures Elems(values + [id]) == Elems(values) + {id} && |values + [id]| == |values| + 1
    ensures id in values ==> Elems(values) + {id} == Elems(values)
  {
    Snoc(values, id);
    assert id in index <==> id in Elems(values);
    if id !in index {
      var index', values' := index[id := |values|], values + [id];
      forall x | x in index' ensures index'[x] < |values'| && values'[index'[x]] == x {
      }
    }
  }

  class EquivClasses {
    var index: map<nat, nat>     // id -> slot
    var values: seq<nat>         // slot -> id
    var parent: seq<nat>         // a root points at itself
    var rank: seq<nat>
    var canon: seq<nat>          // meaningful at roots only
    ghost var rep: seq<nat>      // slot -> its root
    ghost var pairs: Rel         // every pair united so far

    ghost predicate Valid()
      reads this
    {
      Shape(values, parent, rank, canon, rep, pairs) && Indexed(index, values) && |values| <= NIL
    }

    ghost function Known(): set<nat>
      reads this
    {
      Elems(values)
    }

    constructor ()
      ensures Valid() && pairs == {} && Known() == {}
    {
      index, values, parent, rank, canon := map[], [], [], [], [];
      rep, pairs := [], {};
      new;
      hide Shape;
      hide Indexed;
      hide Elems;
      EmptyShape();
    }

    /** Ensure `id` has a slot.  The caller must not exhaust the slot numbers. */
    method Insert(id: nat) returns (slot: nat)
      requires Valid() && |Known() + {id}| <= NIL
      modifies this
      ensures Valid() && pairs == old(pairs) && Known() == old(Known()) + {id}
      ensures slot < |values| && values[slot] == id && old(values) <= values
    {
      hide Shape;
      hide Indexed;
      hide Elems;
      IndexNext(index, values, id);
      if id in index {
        return index[id];
      }
      slot := |values|;
      ShapeLengths(values, parent, rank, canon, rep, pairs);
      SingletonKeepsShape(values, parent, rank, canon, rep, pairs, id);
      ShapeLengths(values + [id], parent + [slot], rank + [0], canon + [id], rep + [slot], pairs);
      values, parent, rank, canon := values + [id], parent + [slot], rank + [0], canon + [id];
      index, rep := index[id := slot], rep + [slot];
    }

    /** The root of `slot`, halving the path on the way; the classes do not change. */
    method Find(slot: nat) returns (root: nat, ghost steps: nat)
      requires Valid() && slot < |values|
      modifies this`parent
      ensures Valid() && root == rep[slot] && parent[root] == root
      ensures steps <= 31
    {
      hide Shape;
      hide Indexed;
      var cur: nat := slot;
      steps := 0;
      ShapeWalk(values, parent, rank, canon, rep, pairs, slot);
      while parent[cur] != cur
        invariant Valid() && cur < |values| && |parent| == |rank| == |rep| == |values|
        invariant rep[cur] == rep[slot]
        invariant steps <= rank[cur] - rank[slot] && rank[cur] <= 31
        decreases 31 - rank[cur]
      {
        ShapeWalk(values, parent, rank, canon, rep, pairs, cur);
        ShapeWalk(values, parent, rank, canon, rep, pairs, parent[cur]);
        HalvingKeepsShape(values, parent, rank, canon, rep, pairs, cur);
        parent := parent[cur := parent[parent[cur]]];
        cur := parent[cur];
        ShapeWalk(values, parent, rank, canon, rep, pairs, cur);
        steps := steps + 1;
      }
      ShapeWalk(values, parent, rank, canon, rep, pairs, cur);
      root := cur;
    }

    /** Unite the classes of `a` and `b`, inserting either when it is new. */
    method Union(a: nat, b: nat)
      requires Valid() && |Known() + {a, b}| <= NIL
      modifies this
      ensures Valid() && pairs == old(pairs) + {(a, b)} && Known() == old(Known()) + {a, b}
    {
      hide Shape;
      hide Indexed;
      hide Elems;
      hide Forest;
      hide Weighty;
      RoomForTwo(Known(), a, b);
      var sa := Insert(a);
      var sb := Insert(b);
      var ra, _ := Find(sa);
      var rb, _ := Find(sb);
      ShapeLengths(values, parent, rank, canon, rep, pairs);
      ShapeRoots(values, parent, rank, canon, rep, pairs, sa, sb);
      if ra == rb {
        pairs := pairs + {(a, b)};
      } else {
        Link(ra, rb, sa, sb);
      }
    }

    /** Hang the root of smaller rank under the other; on a tie the first root wins and gains a rank. */
    method Link(ra: nat, rb: nat, ghost sa: nat, ghost sb: nat)
      requires Valid() && sa < |values| && sb < |values| && ra < |values| && rb < |values|
      requires ra == rep[sa] && rb == rep[sb] && ra != rb
      modifies this`parent, this`rank, this`canon, this`rep, this`pairs
      ensures Valid() && pairs == old(pairs) + {(values[sa], values[sb])}
    {
      hide Shape;
      hide Indexed;
      hide Elems;
      hide Forest;
      hide Weighty;
      hide Merged;
      ShapeLengths(values, parent, rank, canon, rep, pairs);
      var root, child, rank' := ra, rb, rank;
      if rank[ra] < rank[rb] {
        root, child := rb, ra;
      } else if rank[ra] == rank[rb] {
        rank' := rank[ra := SaturatingInc(rank[ra])];
      }
      var merged := if canon[root] <= canon[child] then canon[root] else canon[child];
      var parent', canon' := parent[child := root], canon[root := merged];
      ghost var rep', pairs' := Merged(rep, root, child), pairs + {(values[sa], values[sb])};
      LinkKeepsShape(values, parent, rank, rank', canon, rep, pairs, sa, sb, root, child);
      parent, rank, canon, rep, pairs := parent', rank', canon', rep', pairs';
    }

    /** Known, and related by the equivalence the united pairs generate. */
    method Same(a: nat, b: nat) returns (r: bool)
      requires Valid()
      modifies this`parent
      ensures Valid()
      ensures r <==> a in Known() && b in Known() && Equiv(pairs, a, b)
    {
      hide Shape;
      hide Indexed;
      hide Equiv;
      IndexNext(index, values, a);
      IndexNext(index, values, b);
      if a !in index || b !in index {
        return false;
      }
      ShapeLengths(values, parent, rank, canon, rep, pairs);
      ShapeRoots(values, parent, rank, canon, rep, pairs, index[a], index[b]);
      var ra, _ := Find(index[a]);
      var rb, _ := Find(index[b]);
      r := ra == rb;
    }

    /** The representative: the least member of the id's class. */
    ghost function CanonicalOf(id: nat): Option<nat>
      requires Valid()
      reads this
    {
      if id in index && index[id] < |rep| && rep[index[id]] < |canon| then Some(canon[rep[index[id]]]) else None
    }

    /** Walk to the root without compressing. */
    method Canonical(id: nat) returns (r: Option<nat>)
      requires Valid()
      ensures r == CanonicalOf(id)
    {
      hide Shape;
      hide Indexed;
      hide Elems;
      IndexNext(index, values, id);
      if id !in index {
        return None;
      }
      var cur: nat := index[id];
      ShapeWalk(values, parent, rank, canon, rep, pairs, cur);
      while parent[cur] != cur
        invariant cur < |rep| && rep[cur] == rep[index[id]] && rank[cur] <= 31
        decreases 31 - rank[cur]
      {
        ShapeWalk(values, parent, rank, canon, rep, pairs, cur);
        cur := parent[cur];
      }
      ShapeWalk(values, parent, rank, canon, rep, pairs, cur);
      r := Some(canon[cur]);
    }

    /** `CanonicalOf` is the least known member of the class, whatever shape the chains have. */
    lemma CanonicalIsLeast(id: nat, v: nat)
      requires Valid()
      ensures CanonicalOf(id) == None <==> id !in Known()
      ensures id in Known() ==> CanonicalOf(id).value in Known() && Equiv(pairs, id, CanonicalOf(id).value)
      ensures id in Known() && v in Known() && Equiv(pairs, id, v) ==> CanonicalOf(id).value <= v
    {
      hide Shape;
      hide Equiv;
      if id in index {
        CanonMember(values, parent, rank, canon, rep, pairs, index[id]);
        if v in index && Equiv(pairs, id, v) {
          CanonLeast(values, parent, rank, canon, rep, pairs, index[id], index[v]);
        }
      }
    }

    /** Two known ids have the same representative exactly when they are equivalent. */
    lemma CanonicalSeparates(a: nat, b: nat)
      requires Valid() && a in Known() && b in Known()
      ensures CanonicalOf(a) == CanonicalOf(b) <==> Equiv(pairs, a, b)
    {
      hide Shape;
      hide Indexed;
      hide Equiv;
      CanonicalIsLeast(a, b);
      CanonicalIsLeast(b, a);
      var x, y := CanonicalOf(a).value, CanonicalOf(b).value;
      EquivIsEquivalence(pairs, a, b, y);
      EquivIsEquivalence(pairs, b, a, x);
      CanonicalIsLeast(a, y);
      CanonicalIsLeast(b, x);
      if x == y {
        EquivIsEquivalence(pairs, b, y, a);
        EquivIsEquivalence(pairs, a, x, b);
      }
    }

    /** Every known member of the id's class, once each; nothing for an unknown id. */
    method ClassMembers(id: nat) returns (members: seq<nat>)
      requires Valid()
      ensures NoDup(members)
      ensures forall v :: v in members <==> id in Known() && v in Known() && Equiv(pairs, id, v)
    {
      hide Shape;
      hide Indexed;
      hide Forest;
      hide Weighty;
      hide Equiv;
      var target := Canonical(id);
      members := [];
      CanonicalIsLeast(id, id);
      if target == None {
        return;
      }
      var i := 0;
      ShapeLengths(values, parent, rank, canon, rep, pairs);
      ShapeNoDup(values, parent, rank, canon, rep, pairs);
      while i < |values|
        invariant 0 <= i <= |values| && NoDup(members)
        invariant forall v :: v in members <==> v in values[..i] && Equiv(pairs, id, v)
      {
        assert values[i] in Elems(values) && values[i] !in values[..i];
        var c := Canonical(values[i]);
        CanonicalSeparates(id, values[i]);
        Snoc(members, values[i]);
        Snoc(values[..i], values[i]);
        assert values[..i + 1] == values[..i] + [values[i]];
        if c == target {
          members := members + [values[i]];
        }
        i := i + 1;
      }
      assert values[..i] == values;
    }

    /** Unite every asserted pair, in the order given. */
    method AddSameAs(ps: seq<Edge>)
      requires Valid() && |Known() + Nodes(Elems(ps))| <= NIL
      modifies this
      ensures Valid() && pairs == old(pairs) + Elems(ps) && Known() == old(Known()) + Nodes(Elems(ps))
    {
      hide Shape;
      hide Indexed;
      var i := 0;
      assert Nodes(Elems(ps[..0])) == {};
      while i < |ps|
        invariant 0 <= i <= |ps| && Valid()
        invariant pairs == old(pairs) + Elems(ps[..i]) && Known() == old(Known()) + Nodes(Elems(ps[..i]))
      {
        RoomForNext(old(Known()), ps, i);
        Union(ps[i].0, ps[i].1);
        i := i + 1;
      }
      assert ps[..i] == ps;
    }
  }

  lemma NodesMonotone(e: Rel, e': Rel)
    requires e <= e'
    ensures Nodes(e) <= Nodes(e')
  {
  }

  lemma RoomForNext(known: set<nat>, ps: seq<Edge>, i: nat)
    requires i < |ps|
    ensures Elems(ps[..i + 1]) == Elems(ps[..i]) + {ps[i]}
    ensures known + Nodes(Elems(ps[..i + 1])) == known + Nodes(Elems(ps[..i])) + {ps[i].0, ps[i].1}
    ensures |known + Nodes(Elems(ps[..i])) + {ps[i].0, ps[i].1}| <= |known + Nodes(Elems(ps))|
  {
    TakeNext(ps, i);
    NodesNext(Elems(ps[..i]), ps[i]);
    var some, all := Elems(ps[..i + 1]), Elems(ps);
    assert some <= all;
    NodesMonotone(some, all);
    SubsetSize(known + Nodes(some), known + Nodes(all));
  }

  /** The answers depend only on which pairs were united and which ids are known, not on the order. */
  lemma OrderDoesNotMatter(x: EquivClasses, y: EquivClasses, id: nat)
    requires x.Valid() && y.Valid() && x.pairs == y.pairs && x.Known() == y.Known()
    ensures x.CanonicalOf(id) == y.CanonicalOf(id)
  {
    hide Shape;
    hide Indexed;
    x.CanonicalIsLeast(id, id);
    y.CanonicalIsLeast(id, id);
    if id in x.Known() {
      x.CanonicalIsLeast(id, y.CanonicalOf(id).value);
      y.CanonicalIsLeast(id, x.CanonicalOf(id).value);
    }
  }
}
