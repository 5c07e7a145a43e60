/** Per-predicate dense renumbering of dictionary ids, and why it cannot be seen from outside. */
module DenseIds {
  import opened Wrappers
  import opened Relations

  /** Every endpoint is a dense index below `n`. */
  ghost predicate InRange(r: Rel, n: nat) {
    forall p :: p in r ==> p.0 < n && p.1 < n
  }

  /** A dense relation read back through the index-to-id vector; an endpoint past the end is dropped. */
  ghost function Decode(ids: seq<nat>, r: Rel): Rel {
    set p | p in r && p.0 < |ids| && p.1 < |ids| :: (ids[p.0], ids[p.1])
  }

  lemma DecodeMember(ids: seq<nat>, r: Rel, a: nat, b: nat)
    requires NoDup(ids) && a < |ids| && b < |ids|
    ensures (ids[a], ids[b]) in Decode(ids, r) <==> (a, b) in r
  {
    if (ids[a], ids[b]) in Decode(ids, r) {
      var p :| p in r && p.0 < |ids| && p.1 < |ids| && (ids[p.0], ids[p.1]) == (ids[a], ids[b]);
      assert p == (a, b);
    }
  }

  lemma ClosureInRange(r: Rel, n: nat)
    requires InRange(r, n)
    ensures InRange(Closure(r), n)
  {
    forall p | p in Closure(r) ensures p.0 < n && p.1 < n {
      assert p.0 in Nodes(r) && p.1 in Nodes(r);
    }
  }

  /** Renumbering commutes with closing: closing over dense indexes and mapping back is
      closing over dictionary ids. */
  lemma DecodeClosure(ids: seq<nat>, r: Rel)
    requires NoDup(ids) && InRange(r, |ids|)
    ensures Decode(ids, Closure(r)) == Closure(Decode(ids, r))
  {
    DecodedClosureIsClosed(ids, r);
    EncodedClosureIsClosed(ids, r);
  }

  lemma DecodedClosureIsClosed(ids: seq<nat>, r: Rel)
    requires NoDup(ids) && InRange(r, |ids|)
    ensures Closure(Decode(ids, r)) <= Decode(ids, Closure(r))
  {
    var d := Decode(ids, Closure(r));
    ClosureContains(r);
    ClosureTransitive(r);
    forall x, z, y | (x, z) in Decode(ids, r) && (z, y) in d ensures (x, y) in d {
      var p :| p in r && p.0 < |ids| && p.1 < |ids| && (ids[p.0], ids[p.1]) == (x, z);
      var q :| q in Closure(r) && q.0 < |ids| && q.1 < |ids| && (ids[q.0], ids[q.1]) == (z, y);
      assert p.1 == q.0;
      assert (p.0, p.1) in Closure(r) && (q.0, q.1) in Closure(r);
      assert (p.0, q.1) in Closure(r);
    }
    ClosureLeast(Decode(ids, r), d);
  }

  lemma EncodedClosureIsClosed(ids: seq<nat>, r: Rel)
    requires NoDup(ids) && InRange(r, |ids|)
    ensures Decode(ids, Closure(r)) <= Closure(Decode(ids, r))
  {
    var c := Closure(Decode(ids, r));
    ClosureContains(Decode(ids, r));
    ClosureTransitive(Decode(ids, r));
    ClosureInRange(r, |ids|);
    ClosureContains(r);
    ClosureTransitive(r);
    var t := set p | p in Closure(r) && (ids[p.0], ids[p.1]) in c;
    forall p | p in r ensures p in t {
      DecodeMember(ids, r, p.0, p.1);
    }
    forall x, z, y | (x, z) in r && (z, y) in t ensures (x, y) in t {
      assert (ids[x], ids[z]) in Decode(ids, r);
    }
    ClosureLeast(r, t);
  }

  lemma DecodeUnion(ids: seq<nat>, r: Rel, r': Rel)
    ensures Decode(ids, r + r') == Decode(ids, r) + Decode(ids, r')
    ensures NoDup(ids) ==> Decode(ids, r - r') == Decode(ids, r) - Decode(ids, r')
  {
    if NoDup(ids) {
      forall p | p in r && p !in r' && p.0 < |ids| && p.1 < |ids|
        ensures (ids[p.0], ids[p.1]) !in Decode(ids, r')
      {
        DecodeMember(ids, r', p.0, p.1);
      }
    }
  }

  /** Later interning leaves earlier decodings alone. */
  lemma DecodeStable(ids: seq<nat>, ids': seq<nat>, r: Rel)
    requires ids <= ids' && InRange(r, |ids|)
    ensures Decode(ids', r) == Decode(ids, r)
  {
  }

  /** `dense` and `edges` are the same list of pairs, in index space and in id space. */
  ghost predicate Denotes(ids: seq<nat>, dense: seq<Edge>, edges: seq<Edge>) {
    && |dense| == |edges|
    && forall k :: 0 <= k < |dense| ==>
         dense[k].0 < |ids| && dense[k].1 < |ids| && (ids[dense[k].0], ids[dense[k].1]) == edges[k]
  }

  lemma InternNone(ids: seq<nat>, edges: seq<Edge>)
    ensures Elems(ids) == Elems(ids) + Nodes(Elems(edges[..0]))
    ensures Denotes(ids, [], edges[..0])
  {
  }

  lemma DenotesNext(ids: seq<nat>, ids': seq<nat>, dense: seq<Edge>, edges: seq<Edge>, i: nat, a: nat, b: nat)
    requires i < |edges| && Denotes(ids, dense, edges[..i]) && ids <= ids'
    requires a < |ids'| && b < |ids'| && (ids'[a], ids'[b]) == edges[i]
    ensures Denotes(ids', dense + [(a, b)], edges[..i + 1])
  {
  }

  lemma DecodeNext(ids: seq<nat>, pairs: seq<Edge>, i: nat, out: seq<Edge>)
    requires i < |pairs| && Elems(out) == Decode(ids, Elems(pairs[..i]))
    ensures var (a, b) := pairs[i];
      if a < |ids| && b < |ids| then
        Elems(out + [(ids[a], ids[b])]) == Decode(ids, Elems(pairs[..i + 1]))
      else
        !InRange(Elems(pairs), |ids|) && Elems(out) == Decode(ids, Elems(pairs[..i + 1]))
    ensures var (a, b) := pairs[i];
      Denotes(ids, pairs[..i], out) && a < |ids| && b < |ids|
      ==> Denotes(ids, pairs[..i + 1], out + [(ids[a], ids[b])])
  {
    TakeNext(pairs, i);
    DecodeUnion(ids, Elems(pairs[..i]), {pairs[i]});
    assert pairs[i] in Elems(pairs);
    var (a, b) := pairs[i];
    if a < |ids| && b < |ids| {
      Snoc(out, (ids[a], ids[b]));
      assert Decode(ids, {pairs[i]}) == {(ids[a], ids[b])};
    } else {
      assert Decode(ids, {pairs[i]}) == {};
    }
  }

  /** A bijection between the dictionary ids seen so far and 0..len. */
  class DenseIdMap {
    var forward: map<nat, nat>
    var reverse: seq<nat>

    ghost predicate Valid()
      reads this
    {
      && NoDup(reverse)
      && forward.Keys == Elems(reverse)
      && forall i :: 0 <= i < |reverse| ==> reverse[i] in forward && forward[reverse[i]] == i
    }

    lemma Distinct()
      requires Valid()
      ensures NoDup(reverse)
    {
    }

    constructor ()
      ensures Valid() && reverse == []
    {
      forward, reverse := map[], [];
    }

    /** Return the id's index, handing out the next one when the id is new. */
    method Intern(id: nat) returns (dense: nat)
      requires Valid()
      modifies this
      ensures Valid() && old(reverse) <= reverse
      ensures reverse == if id in old(reverse) then old(reverse) else old(reverse) + [id]
      ensures Elems(reverse) == Elems(old(reverse)) + {id}
      ensures dense < |reverse| && reverse[dense] == id
    {
      if id in forward {
        return forward[id];
      }
      dense := |reverse|;
      Snoc(reverse, id);
      reverse := reverse + [id];
      forward := forward[id := dense];
    }

    function ToDense(id: nat): Option<nat>
      reads this
    {
      if id in forward then Some(forward[id]) else None
    }

    function ToDict(idx: nat): Option<nat>
      reads this
    {
      if idx < |reverse| then Some(reverse[idx]) else None
    }

    method InternEdges(edges: seq<Edge>) returns (out: seq<Edge>)
      requires Valid()
      modifies this
      ensures Valid() && old(reverse) <= reverse && Denotes(reverse, out, edges)
      ensures Elems(reverse) == Elems(old(reverse)) + Nodes(Elems(edges))
    {
      hide Elems;
      hide Nodes;
      hide Denotes;
      out := [];
      var i := 0;
      InternNone(reverse, edges);
      while i < |edges|
        invariant 0 <= i <= |edges| && Valid() && old(reverse) <= reverse
        invariant Denotes(reverse, out, edges[..i])
        invariant Elems(reverse) == Elems(old(reverse)) + Nodes(Elems(edges[..i]))
      {
        ghost var ids := reverse;
        var si := Intern(edges[i].0);
        var oi := Intern(edges[i].1);
        TakeNext(edges, i);
        NodesNext(Elems(edges[..i]), edges[i]);
        assert Elems(reverse) == Elems(old(reverse)) + Nodes(Elems(edges[..i + 1]));
        DenotesNext(ids, reverse, out, edges, i, si, oi);
        out := out + [(si, oi)];
        i := i + 1;
      }
      assert edges[..i] == edges;
    }

    /** Map index pairs back to ids; a pair with an unknown index is dropped. */
    method PairsToDict(pairs: seq<Edge>) returns (out: seq<Edge>)
      requires Valid()
      ensures Elems(out) == Decode(reverse, Elems(pairs))
      ensures InRange(Elems(pairs), |reverse|) ==> Denotes(reverse, pairs, out)
    {
      out := [];
      var i := 0;
      while i < |pairs|
        invariant 0 <= i <= |pairs|
        invariant Elems(out) == Decode(reverse, Elems(pairs[..i]))
        invariant InRange(Elems(pairs), |reverse|) ==> Denotes(reverse, pairs[..i], out)
      {
        DecodeNext(reverse, pairs, i, out);
        var s, o := ToDict(pairs[i].0), ToDict(pairs[i].1);
        if s.Some? && o.Some? {
          out := out + [(s.value, o.value)];
        }
        i := i + 1;
      }
      assert pairs[..i] == pairs;
    }
  }

  /** An edge list and its dense image name the same relation, and repeat the same pairs. */
  lemma DenotesDecodes(ids: seq<nat>, dense: seq<Edge>, edges: seq<Edge>)
    requires Denotes(ids, dense, edges)
    ensures InRange(Elems(dense), |ids|) && Decode(ids, Elems(dense)) == Elems(edges)
    ensures NoDup(ids) && NoDup(dense) ==> NoDup(edges)
  {
    forall p | p in Elems(edges) ensures p in Decode(ids, Elems(dense)) {
      var k :| 0 <= k < |edges| && edges[k] == p;
      assert dense[k] in Elems(dense);
    }
  }
}
