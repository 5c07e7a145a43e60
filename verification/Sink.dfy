/** The boundary to storage, and the bulk backend that recloses the whole edge set on every call. */
module Sink {
  import opened Wrappers
  import opened Relations
  import opened DenseIds
  import opened BoolClosure

  datatype Triple = Triple(s: nat, p: nat, o: nat)

  datatype SinkError = SinkError

  function Tagged(p: nat, pairs: seq<Edge>): (r: seq<Triple>)
    ensures |r| == |pairs| && forall k :: 0 <= k < |r| ==> r[k] == Triple(pairs[k].0, p, pairs[k].1)
  {
    seq(|pairs|, k requires 0 <= k < |pairs| => Triple(pairs[k].0, p, pairs[k].1))
  }

  /** Storage as the closure engine sees it.  `refusing` stands for whatever makes a write fail;
      the environment may change it between calls.  The store removes duplicates itself. */
  class TripleSink {
    var store: set<Triple>
    var received: seq<Triple>
    var refusing: bool

    method BulkInsertInferred(triples: seq<Triple>) returns (r: Result<nat, SinkError>)
      modifies this`store, this`received
      ensures r == if refusing then Err(SinkError) else Ok(|store - old(store)|)
      ensures received == if refusing then old(received) else old(received) + triples
      ensures store == if refusing then old(store) else old(store) + Elems(triples)
    {
      if refusing {
        return Err(SinkError);
      }
      var added := Elems(triples) - store;
      store := store + Elems(triples);
      received := received + triples;
      r := Ok(|added|);
      assert added == store - old(store);
    }
  }

  /** Map the closed index pairs back to ids, tag them with the predicate and hand them over. */
  method WriteClosure(p: nat, dense: seq<Edge>, ids: DenseIdMap, sink: TripleSink)
    returns (r: Result<nat, SinkError>, ghost emitted: seq<Edge>)
    requires ids.Valid() && InRange(Elems(dense), |ids.reverse|) && NoDup(dense)
    modifies sink`store, sink`received
    ensures r.Err? <==> sink.refusing
    ensures r.Ok? ==> r.value == |sink.store - old(sink.store)|
    ensures NoDup(emitted) && Elems(emitted) == Decode(ids.reverse, Elems(dense))
    ensures sink.received == if r.Ok? then old(sink.received) + Tagged(p, emitted) else old(sink.received)
  {
    var pairs := ids.PairsToDict(dense);
    DenotesDecodes(ids.reverse, dense, pairs);
    emitted := pairs;
    r := sink.BulkInsertInferred(Tagged(p, pairs));
  }

  /** Renumber the endpoints and load the edges into a matrix of exactly that dimension. */
  method BuildMatrix(edges: seq<Edge>) returns (m: BoolMatrix, ids: DenseIdMap)
    ensures fresh(m) && fresh(ids) && m.Valid() && ids.Valid() && m.n == |ids.reverse|
    ensures Decode(ids.reverse, m.entries) == Elems(edges)
    ensures Elems(ids.reverse) == Nodes(Elems(edges))
  {
    ids := new DenseIdMap();
    var dense := ids.InternEdges(edges);
    DenotesDecodes(ids.reverse, dense, edges);
    m := new BoolMatrix.FromEdges(|ids.reverse|, dense);
  }

  lemma DecodeDiagonal(ids: seq<nat>)
    ensures InRange(Diagonal(|ids|), |ids|)
    ensures Decode(ids, Diagonal(|ids|)) == IdentityOn(Elems(ids))
  {
    forall p | p in IdentityOn(Elems(ids)) ensures p in Decode(ids, Diagonal(|ids|)) {
      var i :| 0 <= i < |ids| && ids[i] == p.0;
      assert (i, i) in Diagonal(|ids|);
    }
  }

  /** `M* = I or M+` over the matrix dimension. */
  method ReflexiveTransitiveClosure(m: BoolMatrix) returns (closure: BoolMatrix)
    requires m.Valid()
    ensures fresh(closure) && closure.Valid() && closure.n == m.n
    ensures closure.entries == Closure(m.entries) + Diagonal(m.n)
  {
    closure := TransitiveClosure(m);
    var identity := new BoolMatrix.Identity(m.n);
    closure.OrAssign(identity);
  }

  /** prp-trp: one successful call delivers every pair of the strict closure of the asserted
      edges exactly once, and nothing else. */
  method CloseTransitivePredicate(p: nat, edges: seq<Edge>, sink: TripleSink)
    returns (r: Result<nat, SinkError>, ghost emitted: seq<Edge>)
    modifies sink`store, sink`received
    ensures r.Err? <==> sink.refusing && edges != []
    ensures r.Ok? ==> r.value == |sink.store - old(sink.store)|
    ensures NoDup(emitted) && Elems(emitted) == Closure(Elems(edges))
    ensures sink.received == if r.Ok? then old(sink.received) + Tagged(p, emitted) else old(sink.received)
  {
    emitted := [];
    if edges == [] {
      ClosureFixed(Elems(edges));
      assert sink.store - old(sink.store) == {};
      return Ok(0), [];
    }
    var m, ids := BuildMatrix(edges);
    var closure := TransitiveClosure(m);
    var dense := closure.ExtractEdges();
    DecodeClosure(ids.reverse, m.entries);
    r, emitted := WriteClosure(p, dense, ids, sink);
  }

  /** scm-sco and scm-spo: the closure with the identity on every class or property mentioned. */
  method CloseReflexive(p: nat, edges: seq<Edge>, sink: TripleSink)
    returns (r: Result<nat, SinkError>, ghost emitted: seq<Edge>)
    modifies sink`store, sink`received
    ensures r.Err? <==> sink.refusing && edges != []
    ensures r.Ok? ==> r.value == |sink.store - old(sink.store)|
    ensures NoDup(emitted) && Elems(emitted) == Closure(Elems(edges)) + IdentityOn(Nodes(Elems(edges)))
    ensures sink.received == if r.Ok? then old(sink.received) + Tagged(p, emitted) else old(sink.received)
  {
    emitted := [];
    if edges == [] {
      ClosureFixed(Elems(edges));
      assert sink.store - old(sink.store) == {};
      return Ok(0), [];
    }
    var m, ids := BuildMatrix(edges);
    var closure := ReflexiveTransitiveClosure(m);
    var dense := closure.ExtractEdges();
    DecodeClosure(ids.reverse, m.entries);
    DecodeUnion(ids.reverse, Closure(m.entries), Diagonal(m.n));
    DecodeDiagonal(ids.reverse);
    r, emitted := WriteClosure(p, dense, ids, sink);
  }
}
