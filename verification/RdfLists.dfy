/** Reading an RDF collection out of a graph by following rdf:first and rdf:rest. */
module RdfLists {
  import opened Wrappers
  import opened Relations

  datatype Node = Iri(id: nat) | Blank(id: nat) | Literal(id: nat) | TripleTerm(id: nat)

  const NIL := Iri(0)                  // rdf:nil

  datatype ListError = NotAResource(Node) | MissingFirst(Node) | MissingRest(Node)

  /** What the graph answers for `rdf:first` and `rdf:rest` of a subject. */
  datatype Lists = Lists(first: map<Node, Node>, rest: map<Node, Node>)

  function Problem(g: Lists, cur: Node): Option<ListError> {
    if cur.Literal? || cur.TripleTerm? then Some(NotAResource(cur))
    else if cur !in g.first then Some(MissingFirst(cur))
    else if cur !in g.rest then Some(MissingRest(cur))
    else None
  }

  /** The loop goes on past `cur`: it is a complete list cell. */
  predicate Cell(g: Lists, cur: Node) {
    cur != NIL && Problem(g, cur) == None
  }

  /** The node `k` cells further on, when there are that many. */
  function Kth(g: Lists, head: Node, k: nat): Option<Node> {
    if k == 0 then Some(head)
    else
      match Kth(g, head, k - 1)
      case None => None
      case Some(n) => if Cell(g, n) then Some(g.rest[n]) else None
  }

  /** The walk comes to a node that is not a cell. */
  ghost predicate Ends(g: Lists, head: Node, k: nat) {
    Kth(g, head, k).Some? && !Cell(g, Kth(g, head, k).value)
  }

  /** The walk never comes back to a node. */
  ghost predicate Acyclic(g: Lists, head: Node) {
    forall i: nat, j: nat :: i < j && Kth(g, head, i).Some? && Kth(g, head, j).Some? ==>
      Kth(g, head, i) != Kth(g, head, j)
  }

  lemma {:induction false} KthBefore(g: Lists, head: Node, j: nat, k: nat)
    requires j < k && Kth(g, head, k).Some?
    ensures Kth(g, head, j).Some? && Cell(g, Kth(g, head, j).value)
    decreases k
  {
    if j < k - 1 {
      KthBefore(g, head, j, k - 1);
    }
  }

  lemma {:induction false} KthAgain(g: Lists, head: Node, i: nat, j: nat, m: nat)
    requires Kth(g, head, i) == Kth(g, head, j)
    ensures Kth(g, head, i + m) == Kth(g, head, j + m)
    decreases m
  {
    if m > 0 {
      KthAgain(g, head, i, j, m - 1);
      assert i + m - 1 == i + (m - 1) && j + m - 1 == j + (m - 1);
    }
  }

  /** A walk that ends never repeats a node: from the repeat on it could not end. */
  lemma EndsIsAcyclic(g: Lists, head: Node, k: nat)
    requires Ends(g, head, k)
    ensures Acyclic(g, head)
  {
    forall i: nat, j: nat | i < j && Kth(g, head, i).Some? && Kth(g, head, j).Some?
      ensures Kth(g, head, i) != Kth(g, head, j)
    {
      if j > k {
        KthBefore(g, head, k, j);
      } else if Kth(g, head, i) == Kth(g, head, j) {
        KthAgain(g, head, i, j, k - j);
        KthBefore(g, head, i + (k - j), k);
      }
    }
  }

  /** An acyclic walk has at most as many cells as the graph has rdf:rest edges. */
  lemma CellsAreBounded(g: Lists, head: Node, k: nat)
    requires Kth(g, head, k).Some? && Acyclic(g, head)
    ensures k <= |g.rest|
  {
    forall j: nat | j < k ensures Kth(g, head, j).Some? && Cell(g, Kth(g, head, j).value) {
      KthBefore(g, head, j, k);
    }
    var cells := seq(k, j requires 0 <= j < k => Kth(g, head, j).value);
    forall i, j | 0 <= i < j < |cells| ensures cells[i] != cells[j] {
      assert Kth(g, head, i) != Kth(g, head, j);
    }
    NoDupLength(cells);
    SubsetSize(Elems(cells), g.rest.Keys);
  }

  /** An acyclic walk over a finite graph runs out of cells. */
  lemma {:induction false} AcyclicEnds(g: Lists, head: Node, k: nat) returns (end: nat)
    requires Acyclic(g, head) && Kth(g, head, k).Some?
    ensures Ends(g, head, end)
    decreases |g.rest| + 1 - k
  {
    CellsAreBounded(g, head, k);
    if Cell(g, Kth(g, head, k).value) {
      end := AcyclicEnds(g, head, k + 1);
    } else {
      end := k;
    }
  }

  /** The loop comes to an end exactly when the walk never returns to a cell: nothing in the
      loop itself notices a list whose tail leads back into it. */
  lemma EndsIffAcyclic(g: Lists, head: Node)
    ensures (exists k: nat :: Ends(g, head, k)) <==> Acyclic(g, head)
  {
    if k: nat :| Ends(g, head, k) {
      EndsIsAcyclic(g, head, k);
    }
    if Acyclic(g, head) {
      var k := AcyclicEnds(g, head, 0);
    }
  }

  /** A one-cell list that is its own tail: the loop runs for ever on it. */
  lemma SelfTailNeverEnds(k: nat)
    ensures var g := Lists(map[Blank(1) := Iri(5)], map[Blank(1) := Blank(1)]);
      !Ends(g, Blank(1), k)
  {
    var g := Lists(map[Blank(1) := Iri(5)], map[Blank(1) := Blank(1)]);
    assert Kth(g, Blank(1), 0) == Kth(g, Blank(1), 1);
    EndsIffAcyclic(g, Blank(1));
  }

  /** The first elements of the first `k` cells. */
  ghost predicate Items(g: Lists, head: Node, items: seq<Node>) {
    forall j: nat :: j < |items| ==>
      Kth(g, head, j).Some? && Cell(g, Kth(g, head, j).value) && items[j] == g.first[Kth(g, head, j).value]
  }

  /** `nodes` are met one after the other from `head`; all but the last are complete list cells. */
  ghost predicate Walked(g: Lists, head: Node, nodes: seq<Node>) {
    && nodes != [] && nodes[0] == head
    && forall j :: 0 <= j < |nodes| - 1 ==>
         && (nodes[j].Iri? || nodes[j].Blank?) && nodes[j] != Iri(0)
         && nodes[j] in g.first && nodes[j] in g.rest && nodes[j + 1] == g.rest[nodes[j]]
  }

  /** The elements of the cells before the last node. */
  ghost predicate Elements(g: Lists, nodes: seq<Node>, items: seq<Node>) {
    |items| + 1 == |nodes| && forall j :: 0 <= j < |items| ==> nodes[j] in g.first && items[j] == g.first[nodes[j]]
  }

  /** Why a node is no list cell. */
  ghost predicate Blames(g: Lists, n: Node, e: ListError) {
    match e
    case NotAResource(m) => m == n && (n.Literal? || n.TripleTerm?)
    case MissingFirst(m) => m == n && (n.Iri? || n.Blank?) && n !in g.first
    case MissingRest(m) => m == n && (n.Iri? || n.Blank?) && n in g.first && n !in g.rest
  }

  /** Collect the elements up to rdf:nil, or report the first node that is not a list cell. */
  method ReadRdfList(g: Lists, head: Node) returns (r: Result<seq<Node>, ListError>)
    requires Acyclic(g, head)
    ensures r.Ok? ==> Items(g, head, r.value) && Kth(g, head, |r.value|) == Some(NIL)
    ensures r.Ok? ==>
              exists nodes :: Walked(g, head, nodes) && Elements(g, nodes, r.value) && nodes[|r.value|] == Iri(0)
    ensures r.Err? ==> exists k: nat :: Ends(g, head, k) && Problem(g, Kth(g, head, k).value) == Some(r.error)
                                        && Kth(g, head, k).value != NIL
    ensures r.Err? ==>
              exists nodes :: Walked(g, head, nodes) && nodes[|nodes| - 1] != Iri(0)
                              && Blames(g, nodes[|nodes| - 1], r.error)
  {
    var out: seq<Node>, cur := [], head;
    ghost var nodes := [head];
    while cur != NIL
      invariant Kth(g, head, |out|) == Some(cur) && Items(g, head, out)
      invariant Walked(g, head, nodes) && Elements(g, nodes, out) && nodes[|nodes| - 1] == cur
      decreases |g.rest| - |out|
    {
      var problem := Problem(g, cur);
      if problem.Some? {
        assert Ends(g, head, |out|) && Blames(g, cur, problem.value);
        return Err(problem.value);
      }
      assert Kth(g, head, |out| + 1) == Some(g.rest[cur]);
      CellsAreBounded(g, head, |out| + 1);
      out := out + [g.first[cur]];
      cur := g.rest[cur];
      nodes := nodes + [cur];
    }
    r := Ok(out);
  }
}
