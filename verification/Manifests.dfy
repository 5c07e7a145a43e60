/** Manifest includes: a depth-first walk that reads each file once. */
module Manifests {
  import opened Wrappers
  import opened Relations

  type Path = nat
  type Case = nat

  /** One manifest: its own test cases, and the manifests it includes, in order. */
  datatype Doc = Doc(cases: seq<Case>, includes: seq<Path>)

  /** Where loading failed, and the manifests it was included through, outermost first. */
  datatype Failure = Failure(at: Path, via: seq<Path>)

  /** The file system a parse sees: `canonical` names the file behind a path, when it can be
      resolved; `load` reads, parses and projects a manifest, or fails. */
  datatype World = World(canonical: Path -> Option<Path>, load: Path -> Option<Doc>) {
    function Key(p: Path): Path {
      match canonical(p)
      case Some(k) => k
      case None => p
    }

    function Includes(p: Path): seq<Path> {
      match load(p)
      case Some(d) => d.includes
      case None => []
    }

    function Cases(p: Path): seq<Case> {
      match load(p)
      case Some(d) => d.cases
      case None => []
    }
  }

  /** There are finitely many files that load. */
  ghost predicate Finite(w: World, files: set<Path>) {
    forall p :: w.load(p).Some? ==> w.Key(p) in files
  }

  function KeysOf(w: World, paths: seq<Path>): set<Path> {
    set p | p in paths :: w.Key(p)
  }

  /** The cases of the manifests read, in the order they were read. */
  function CasesOf(w: World, visited: seq<Path>): seq<Case> {
    if visited == [] then [] else CasesOf(w, visited[..|visited| - 1]) + w.Cases(visited[|visited| - 1])
  }

  lemma ReadOne(w: World, visited: seq<Path>, p: Path)
    ensures KeysOf(w, visited + [p]) == KeysOf(w, visited) + {w.Key(p)}
    ensures CasesOf(w, visited + [p]) == CasesOf(w, visited) + w.Cases(p)
  {
    assert (visited + [p])[..|visited|] == visited;
    assert forall q :: q in visited + [p] <==> q in visited || q == p;
  }

  lemma FewerLeft(w: World, files: set<Path>, visited: seq<Path>, p: Path)
    requires w.Key(p) in files && w.Key(p) !in KeysOf(w, visited)
    ensures |files - KeysOf(w, visited + [p])| < |files - KeysOf(w, visited)|
  {
    ReadOne(w, visited, p);
    var before, after := files - KeysOf(w, visited), files - KeysOf(w, visited + [p]);
    assert after <= before && w.Key(p) in before - after;
    SubsetSize(after, before);
  }

  /** Depth-first preorder with an explicit stack of paths still to visit: the manifests read, or
      the first path that does not load. */
  ghost function Preorder(w: World, files: set<Path>, stack: seq<Path>, visited: seq<Path>): Result<seq<Path>, Path>
    requires Finite(w, files)
    decreases |files - KeysOf(w, visited)|, |stack|
  {
    if stack == [] then Ok(visited)
    else
      var p := stack[0];
      if w.Key(p) in KeysOf(w, visited) then Preorder(w, files, stack[1..], visited)
      else
        match w.load(p)
        case None => Err(p)
        case Some(d) =>
          FewerLeft(w, files, visited, p);
          Preorder(w, files, d.includes + stack[1..], visited + [p])
  }

  lemma {:induction false} CasesJoin(w: World, a: seq<Path>, b: seq<Path>)
    ensures CasesOf(w, a + b) == CasesOf(w, a) + CasesOf(w, b)
    decreases |b|
  {
    if b == [] {
      assert a + b == a;
    } else {
      hide CasesOf;
      hide KeysOf;
      var init, p := b[..|b| - 1], b[|b| - 1];
      CasesJoin(w, a, init);
      ReadOne(w, a + init, p);
      ReadOne(w, init, p);
      Regroup(a, init, [p]);
      assert b == init + [p];
      Regroup(CasesOf(w, a), CasesOf(w, init), w.Cases(p));
    }
  }

  lemma Regroup<T>(a: seq<T>, b: seq<T>, c: seq<T>)
    ensures a + b + c == a + (b + c)
  {
  }

  /** The cases of a manifest come behind those of the manifests read before it and in front of those
      read after it, in the order it lists them. */
  lemma CasesInOrder(w: World, before: seq<Path>, p: Path, after: seq<Path>, d: Doc)
    requires w.load(p) == Some(d)
    ensures CasesOf(w, before + [p] + after) == CasesOf(w, before) + d.cases + CasesOf(w, after)
    ensures CasesOf(w, []) == []
  {
    CasesJoin(w, before + [p], after);
    ReadOne(w, before, p);
  }

  /** Two paths name one file when they resolve to the same one; a path that cannot be resolved stands
      for itself. */
  lemma SameFileIff(w: World, p: Path, q: Path)
    ensures w.Key(p) == w.Key(q) <==>
              match (w.canonical(p), w.canonical(q))
              case (Some(a), Some(b)) => a == b
              case (Some(a), None) => a == q
              case (None, Some(b)) => p == b
              case (None, None) => p == q
  {
  }

  /** Depth first: what is on top of the stack is done with, down to the last include, before anything
      below it is looked at. */
  lemma {:induction false} PreorderComposes(w: World, files: set<Path>, top: seq<Path>, below: seq<Path>,
                                            visited: seq<Path>)
    requires Finite(w, files)
    ensures var first := Preorder(w, files, top, visited);
      Preorder(w, files, top + below, visited) == if first.Ok? then Preorder(w, files, below, first.value) else first
    decreases |files - KeysOf(w, visited)|, |top|
  {
    if top == [] {
      assert [] + below == below;
    } else {
      var p := top[0];
      assert (top + below)[0] == p && (top + below)[1..] == top[1..] + below;
      if w.Key(p) in KeysOf(w, visited) {
        PreorderComposes(w, files, top[1..], below, visited);
      } else if w.load(p).Some? {
        FewerLeft(w, files, visited, p);
        var includes := w.load(p).value.includes;
        assert includes + (top + below)[1..] == (includes + top[1..]) + below;
        PreorderComposes(w, files, includes + top[1..], below, visited + [p]);
      }
    }
  }

  /** One manifest: nothing when its file has been read, a failure when it does not load, and else the
      manifest itself followed by its includes in order. */
  lemma PreorderOfOne(w: World, files: set<Path>, p: Path, visited: seq<Path>)
    requires Finite(w, files)
    ensures var r := Preorder(w, files, [p], visited);
      if w.Key(p) in KeysOf(w, visited) then r == Ok(visited)
      else if w.load(p) == None then r == Err(p)
      else r == Preorder(w, files, w.load(p).value.includes, visited + [p])
    ensures Preorder(w, files, [], visited) == Ok(visited)
  {
    assert [p][1..] == [];
    if w.load(p).Some? {
      assert w.load(p).value.includes + [] == w.load(p).value.includes;
    }
  }

  // ----- the parser

  /** What visiting `todo` comes to, in terms of the reference: it continues with the rest of the
      stack on success and stops there on failure. */
  ghost predicate Visits(w: World, files: set<Path>, todo: seq<Path>, visited: seq<Path>, r: Result<seq<Path>, Path>)
    requires Finite(w, files)
  {
    forall rest: seq<Path> ::
      Preorder(w, files, todo + rest, visited) ==
      if r.Ok? then Preorder(w, files, rest, r.value) else r
  }

  lemma VisitsNothing(w: World, files: set<Path>, visited: seq<Path>)
    requires Finite(w, files)
    ensures Visits(w, files, [], visited, Ok(visited))
  {
    assert forall rest: seq<Path> :: [] + rest == rest;
  }

  lemma VisitsSeen(w: World, files: set<Path>, p: Path, visited: seq<Path>)
    requires Finite(w, files) && w.Key(p) in KeysOf(w, visited)
    ensures Visits(w, files, [p], visited, Ok(visited))
  {
    forall rest: seq<Path> ensures Preorder(w, files, [p] + rest, visited) == Preorder(w, files, rest, visited) {
      assert ([p] + rest)[1..] == rest;
    }
  }

  lemma VisitsUnreadable(w: World, files: set<Path>, p: Path, visited: seq<Path>)
    requires Finite(w, files) && w.Key(p) !in KeysOf(w, visited) && w.load(p) == None
    ensures Visits(w, files, [p], visited, Err(p))
  {
  }

  lemma VisitsManifest(w: World, files: set<Path>, p: Path, visited: seq<Path>, r: Result<seq<Path>, Path>)
    requires Finite(w, files) && w.Key(p) !in KeysOf(w, visited) && w.load(p).Some?
    requires Visits(w, files, w.Includes(p), visited + [p], r)
    ensures Visits(w, files, [p], visited, r)
  {
    forall rest: seq<Path>
      ensures Preorder(w, files, [p] + rest, visited) == Preorder(w, files, w.Includes(p) + rest, visited + [p])
    {
      assert ([p] + rest)[1..] == rest;
    }
  }

  lemma VisitsThen(w: World, files: set<Path>, todo: seq<Path>, p: Path, visited: seq<Path>, mid: seq<Path>,
                   r: Result<seq<Path>, Path>)
    requires Finite(w, files)
    requires Visits(w, files, todo, visited, Ok(mid)) && Visits(w, files, [p], mid, r)
    ensures Visits(w, files, todo + [p], visited, r)
  {
    forall rest: seq<Path>
      ensures Preorder(w, files, todo + [p] + rest, visited) == Preorder(w, files, [p] + rest, mid)
    {
      assert todo + [p] + rest == todo + ([p] + rest);
    }
  }

  /** A failure in a prefix of the includes is the failure of them all. */
  lemma VisitsStops(w: World, files: set<Path>, todo: seq<Path>, more: seq<Path>, visited: seq<Path>, p: Path)
    requires Finite(w, files) && Visits(w, files, todo, visited, Err(p))
    ensures Visits(w, files, todo + more, visited, Err(p))
  {
    forall rest: seq<Path> ensures Preorder(w, files, todo + more + rest, visited) == Err(p) {
      assert todo + more + rest == todo + (more + rest);
    }
  }

  /** `via` followed by the failing path is a chain of includes starting at `from`. */
  ghost predicate Traced(w: World, from: Path, f: Failure) {
    && w.load(f.at) == None
    && Chain(w, f.via + [f.at]) && (f.via + [f.at])[0] == from
  }

  ghost predicate Chain(w: World, ps: seq<Path>) {
    |ps| > 0 && forall i :: 0 <= i < |ps| - 1 ==> ps[i + 1] in w.Includes(ps[i])
  }

  lemma TracedVia(w: World, p: Path, q: Path, f: Failure)
    requires q in w.Includes(p) && Traced(w, q, f)
    ensures Traced(w, p, Failure(f.at, [p] + f.via))
  {
    var ps := [p] + f.via + [f.at];
    assert ps == [p] + (f.via + [f.at]);
    forall i | 0 <= i < |ps| - 1 ensures ps[i + 1] in w.Includes(ps[i]) {
      if i > 0 {
        assert ps[i + 1] == (f.via + [f.at])[i] && ps[i] == (f.via + [f.at])[i - 1];
      }
    }
  }

  /** Read `path` unless its file has been read already, then whatever it includes, depth first.
      `seen` and `cases` grow as files are read; a failure carries the includes it was reached by. */
  method ParseInto(w: World, ghost files: set<Path>, path: Path, cases: seq<Case>, seen: set<Path>,
                   ghost visited: seq<Path>)
    returns (r: Result<(), Failure>, cases': seq<Case>, seen': set<Path>, ghost visited': seq<Path>)
    requires Finite(w, files) && seen == KeysOf(w, visited) && cases == CasesOf(w, visited)
    ensures r.Ok? ==> seen' == KeysOf(w, visited') && cases' == CasesOf(w, visited')
    ensures r.Ok? ==> seen <= seen' && Visits(w, files, [path], visited, Ok(visited'))
    ensures r.Err? ==> Traced(w, path, r.error) && Visits(w, files, [path], visited, Err(r.error.at))
    decreases |files - KeysOf(w, visited)|
  {
    hide Visits;
    hide Traced;
    hide CasesOf;
    hide KeysOf;
    cases', seen', visited' := cases, seen, visited;
    var key := w.Key(path);
    if key in seen {
      VisitsSeen(w, files, path, visited);
      return Ok(()), cases, seen, visited;
    }
    ReadOne(w, visited, path);
    seen' := seen + {key};
    var doc := w.load(path);
    if doc == None {
      VisitsUnreadable(w, files, path, visited);
      Unreadable(w, path);
      return Err(Failure(path, [])), cases, seen', visited;
    }
    FewerLeft(w, files, visited, path);
    ghost var start := visited + [path];
    cases', visited' := cases + doc.value.cases, start;
    var includes := doc.value.includes;
    VisitsNothing(w, files, start);
    assert includes[..0] == [];
    var i := 0;
    while i < |includes|
      invariant 0 <= i <= |includes| && KeysOf(w, start) <= seen'
      invariant seen' == KeysOf(w, visited') && cases' == CasesOf(w, visited')
      invariant Visits(w, files, includes[..i], start, Ok(visited'))
    {
      assert includes[..i + 1] == includes[..i] + [includes[i]];
      assert includes == includes[..i + 1] + includes[i + 1..];
      SubsetSize(files - KeysOf(w, visited'), files - KeysOf(w, start));
      ghost var mid := visited';
      var step;
      step, cases', seen', visited' := ParseInto(w, files, includes[i], cases', seen', visited');
      if step.Err? {
        VisitsThen(w, files, includes[..i], includes[i], start, mid, Err(step.error.at));
        VisitsStops(w, files, includes[..i + 1], includes[i + 1..], start, step.error.at);
        VisitsManifest(w, files, path, visited, Err(step.error.at));
        TracedVia(w, path, includes[i], step.error);
        return Err(Failure(step.error.at, [path] + step.error.via)), cases', seen', visited';
      }
      VisitsThen(w, files, includes[..i], includes[i], start, mid, Ok(visited'));
      i := i + 1;
    }
    assert includes[..i] == includes;
    VisitsManifest(w, files, path, visited, Ok(visited'));
    r := Ok(());
  }

  lemma Unreadable(w: World, p: Path)
    requires w.load(p) == None
    ensures Traced(w, p, Failure(p, []))
  {
  }

  /** Parse a manifest and everything it includes. */
  method Parse(w: World, ghost files: set<Path>, path: Path)
    returns (r: Result<seq<Case>, Failure>, ghost visited: seq<Path>)
    requires Finite(w, files)
    ensures r.Ok? ==> Preorder(w, files, [path], []) == Ok(visited) && r.value == CasesOf(w, visited)
    ensures r.Err? ==> Preorder(w, files, [path], []) == Err(r.error.at) && Traced(w, path, r.error)
  {
    hide Traced;
    var step, cases, seen;
    assert KeysOf(w, []) == {};
    step, cases, seen, visited := ParseInto(w, files, path, [], {}, []);
    assert [path] + [] == [path];
    r := match step
      case Ok(_) => Ok(cases)
      case Err(f) => Err(f);
  }

  // ----- what is read

  /** Every path on the way is loaded and includes the next. */
  ghost predicate Reachable(w: World, root: Path, p: Path) {
    exists ps: seq<Path> :: Chain(w, ps) && ps[0] == root && ps[|ps| - 1] == p
  }

  ghost predicate Loaded(w: World, visited: seq<Path>) {
    && (forall p :: p in visited ==> w.load(p).Some?)
    && (forall i, j :: 0 <= i < j < |visited| ==> w.Key(visited[i]) != w.Key(visited[j]))
  }

  /** Every include of a manifest read is read or still to be visited. */
  ghost predicate Covered(w: World, visited: seq<Path>, stack: seq<Path>) {
    forall p, q :: p in visited && q in w.Includes(p) ==> w.Key(q) in KeysOf(w, visited) + KeysOf(w, stack)
  }

  ghost predicate AllReachable(w: World, root: Path, ps: seq<Path>) {
    forall p :: p in ps ==> Reachable(w, root, p)
  }

  lemma ReachableNext(w: World, root: Path, p: Path, q: Path)
    requires Reachable(w, root, p) && q in w.Includes(p)
    ensures Reachable(w, root, q)
  {
    var ps: seq<Path> :| Chain(w, ps) && ps[0] == root && ps[|ps| - 1] == p;
    assert Chain(w, ps + [q]) && (ps + [q])[0] == root;
  }

  /** The outcome reads each file at most once, only what is reachable, and leaves no include of
      anything it read unread; a failure is at a reachable path that does not load. */
  ghost predicate Faithful(w: World, root: Path, stack: seq<Path>, visited: seq<Path>, r: Result<seq<Path>, Path>) {
    && (r.Ok? ==> visited <= r.value && Loaded(w, r.value) && Covered(w, r.value, [])
                  && AllReachable(w, root, r.value) && KeysOf(w, stack) <= KeysOf(w, r.value))
    && (r.Err? ==> Reachable(w, root, r.error) && w.load(r.error) == None)
  }

  lemma {:induction false} PreorderIsFaithful(w: World, files: set<Path>, root: Path, stack: seq<Path>,
                                              visited: seq<Path>)
    requires Finite(w, files) && Loaded(w, visited) && Covered(w, visited, stack)
    requires AllReachable(w, root, visited) && AllReachable(w, root, stack)
    ensures Faithful(w, root, stack, visited, Preorder(w, files, stack, visited))
    decreases |files - KeysOf(w, visited)|, |stack|
  {
    hide Loaded;
    hide Covered;
    hide Reachable;
    hide KeysOf;
    if stack == [] {
      NoKeys(w);
    } else if w.Key(stack[0]) in KeysOf(w, visited) {
      SkipStep(w, root, stack, visited);
      PreorderIsFaithful(w, files, root, stack[1..], visited);
      SkipIsFaithful(w, root, stack, visited, Preorder(w, files, stack[1..], visited));
    } else if w.load(stack[0]).Some? {
      var p := stack[0];
      FewerLeft(w, files, visited, p);
      ReadStep(w, root, stack, visited);
      PreorderIsFaithful(w, files, root, w.Includes(p) + stack[1..], visited + [p]);
      ReadIsFaithful(w, root, stack, visited, Preorder(w, files, w.Includes(p) + stack[1..], visited + [p]));
    }
  }

  lemma NoKeys(w: World)
    ensures KeysOf(w, []) == {}
  {
  }

  lemma SkipStep(w: World, root: Path, stack: seq<Path>, visited: seq<Path>)
    requires stack != [] && w.Key(stack[0]) in KeysOf(w, visited)
    requires Covered(w, visited, stack) && AllReachable(w, root, stack)
    ensures Covered(w, visited, stack[1..]) && AllReachable(w, root, stack[1..])
  {
    KeysOfStack(w, stack);
  }

  lemma SkipIsFaithful(w: World, root: Path, stack: seq<Path>, visited: seq<Path>, r: Result<seq<Path>, Path>)
    requires stack != [] && w.Key(stack[0]) in KeysOf(w, visited) && Faithful(w, root, stack[1..], visited, r)
    ensures Faithful(w, root, stack, visited, r)
  {
    hide Loaded;
    hide Covered;
    hide Reachable;
    hide KeysOf;
    KeysOfStack(w, stack);
    if r.Ok? {
      KeysGrow(w, visited, r.value);
    }
  }

  lemma ReadIsFaithful(w: World, root: Path, stack: seq<Path>, visited: seq<Path>, r: Result<seq<Path>, Path>)
    requires stack != [] && Faithful(w, root, w.Includes(stack[0]) + stack[1..], visited + [stack[0]], r)
    ensures Faithful(w, root, stack, visited, r)
  {
    hide Loaded;
    hide Covered;
    hide Reachable;
    hide KeysOf;
    var p := stack[0];
    KeysOfStack(w, stack);
    KeysOfJoin(w, w.Includes(p), stack[1..]);
    ReadOne(w, visited, p);
    if r.Ok? {
      KeysGrow(w, visited + [p], r.value);
      assert visited <= visited + [p];
    }
  }

  lemma KeysOfStack(w: World, stack: seq<Path>)
    requires stack != []
    ensures KeysOf(w, stack) == {w.Key(stack[0])} + KeysOf(w, stack[1..])
  {
    assert stack == [stack[0]] + stack[1..];
    KeysOfJoin(w, [stack[0]], stack[1..]);
  }

  lemma KeysOfJoin(w: World, a: seq<Path>, b: seq<Path>)
    ensures KeysOf(w, a + b) == KeysOf(w, a) + KeysOf(w, b)
  {
    assert forall q :: q in a + b <==> q in a || q in b;
  }

  lemma KeysGrow(w: World, visited: seq<Path>, more: seq<Path>)
    requires visited <= more
    ensures KeysOf(w, visited) <= KeysOf(w, more)
  {
    assert more == visited + more[|visited|..];
    KeysOfJoin(w, visited, more[|visited|..]);
  }

  lemma ReadStep(w: World, root: Path, stack: seq<Path>, visited: seq<Path>)
    requires stack != [] && w.load(stack[0]).Some? && w.Key(stack[0]) !in KeysOf(w, visited)
    requires Loaded(w, visited) && Covered(w, visited, stack)
    requires AllReachable(w, root, visited) && AllReachable(w, root, stack)
    ensures var p := stack[0];
      && Loaded(w, visited + [p]) && Covered(w, visited + [p], w.Includes(p) + stack[1..])
      && AllReachable(w, root, visited + [p]) && AllReachable(w, root, w.Includes(p) + stack[1..])
  {
    var p := stack[0];
    ReadOne(w, visited, p);
    KeysOfStack(w, stack);
    KeysOfJoin(w, w.Includes(p), stack[1..]);
    forall q | q in w.Includes(p) ensures Reachable(w, root, q) {
      ReachableNext(w, root, p, q);
    }
  }

  /** Every reachable spelling of a file read loads, and includes only files that are read. */
  ghost predicate SpellingsCovered(w: World, root: Path, visited: seq<Path>) {
    forall p, q :: Reachable(w, root, p) && q in visited && w.Key(p) == w.Key(q) ==>
      w.load(p).Some? && KeysOf(w, w.Includes(p)) <= KeysOf(w, visited)
  }

  ghost predicate AllRead(w: World, root: Path, visited: seq<Path>) {
    forall p :: Reachable(w, root, p) ==> w.load(p).Some? && w.Key(p) in KeysOf(w, visited)
  }

  /** In any world a successful parse reads every reachable file exactly when no other spelling of a
      file it read leads to one it did not read. */
  lemma ReadsAllIff(w: World, files: set<Path>, root: Path)
    requires Finite(w, files)
    ensures var r := Preorder(w, files, [root], []);
      r.Ok? ==> (AllRead(w, root, r.value) <==> SpellingsCovered(w, root, r.value))
  {
    RootReachable(w, root);
    PreorderIsFaithful(w, files, root, [root], []);
    var r := Preorder(w, files, [root], []);
    if r.Ok? {
      KeysOfStack(w, [root]);
      if SpellingsCovered(w, root, r.value) {
        CoveredIsAll(w, root, r.value);
      }
      if AllRead(w, root, r.value) {
        forall p | Reachable(w, root, p) ensures KeysOf(w, w.Includes(p)) <= KeysOf(w, r.value) {
          forall q | q in w.Includes(p) ensures w.Key(q) in KeysOf(w, r.value) {
            ReachableNext(w, root, p, q);
          }
        }
      }
    }
  }

  lemma CoveredIsAll(w: World, root: Path, visited: seq<Path>)
    requires SpellingsCovered(w, root, visited) && w.Key(root) in KeysOf(w, visited)
    ensures AllRead(w, root, visited)
  {
    forall p | Reachable(w, root, p) ensures w.load(p).Some? && w.Key(p) in KeysOf(w, visited) {
      var ps: seq<Path> :| Chain(w, ps) && ps[0] == root && ps[|ps| - 1] == p;
      ChainRead(w, root, visited, ps);
    }
  }

  lemma {:induction false} ChainRead(w: World, root: Path, visited: seq<Path>, ps: seq<Path>)
    requires SpellingsCovered(w, root, visited) && w.Key(root) in KeysOf(w, visited)
    requires Chain(w, ps) && ps[0] == root
    ensures w.Key(ps[|ps| - 1]) in KeysOf(w, visited) && w.load(ps[|ps| - 1]).Some?
    decreases |ps|
  {
    var n := |ps| - 1;
    if n > 0 {
      ChainRead(w, root, visited, ps[..n]);
      assert Chain(w, ps[..n]) && Reachable(w, root, ps[n - 1]);
      var q :| q in visited && w.Key(q) == w.Key(ps[n - 1]);
      assert ps[n] in w.Includes(ps[n - 1]);
      assert w.Key(ps[n]) in KeysOf(w, w.Includes(ps[n - 1]));
    }
    var q :| q in visited && w.Key(q) == w.Key(ps[n]);
    assert Reachable(w, root, ps[n]);
  }

  lemma RootReachable(w: World, root: Path)
    ensures AllReachable(w, root, [root])
  {
    assert Chain(w, [root]) && [root][0] == root;
  }

  /** Two reachable paths to one file agree on whether it loads and on the files it includes. */
  ghost predicate SpellingFree(w: World, root: Path) {
    forall p, q :: Reachable(w, root, p) && Reachable(w, root, q) && w.Key(p) == w.Key(q) ==>
      && (w.load(p).Some? <==> w.load(q).Some?)
      && KeysOf(w, w.Includes(p)) == KeysOf(w, w.Includes(q))
  }

  /** When the spelling of a reachable path does not matter, a parse succeeds exactly when everything
      reachable loads, and it then reads exactly the reachable files, each once. */
  lemma ReadsTheReachable(w: World, files: set<Path>, root: Path)
    requires Finite(w, files) && SpellingFree(w, root)
    ensures Preorder(w, files, [root], []).Ok? <==> forall p :: Reachable(w, root, p) ==> w.load(p).Some?
    ensures var r := Preorder(w, files, [root], []);
      r.Ok? ==>
        && Loaded(w, r.value)
        && forall k :: k in KeysOf(w, r.value) <==> exists p :: Reachable(w, root, p) && w.Key(p) == k
  {
    RootReachable(w, root);
    PreorderIsFaithful(w, files, root, [root], []);
    var r := Preorder(w, files, [root], []);
    if r.Ok? {
      KeysOfStack(w, [root]);
      FreeIsCovered(w, root, r.value);
      CoveredIsAll(w, root, r.value);
    }
  }

  lemma FreeIsCovered(w: World, root: Path, visited: seq<Path>)
    requires SpellingFree(w, root) && AllReachable(w, root, visited)
    requires Loaded(w, visited) && Covered(w, visited, [])
    ensures SpellingsCovered(w, root, visited)
  {
    NoKeys(w);
    forall q | q in visited ensures KeysOf(w, w.Includes(q)) <= KeysOf(w, visited) {
    }
  }

  // ----- a file under two names

  /** Manifest 1 includes one file under the names 2 and 3; relative to 2 it includes 4, relative
      to 3 it includes 5. */
  function TwoNames(): World {
    World((p: Path) => Some(if p == 3 then 2 else p),
          (p: Path) =>
            if p == 1 then Some(Doc([], [2, 3]))
            else if p == 2 then Some(Doc([], [4]))
            else if p == 3 then Some(Doc([], [5]))
            else if p == 4 || p == 5 then Some(Doc([], []))
            else None)
  }

  /** A parse of it succeeds although the reachable manifest 5 is never read. */
  lemma SecondNameIsLost()
    ensures var w, files := TwoNames(), {1, 2, 4, 5};
      && Finite(w, files) && Preorder(w, files, [1], []) == Ok([1, 2, 4])
      && Reachable(w, 1, 5) && w.load(5).Some? && w.Key(5) !in KeysOf(w, [1, 2, 4])
  {
    var w, files := TwoNames(), {1, 2, 4, 5};
    assert Chain(w, [1, 3, 5]) && [1, 3, 5][0] == 1;
    hide Preorder;
    FirstNameReads(w, files);
  }

  lemma FirstNameReads(w: World, files: set<Path>)
    requires w == TwoNames() && Finite(w, files)
    ensures Preorder(w, files, [1], []) == Ok([1, 2, 4])
  {
    hide Preorder;
    PreorderReads(w, files, 1, [], []);
    assert [1] + [] == [1] && [] + [1] == [1] && [2, 3] + [] == [2] + [3];
    FromSecond(w, files);
  }

  lemma FromSecond(w: World, files: set<Path>)
    requires w == TwoNames() && Finite(w, files)
    ensures Preorder(w, files, [2] + [3], [1]) == Ok([1, 2, 4])
  {
    hide Preorder;
    PreorderReads(w, files, 2, [3], [1]);
    PreorderReads(w, files, 4, [3], [1, 2]);
    assert [1] + [2] == [1, 2] && [1, 2] + [4] == [1, 2, 4] && [] + [3] == [3];
    assert w.Key(2) in KeysOf(w, [1, 2, 4]);
    PreorderSkips(w, files, 3, [1, 2, 4]);
  }

  lemma PreorderSkips(w: World, files: set<Path>, p: Path, visited: seq<Path>)
    requires Finite(w, files) && w.Key(p) in KeysOf(w, visited)
    ensures Preorder(w, files, [p], visited) == Ok(visited)
  {
    assert [p][1..] == [];
  }

  lemma PreorderReads(w: World, files: set<Path>, p: Path, rest: seq<Path>, visited: seq<Path>)
    requires Finite(w, files) && w.load(p).Some? && w.Key(p) !in KeysOf(w, visited)
    ensures Preorder(w, files, [p] + rest, visited) == Preorder(w, files, w.Includes(p) + rest, visited + [p])
  {
    assert ([p] + rest)[1..] == rest;
  }
}
