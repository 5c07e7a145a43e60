/** Concurrent build scripts sharing one GraphBLAS install: a flock, a completion marker, a retry
    loop, and crashes at any point.  Each action below is one atomic touch of shared state. */
module BuildLock {
  import opened Wrappers

  type Pid = nat

  datatype LockStep = Build | UseInstall | Wait | Fail

  /** One iteration's decision. */
  function Decide(markerExists: bool, lockAcquired: bool, timedOut: bool): LockStep {
    if lockAcquired then (if markerExists then UseInstall else Build)
    else if markerExists then UseInstall
    else if timedOut then Fail
    else Wait
  }

  /** Where a script stands.  `acquired` is what its last lock attempt returned. */
  datatype PC =
    | Start                                      // before the first marker check
    | Trying                                     // at the top of the retry loop
    | Tried(acquired: bool)                      // lock attempted, deadline not yet read
    | Deciding(acquired: bool, timedOut: bool)   // about to read the marker and decide
    | Releasing                                  // uses the install but still holds the lock
    | Preparing                                  // decided to build
    | Compiling                                  // cmake is writing the install
    | Marking                                    // cmake is done, marker not yet written
    | Unlocking                                  // marker written, lock still held
    | Left                                       // left the loop normally
    | Dead                                       // crashed, panicked or gave up

  datatype Install = Absent | Partial | Finished

  datatype State = State(marker: bool, install: Install, holder: Option<Pid>, pcs: map<Pid, PC>, marks: nat)

  datatype Action =
    | Arrive | CheckMarker | TryLock | ReadClock(late: bool) | Resolve
    | BeginBuild | FinishBuild | WriteMarker | Unlock | Crash

  /** The lock a process holds goes when the process does. */
  function Released(holder: Option<Pid>, p: Pid): Option<Pid> {
    if holder == Some(p) then None else holder
  }

  function Goto(s: State, p: Pid, pc: PC): State {
    s.(pcs := s.pcs[p := pc])
  }

  /** The state after process `p` performs `a`; None when `p` is not at a point where it can. */
  function Act(s: State, p: Pid, a: Action): Option<State> {
    if a == Arrive then
      if p in s.pcs then None else Some(Goto(s, p, Start))
    else if p !in s.pcs then None
    else
      match (s.pcs[p], a)
      case (Left, _) => None
      case (Dead, _) => None
      case (_, Crash) => Some(Goto(s, p, Dead).(holder := Released(s.holder, p)))
      case (Start, CheckMarker) => Some(Goto(s, p, if s.marker then Left else Trying))
      case (Trying, TryLock) =>
        if s.holder == None then Some(Goto(s, p, Tried(true)).(holder := Some(p))) else Some(Goto(s, p, Tried(false)))
      case (Tried(acquired), ReadClock(late)) => Some(Goto(s, p, Deciding(acquired, late)))
      case (Deciding(acquired, timedOut), Resolve) =>
        Some(Goto(s, p,
                  match Decide(s.marker, acquired, timedOut)
                  case UseInstall => if acquired then Releasing else Left
                  case Build => Preparing
                  case Wait => Trying
                  case Fail => Dead))
      case (Preparing, BeginBuild) => Some(Goto(s, p, Compiling).(install := Partial))
      case (Compiling, FinishBuild) => Some(Goto(s, p, Marking).(install := Finished))
      case (Marking, WriteMarker) => Some(Goto(s, p, Unlocking).(marker := true, marks := s.marks + 1))
      case (Unlocking, Unlock) => Some(Goto(s, p, Left).(holder := Released(s.holder, p)))
      case (Releasing, Unlock) => Some(Goto(s, p, Left).(holder := Released(s.holder, p)))
      case _ => None
  }

  /** No script is running yet.  Earlier crashed builds may have left any install behind, and an
      earlier finished one (counted as the one marker write) a marker beside it. */
  ghost predicate Init(s: State) {
    s.holder == None && s.pcs == map[] && (s.marker ==> s.install == Finished) && s.marks == if s.marker then 1 else 0
  }

  predicate HoldsLock(pc: PC) {
    match pc
    case Tried(acquired) => acquired
    case Deciding(acquired, _) => acquired
    case _ => pc.Releasing? || Building(pc) || pc.Unlocking?
  }

  /** From the decision to build until the marker is written. */
  predicate Building(pc: PC) {
    pc.Preparing? || pc.Compiling? || pc.Marking?
  }

  /** The lock is held exactly by the process that believes it holds it. */
  ghost predicate LockAgrees(s: State) {
    && (forall p :: p in s.pcs ==> (HoldsLock(s.pcs[p]) <==> s.holder == Some(p)))
    && (s.holder.Some? ==> s.holder.value in s.pcs)
  }

  /** What each program point knows about the marker and the install. */
  ghost predicate PointAgrees(s: State, pc: PC) {
    && (Building(pc) ==> !s.marker)
    && (pc.Compiling? ==> s.install == Partial)
    && (pc.Marking? ==> s.install == Finished)
    && (pc.Left? || pc.Releasing? || pc.Unlocking? ==> s.marker)
  }

  ghost predicate Safe(s: State) {
    && LockAgrees(s)
    && (forall p :: p in s.pcs ==> PointAgrees(s, s.pcs[p]))
    && (s.marker ==> s.install == Finished)
    && s.marks == if s.marker then 1 else 0
  }

  lemma ActKeepsLock(s: State, p: Pid, a: Action)
    requires LockAgrees(s) && Act(s, p, a).Some?
    ensures LockAgrees(Act(s, p, a).value)
  {
    ActMovesOne(s, p, a);
    hide Act;
    hide HoldsLock;
  }

  /** A step moves one process, and the lock follows what that process then believes. */
  lemma ActMovesOne(s: State, p: Pid, a: Action)
    requires LockAgrees(s) && Act(s, p, a).Some?
    ensures var s' := Act(s, p, a).value;
      && p in s'.pcs && s'.pcs == s.pcs[p := s'.pcs[p]]
      && s'.holder == (if HoldsLock(s'.pcs[p]) then Some(p) else Released(s.holder, p))
      && (HoldsLock(s'.pcs[p]) ==> s.holder == None || s.holder == Some(p))
  {
  }

  /** Only the lock holder moves the marker or the install, so no other point's knowledge goes stale. */
  lemma ActKeepsPoints(s: State, p: Pid, a: Action)
    requires Safe(s) && Act(s, p, a).Some?
    ensures var s' := Act(s, p, a).value;
      && (forall q :: q in s'.pcs ==> PointAgrees(s', s'.pcs[q]))
      && (s'.marker ==> s'.install == Finished)
      && s'.marks == if s'.marker then 1 else 0
  {
    var s' := Act(s, p, a).value;
    if s'.marker == s.marker && s'.install == s.install {
      forall q | q in s'.pcs ensures PointAgrees(s', s'.pcs[q]) {
        if q != p {
          assert PointAgrees(s, s.pcs[q]);
        } else if q in s.pcs {
          assert PointAgrees(s, s.pcs[q]);
        }
      }
    } else {
      assert p in s.pcs && Building(s.pcs[p]) && PointAgrees(s, s.pcs[p]);
      forall q | q in s'.pcs ensures PointAgrees(s', s'.pcs[q]) {
        if q != p {
          assert PointAgrees(s, s.pcs[q]);
          assert !HoldsLock(s.pcs[q]);
        }
      }
    }
  }

  lemma MarkerBlocksBuilds(s: State, p: Pid, a: Action)
    requires Safe(s) && Act(s, p, a).Some? && s.marker
    ensures Act(s, p, a).value.marker && Act(s, p, a).value.install == s.install
    ensures !(a.BeginBuild? || a.FinishBuild? || a.WriteMarker?)
  {
    assert p in s.pcs ==> PointAgrees(s, s.pcs[p]);
  }

  lemma ActKeepsSafe(s: State, p: Pid, a: Action)
    requires Safe(s) && Act(s, p, a).Some?
    ensures Safe(Act(s, p, a).value)
  {
    hide Act;
    ActKeepsLock(s, p, a);
    ActKeepsPoints(s, p, a);
  }

  /** An interleaving: states joined by actions of arbitrary processes in arbitrary order. */
  ghost predicate Interleaving(states: seq<State>, moves: seq<(Pid, Action)>) {
    && |states| == |moves| + 1 && Init(states[0])
    && forall i :: 0 <= i < |moves| ==> Act(states[i], moves[i].0, moves[i].1) == Some(states[i + 1])
  }

  lemma {:induction false} InterleavingIsSafe(states: seq<State>, moves: seq<(Pid, Action)>, i: nat)
    requires Interleaving(states, moves) && i < |states|
    ensures Safe(states[i])
    decreases i
  {
    if i > 0 {
      InterleavingIsSafe(states, moves, i - 1);
      assert Act(states[i - 1], moves[i - 1].0, moves[i - 1].1) == Some(states[i]);
      ActKeepsSafe(states[i - 1], moves[i - 1].0, moves[i - 1].1);
    }
  }

  /** At every moment of every interleaving: one builder at most, the marker is written at most
      once, and whoever left the loop normally finds a finished install. */
  lemma BuildsAreExclusive(states: seq<State>, moves: seq<(Pid, Action)>, i: nat)
    requires Interleaving(states, moves) && i < |states|
    ensures var s := states[i];
      && (forall p, q :: p in s.pcs && q in s.pcs && Building(s.pcs[p]) && Building(s.pcs[q]) ==> p == q)
      && (forall p :: p in s.pcs && s.pcs[p].Left? ==> s.marker && s.install == Finished)
      && (forall p :: p in s.pcs && s.pcs[p].Compiling? ==> !s.marker && s.install == Partial)
      && s.marks <= 1
  {
    InterleavingIsSafe(states, moves, i);
    var s := states[i];
    assert forall p :: p in s.pcs && Building(s.pcs[p]) ==> HoldsLock(s.pcs[p]);
    assert forall p :: p in s.pcs ==> PointAgrees(s, s.pcs[p]);
  }

  /** Once the marker exists it stays, the install stays finished, and no build starts or touches it. */
  lemma {:induction false} MarkerIsFinal(states: seq<State>, moves: seq<(Pid, Action)>, i: nat, j: nat)
    requires Interleaving(states, moves) && i <= j < |states| && states[i].marker
    ensures states[j].marker && states[j].install == Finished
    ensures j < |moves| ==> !(moves[j].1.BeginBuild? || moves[j].1.FinishBuild? || moves[j].1.WriteMarker?)
    decreases j
  {
    hide Act;
    InterleavingIsSafe(states, moves, j);
    if i < j {
      MarkerIsFinal(states, moves, i, j - 1);
      InterleavingIsSafe(states, moves, j - 1);
      assert Act(states[j - 1], moves[j - 1].0, moves[j - 1].1) == Some(states[j]);
      MarkerBlocksBuilds(states[j - 1], moves[j - 1].0, moves[j - 1].1);
    }
    if j < |moves| {
      assert Act(states[j], moves[j].0, moves[j].1) == Some(states[j + 1]);
      MarkerBlocksBuilds(states[j], moves[j].0, moves[j].1);
    }
  }

  /** One uninterrupted build by a script at the top of its retry loop. */
  function Takeover(late: bool): seq<Action> {
    [TryLock, ReadClock(late), Resolve, BeginBuild, FinishBuild, WriteMarker, Unlock]
  }

  /** A dead builder's work is taken over: from any reachable state without a marker in which no
      live process holds the lock, a polling script, however late, can complete the build itself. */
  lemma LockIsReclaimed(states: seq<State>, moves: seq<(Pid, Action)>, i: nat, p: Pid,
                        late: bool) returns (later: seq<State>)
    requires Interleaving(states, moves) && i < |states|
    requires var s := states[i]; !s.marker && p in s.pcs && s.pcs[p] == Trying
    requires forall q :: q in states[i].pcs ==> !HoldsLock(states[i].pcs[q])
    ensures |later| == 8 && later[0] == states[i]
    ensures forall k :: 0 <= k < 7 ==> Act(later[k], p, Takeover(late)[k]) == Some(later[k + 1])
    ensures p in later[7].pcs && later[7].pcs[p] == Left && later[7].holder == None
    ensures later[7].marker && later[7].install == Finished
  {
    InterleavingIsSafe(states, moves, i);
    var s := states[i];
    assert s.holder == None;
    var s1, s2, s3 := DecidesToBuild(s, p, late);
    var s4, s5, s6, s7 := CompletesBuild(s3, p);
    hide Act;
    later := [s, s1, s2, s3, s4, s5, s6, s7];
  }

  lemma DecidesToBuild(s: State, p: Pid, late: bool) returns (s1: State, s2: State, s3: State)
    requires !s.marker && s.holder == None && p in s.pcs && s.pcs[p] == Trying
    ensures Act(s, p, TryLock) == Some(s1) && Act(s1, p, ReadClock(late)) == Some(s2) && Act(s2, p, Resolve) == Some(s3)
    ensures !s3.marker && s3.holder == Some(p) && p in s3.pcs && s3.pcs[p] == Preparing
  {
    s1 := Goto(s, p, Tried(true)).(holder := Some(p));
    s2 := Goto(s1, p, Deciding(true, late));
    s3 := Goto(s2, p, Preparing);
  }

  lemma CompletesBuild(s3: State, p: Pid) returns (s4: State, s5: State, s6: State, s7: State)
    requires s3.holder == Some(p) && p in s3.pcs && s3.pcs[p] == Preparing
    ensures Act(s3, p, BeginBuild) == Some(s4) && Act(s4, p, FinishBuild) == Some(s5)
    ensures Act(s5, p, WriteMarker) == Some(s6) && Act(s6, p, Unlock) == Some(s7)
    ensures p in s7.pcs && s7.pcs[p] == Left && s7.holder == None && s7.marker && s7.install == Finished
  {
    s4 := Goto(s3, p, Compiling).(install := Partial);
    s5 := Goto(s4, p, Marking).(install := Finished);
    s6 := Goto(s5, p, Unlocking).(marker := true, marks := s5.marks + 1);
    s7 := Goto(s6, p, Left).(holder := None);
  }

  /** Until the marker is written a held lock changes hands in one way only: its holder crashes.  In
      particular a crash of anyone else, or a refused attempt, leaves it where it is. */
  lemma OnlyCrashFrees(states: seq<State>, moves: seq<(Pid, Action)>, k: nat)
    requires Interleaving(states, moves) && k < |moves| && states[k].holder.Some? && !states[k + 1].marker
    ensures states[k + 1].holder ==
              if moves[k] == (states[k].holder.value, Crash) then None else states[k].holder
  {
    InterleavingIsSafe(states, moves, k);
    var s, p, a := states[k], moves[k].0, moves[k].1;
    assert Act(s, p, a) == Some(states[k + 1]);
    assert p in s.pcs ==> PointAgrees(s, s.pcs[p]);
  }

  /** At move `k` the process holding the lock crashed. */
  ghost predicate HolderCrashed(states: seq<State>, moves: seq<(Pid, Action)>, k: nat) {
    k < |moves| && k < |states| && states[k].holder.Some? && moves[k] == (states[k].holder.value, Crash)
  }

  /** At move `k` some process took the free lock. */
  ghost predicate Acquired(states: seq<State>, moves: seq<(Pid, Action)>, k: nat) {
    k < |moves| && k < |states| && states[k].holder == None && moves[k].1 == TryLock
  }

  /** Between `j` and `i` a holder crashed and nobody has taken the lock since. */
  ghost predicate LeftFree(states: seq<State>, moves: seq<(Pid, Action)>, j: nat, i: nat) {
    exists k: nat :: j <= k < i && HolderCrashed(states, moves, k)
                     && forall m: nat :: k < m < i ==> !Acquired(states, moves, m)
  }

  /** Without a marker, a lock once held is free later exactly when a holder has crashed in between
      and nobody has taken it since. */
  lemma {:induction false} FreeIffHolderCrashed(states: seq<State>, moves: seq<(Pid, Action)>, j: nat, i: nat)
    requires Interleaving(states, moves) && j <= i < |states|
    requires states[j].holder.Some? && !states[i].marker
    ensures states[i].holder == None <==> LeftFree(states, moves, j, i)
    decreases i
  {
    if j < i {
      var n := i - 1;
      if states[n].marker {
        MarkerIsFinal(states, moves, n, i);
      }
      FreeIffHolderCrashed(states, moves, j, n);
      FreeNext(states, moves, j, n);
    }
  }

  lemma FreeNext(states: seq<State>, moves: seq<(Pid, Action)>, j: nat, n: nat)
    requires Interleaving(states, moves) && j <= n < |moves| && !states[n + 1].marker
    requires states[n].holder == None <==> LeftFree(states, moves, j, n)
    ensures states[n + 1].holder == None <==> LeftFree(states, moves, j, n + 1)
  {
    hide Act;
    if states[n].holder.Some? {
      OnlyCrashFrees(states, moves, n);
      if HolderCrashed(states, moves, n) {
        assert LeftFree(states, moves, j, n + 1);
      }
    } else {
      FreeStaysFree(states, moves, n);
      var k: nat :| j <= k < n && HolderCrashed(states, moves, k)
                    && forall m: nat :: k < m < n ==> !Acquired(states, moves, m);
      if !Acquired(states, moves, n) {
        assert LeftFree(states, moves, j, n + 1);
      }
    }
  }

  /** A free lock is taken by a lock attempt and by nothing else. */
  lemma FreeStaysFree(states: seq<State>, moves: seq<(Pid, Action)>, k: nat)
    requires Interleaving(states, moves) && k < |moves| && states[k].holder == None
    ensures states[k + 1].holder.Some? <==> Acquired(states, moves, k)
  {
    assert Act(states[k], moves[k].0, moves[k].1) == Some(states[k + 1]);
  }

  /** At move `j` the script tried for the lock while another process held it. */
  ghost predicate Refused(states: seq<State>, moves: seq<(Pid, Action)>, p: Pid, j: nat) {
    j < |moves| && j < |states| && moves[j] == (p, TryLock) && states[j].holder.Some? && states[j].holder != Some(p)
  }

  ghost predicate LastTry(moves: seq<(Pid, Action)>, p: Pid, j: nat, i: nat) {
    i <= |moves| && forall k :: j < k < i ==> moves[k] != (p, TryLock)
  }

  /** A script that decides, and so may give up, without the lock was refused it at its last
      attempt because another process held it then. */
  lemma {:induction false} FailureFollowsRefusal(states: seq<State>, moves: seq<(Pid, Action)>, i: nat, p: Pid)
    requires Interleaving(states, moves) && i < |states| && p in states[i].pcs
    requires states[i].pcs[p] == Tried(false) || (states[i].pcs[p].Deciding? && !states[i].pcs[p].acquired)
    ensures exists j: nat :: j < i && Refused(states, moves, p, j) && LastTry(moves, p, j, i)
    decreases i
  {
    assert i > 0;
    var s := states[i - 1];
    var (q, a) := moves[i - 1];
    assert Act(s, q, a) == Some(states[i]);
    InterleavingIsSafe(states, moves, i - 1);
    if q == p && s.pcs[p] == Trying {
      assert Refused(states, moves, p, i - 1) && LastTry(moves, p, i - 1, i);
    } else {
      FailureFollowsRefusal(states, moves, i - 1, p);
      var j: nat :| j < i - 1 && Refused(states, moves, p, j) && LastTry(moves, p, j, i - 1);
      assert moves[i - 1] != (p, TryLock);
      assert LastTry(moves, p, j, i);
    }
  }

  /** A decision taken without the lock and past the deadline. */
  ghost predicate DecidesLate(states: seq<State>, moves: seq<(Pid, Action)>, i: nat, p: Pid) {
    && i < |moves| && i < |states| && moves[i] == (p, Resolve)
    && p in states[i].pcs && states[i].pcs[p] == Deciding(false, true)
  }

  /** A script past its deadline gives up exactly when there is no marker.  It then faces another
      process holding the lock unless, since the refusal at its last attempt, a holder has crashed
      and nobody has taken the lock again: that, and only that, makes giving up needless. */
  lemma GivesUpOnHolderIff(states: seq<State>, moves: seq<(Pid, Action)>, i: nat, p: Pid) returns (j: nat)
    requires Interleaving(states, moves) && DecidesLate(states, moves, i, p)
    ensures j < i && Refused(states, moves, p, j) && LastTry(moves, p, j, i)
    ensures p in states[i + 1].pcs
    ensures states[i + 1].pcs[p] == Dead <==> !states[i].marker
    ensures states[i + 1].pcs[p] == Dead ==>
              ((exists q :: q != p && states[i].holder == Some(q)) <==> !LeftFree(states, moves, j, i))
  {
    FailureFollowsRefusal(states, moves, i, p);
    j :| j < i && Refused(states, moves, p, j) && LastTry(moves, p, j, i);
    assert Act(states[i], p, Resolve) == Some(states[i + 1]);
    InterleavingIsSafe(states, moves, i);
    if !states[i].marker {
      FreeIffHolderCrashed(states, moves, j, i);
      if states[i].holder.Some? {
        assert states[i].holder.value != p;
      }
    }
  }

  /** `p`'s last move before `i` is move `j`. */
  ghost predicate LastMove(moves: seq<(Pid, Action)>, p: Pid, j: nat, i: nat) {
    j < i <= |moves| && moves[j].0 == p && forall k :: j < k < i ==> moves[k].0 != p
  }

  lemma {:induction false} ClockWasRead(states: seq<State>, moves: seq<(Pid, Action)>, i: nat, p: Pid) returns (c: nat)
    requires Interleaving(states, moves) && i < |states| && p in states[i].pcs && states[i].pcs[p].Deciding?
    ensures LastMove(moves, p, c, i) && moves[c].1 == ReadClock(states[i].pcs[p].timedOut)
    decreases i
  {
    assert i > 0;
    var s, q, a := states[i - 1], moves[i - 1].0, moves[i - 1].1;
    assert Act(s, q, a) == Some(states[i]);
    InterleavingIsSafe(states, moves, i - 1);
    if q == p {
      c := i - 1;
    } else {
      ActMovesOne(s, q, a);
      c := ClockWasRead(states, moves, i - 1, p);
    }
  }

  /** What a script does at a decision: the lock is the one it holds at that moment, and the time the
      one it read in its move before. */
  lemma DecisionOutcome(states: seq<State>, moves: seq<(Pid, Action)>, i: nat, p: Pid, late: bool) returns (c: nat)
    requires Interleaving(states, moves) && i < |moves| && moves[i] == (p, Resolve)
    requires forall j: nat :: LastMove(moves, p, j, i) ==> moves[j].1 == ReadClock(late)
    ensures LastMove(moves, p, c, i) && moves[c].1 == ReadClock(late)
    ensures p in states[i + 1].pcs
    ensures var locked, marker, next := states[i].holder == Some(p), states[i].marker, states[i + 1].pcs[p];
      && (next == Preparing <==> locked && !marker)
      && (next == Releasing <==> locked && marker)
      && (next == Left <==> !locked && marker)
      && (next == Dead <==> !locked && !marker && late)
      && (next == Trying <==> !locked && !marker && !late)
  {
    InterleavingIsSafe(states, moves, i);
    assert Act(states[i], p, Resolve) == Some(states[i + 1]);
    c := ClockWasRead(states, moves, i, p);
  }

  /** What a script does on its first look at the marker, before there is any lock file. */
  lemma FirstLook(states: seq<State>, moves: seq<(Pid, Action)>, i: nat, p: Pid)
    requires Interleaving(states, moves) && i < |moves| && moves[i] == (p, CheckMarker)
    ensures p in states[i + 1].pcs
    ensures states[i + 1].pcs[p] == Left <==> states[i].marker
    ensures states[i + 1].pcs[p] == Trying <==> !states[i].marker
  {
    assert Act(states[i], p, CheckMarker) == Some(states[i + 1]);
  }

  /** Consecutive states, from anywhere. */
  ghost predicate Stretch(states: seq<State>, moves: seq<(Pid, Action)>) {
    && |states| == |moves| + 1
    && forall i :: 0 <= i < |moves| ==> Act(states[i], moves[i].0, moves[i].1) == Some(states[i + 1])
  }

  /** A script that has not left the loop can always go on without crashing, and can crash at any point,
      which takes nothing but its lock.  One that is through with the marker leaves at its next step,
      with the lock given back. */
  lemma NeverStuck(states: seq<State>, moves: seq<(Pid, Action)>, i: nat, p: Pid)
    requires Interleaving(states, moves) && i < |states| && p in states[i].pcs
    ensures var s := states[i];
      && ((exists a :: a != Crash && Act(s, p, a).Some?) <==> !s.pcs[p].Left? && !s.pcs[p].Dead?)
      && (Act(s, p, Crash) == Some(s.(pcs := s.pcs[p := Dead],
                                      holder := if s.holder == Some(p) then None else s.holder)) <==>
            !s.pcs[p].Left? && !s.pcs[p].Dead?)
      && (s.pcs[p].Releasing? || s.pcs[p].Unlocking? ==>
            var t := Act(s, p, Unlock);
            s.holder == Some(p) && t == Some(s.(pcs := s.pcs[p := Left], holder := None)))
  {
    InterleavingIsSafe(states, moves, i);
    var s := states[i];
    var a := match s.pcs[p]
      case Start => CheckMarker
      case Trying => TryLock
      case Tried(_) => ReadClock(false)
      case Deciding(_, _) => Resolve
      case Preparing => BeginBuild
      case Compiling => FinishBuild
      case Marking => WriteMarker
      case _ => Unlock;
    if !s.pcs[p].Left? && !s.pcs[p].Dead? {
      assert Act(s, p, a).Some?;
    }
  }

  lemma StretchOn(a: seq<State>, m: seq<(Pid, Action)>, b: seq<State>, n: seq<(Pid, Action)>)
    requires Stretch(a, m) && Stretch(b, n) && a[|m|] == b[0]
    ensures Stretch(a + b[1..], m + n)
    ensures forall k :: 0 <= k < |b| ==> (a + b[1..])[|m| + k] == b[k]
  {
    hide Act;
    var states, moves := a + b[1..], m + n;
    forall i | 0 <= i < |moves| ensures Act(states[i], moves[i].0, moves[i].1) == Some(states[i + 1]) {
      if i >= |m| {
        assert moves[i] == n[i - |m|] && states[i] == b[i - |m|];
      }
    }
  }

  /** Two scripts arrive and reach the top of the retry loop. */
  lemma BothPolling(s0: State) returns (states: seq<State>)
    requires !s0.marker && s0.holder == None && s0.pcs == map[]
    ensures |states| == 5 && states[0] == s0
    ensures Stretch(states, [(1, Arrive), (2, Arrive), (1, CheckMarker), (2, CheckMarker)])
    ensures var s4 := states[4];
      !s4.marker && s4.holder == None && 1 in s4.pcs && 2 in s4.pcs && s4.pcs[1] == Trying && s4.pcs[2] == Trying
  {
    var s1 := Goto(s0, 1, Start);
    var s2 := Goto(s1, 2, Start);
    var s3 := Goto(s2, 1, Trying);
    var s4 := Goto(s3, 2, Trying);
    assert Act(s0, 1, Arrive) == Some(s1) && Act(s1, 2, Arrive) == Some(s2);
    assert Act(s2, 1, CheckMarker) == Some(s3) && Act(s3, 2, CheckMarker) == Some(s4);
    hide Act;
    states := [s0, s1, s2, s3, s4];
  }

  /** One takes the lock and the other is refused. */
  lemma OneIsRefused(s4: State) returns (states: seq<State>)
    requires !s4.marker && s4.holder == None
    requires 1 in s4.pcs && 2 in s4.pcs && s4.pcs[1] == Trying && s4.pcs[2] == Trying
    ensures |states| == 3 && states[0] == s4 && Stretch(states, [(1, TryLock), (2, TryLock)])
    ensures var s6 := states[2];
      !s6.marker && s6.holder == Some(1) && 1 in s6.pcs && 2 in s6.pcs
      && s6.pcs[1] == Tried(true) && s6.pcs[2] == Tried(false)
  {
    var s5 := Goto(s4, 1, Tried(true)).(holder := Some(1));
    var s6 := Goto(s5, 2, Tried(false));
    assert Act(s4, 1, TryLock) == Some(s5) && Act(s5, 2, TryLock) == Some(s6);
    hide Act;
    states := [s4, s5, s6];
  }

  /** The holder dies between the other's look at the clock and its decision. */
  lemma HolderDies(s6: State) returns (states: seq<State>)
    requires !s6.marker && s6.holder == Some(1) && 1 in s6.pcs && 2 in s6.pcs
    requires s6.pcs[1] == Tried(true) && s6.pcs[2] == Tried(false)
    ensures |states| == 4 && states[0] == s6 && Stretch(states, [(2, ReadClock(true)), (1, Crash), (2, Resolve)])
    ensures !states[2].marker && states[2].holder == None && 2 in states[3].pcs && states[3].pcs[2] == Dead
  {
    var s7 := Goto(s6, 2, Deciding(false, true));
    var s8 := Goto(s7, 1, Dead).(holder := None);
    var s9 := Goto(s8, 2, Dead);
    assert Act(s6, 2, ReadClock(true)) == Some(s7) && Act(s7, 1, Crash) == Some(s8);
    assert Act(s8, 2, Resolve) == Some(s9);
    hide Act;
    states := [s6, s7, s8, s9];
  }

  /** The holder need not still be there when the script gives up: the attempt, the deadline and
      the decision are separate steps, and the holder may die in between. */
  lemma GivingUpCanBeStale() returns (states: seq<State>, moves: seq<(Pid, Action)>)
    ensures Interleaving(states, moves)
    ensures var n := |moves|;
      n >= 1 && moves[n - 1] == (2, Resolve) && 2 in states[n].pcs && states[n].pcs[2] == Dead
      && states[n - 1].holder == None && !states[n - 1].marker
  {
    hide Act;
    hide Stretch;
    var a := BothPolling(State(false, Absent, None, map[], 0));
    var b := OneIsRefused(a[4]);
    var c := HolderDies(b[2]);
    var m := [(1, Arrive), (2, Arrive), (1, CheckMarker), (2, CheckMarker)];
    var n := [(1, TryLock), (2, TryLock)];
    var l := [(2, ReadClock(true)), (1, Crash), (2, Resolve)];
    StretchOn(b, n, c, l);
    StretchOn(a, m, b + c[1..], n + l);
    states, moves := a + (b + c[1..])[1..], m + (n + l);
    StretchIsInterleaving(states, moves);
    assert moves[|moves| - 1] == l[2];
  }

  lemma StretchIsInterleaving(states: seq<State>, moves: seq<(Pid, Action)>)
    requires Stretch(states, moves) && Init(states[0])
    ensures Interleaving(states, moves)
  {
  }
}
