/**
 Who may sweep, and when: the in-process `RUNNING` list behind `Sweep::claim`, and the `.last-sweep`
 marker that processes share. The list is a class; the marker is a protocol over any number of
 processes, which may crash between any two steps and whose clock may be set.
 */
module SweepClaim {
  import opened Bytes

  type Path = string

  /** Seconds. */
  const SWEEP_INTERVAL: int := 24 * 3600
  const RETRY_INTERVAL: int := 3600

  // ----- the running list -----

  predicate NoDuplicates(s: seq<Path>) {
    forall i, j :: 0 <= i < j < |s| ==> s[i] != s[j]
  }

  function Roots(s: seq<Path>): set<Path> {
    set r | r in s
  }

  /** `Vec::swap_remove`: the last element takes the removed one's place. */
  function SwapRemove(s: seq<Path>, i: nat): seq<Path>
    requires i < |s|
  {
    s[i := s[|s| - 1]][..|s| - 1]
  }

  function PositionOf(s: seq<Path>, root: Path): (i: Option<nat>)
    ensures i.Some? ==> i.value < |s| && s[i.value] == root
    ensures i.None? <==> root !in s
    decreases |s|
  {
    if s == [] then None
    else if s[0] == root then Some(0)
    else match PositionOf(s[1..], root) case Some(i) => Some(i + 1) case None => None
  }

  /** The list after a claim that succeeds, and after a claim is dropped. */
  function AfterClaim(s: seq<Path>, root: Path): seq<Path> {
    if root in s then s else s + [root]
  }

  function AfterDrop(s: seq<Path>, root: Path): seq<Path> {
    match PositionOf(s, root)
    case Some(i) => SwapRemove(s, i)
    case None => s
  }

  lemma DropRemovesOne(s: seq<Path>, root: Path)
    requires NoDuplicates(s)
    ensures NoDuplicates(AfterDrop(s, root)) && Roots(AfterDrop(s, root)) == Roots(s) - {root}
  {
    var i := PositionOf(s, root);
    if i.Some? {
      var t := SwapRemove(s, i.value);
      forall j, k | 0 <= j < k < |t| ensures t[j] != t[k] {
        assert t[j] == s[if j == i.value then |s| - 1 else j];
        assert t[k] == s[if k == i.value then |s| - 1 else k];
      }
      forall r | r in s && r != root ensures r in t {
        var j :| 0 <= j < |s| && s[j] == r;
        if j == |s| - 1 { assert t[i.value] == r; } else { assert t[j] == r; }
      }
      forall r | r in t ensures r in s && r != root {
        var j :| 0 <= j < |t| && t[j] == r;
        assert t[j] == s[if j == i.value then |s| - 1 else j];
      }
    }
  }

  lemma ClaimAddsOne(s: seq<Path>, root: Path)
    requires NoDuplicates(s)
    ensures NoDuplicates(AfterClaim(s, root)) && Roots(AfterClaim(s, root)) == Roots(s) + {root}
  {
  }

  /** The process-wide list, each method under its lock. */
  class Running {
    var list: seq<Path>

    constructor ()
      ensures list == []
    {
      list := [];
    }

    /** `Sweep::claim`: the right to sweep `root`, unless this process already holds it. */
    method Claim(root: Path) returns (claimed: bool)
      requires NoDuplicates(list)
      modifies this
      ensures claimed <==> root !in Roots(old(list))
      ensures list == AfterClaim(old(list), root)
      ensures NoDuplicates(list) && Roots(list) == Roots(old(list)) + {root}
    {
      ClaimAddsOne(list, root);
      if root in list { return false; }
      list := list + [root];
      return true;
    }

    /** `Drop for Sweep`. */
    method Drop(root: Path)
      requires NoDuplicates(list)
      modifies this
      ensures list == AfterDrop(old(list), root)
      ensures NoDuplicates(list) && Roots(list) == Roots(old(list)) - {root}
    {
      DropRemovesOne(list, root);
      var i := PositionOf(list, root);
      if i.Some? { list := SwapRemove(list, i.value); }
    }
  }

  // ----- the protocol -----

  /** What the marker file holds: nothing yet, `s` for started, or `d` for done. */
  datatype Mark = Truncated | Started | Done

  datatype Marker = Marker(mark: Mark, modified: int)

  /**
   Where a sweep is. Writing the marker is two steps, a truncating open and a write through the
   file it opened; either may fail, and a failure is ignored.
   */
  datatype Phase = Claimed | Opened | Walking | Passed | Reopened | Finished

  datatype Sweep = Sweep(process: nat, root: Path, phase: Phase)

  /** `passed` records the roots some sweep's pass over which has completed. */
  datatype State = State(now: int, running: map<nat, seq<Path>>, sweeps: map<nat, Sweep>,
                         markers: map<Path, Marker>, passed: set<Path>)

  datatype Action =
    | SetClock(now: int)
    | TryClaim(id: nat, process: nat, root: Path)
    | NotDue(id: nat)
    | OpenMarker(id: nat)
    | WriteMarker(id: nat)
    | SkipMarker(id: nat)
    | CompletePass(id: nat)
    | DropSweep(id: nat)
    | Crash(process: nat)

  function ListOf(s: State, process: nat): seq<Path> {
    if process in s.running then s.running[process] else []
  }

  /** `due`: missing, dated in the future, or old enough for what it says. */
  predicate Due(s: State, root: Path) {
    root in s.markers ==>
      var m := s.markers[root];
      s.now < m.modified
      || s.now - m.modified >= (if m.mark == Done then SWEEP_INTERVAL else RETRY_INTERVAL)
  }

  function Moved(s: State, id: nat, phase: Phase): State
    requires id in s.sweeps
  {
    s.(sweeps := s.sweeps[id := s.sweeps[id].(phase := phase)])
  }

  function Marked(s: State, root: Path, mark: Mark): State {
    s.(markers := s.markers[root := Marker(mark, s.now)])
  }

  function Next(s: State, a: Action): State {
    match a
    case SetClock(now) => s.(now := now)
    case TryClaim(id, process, root) =>
      if id in s.sweeps || root in ListOf(s, process) then s
      else s.(running := s.running[process := AfterClaim(ListOf(s, process), root)],
              sweeps := s.sweeps[id := Sweep(process, root, Claimed)])
    case Crash(process) =>
      s.(running := s.running - {process},
         sweeps := map i | i in s.sweeps && s.sweeps[i].process != process :: s.sweeps[i])
    case _ => if a.id in s.sweeps then SweepStep(s, a) else s
  }

  function SweepStep(s: State, a: Action): State
    requires !a.SetClock? && !a.TryClaim? && !a.Crash? && a.id in s.sweeps
  {
    var w := s.sweeps[a.id];
    match (a, w.phase)
    case (NotDue(id), Claimed) => if Due(s, w.root) then s else Moved(s, id, Finished)
    case (OpenMarker(id), Claimed) => Moved(Marked(s, w.root, Truncated), id, Opened)
    case (SkipMarker(id), Claimed) => Moved(s, id, Walking)
    case (WriteMarker(id), Opened) => Moved(Marked(s, w.root, Started), id, Walking)
    case (SkipMarker(id), Opened) => Moved(s, id, Walking)
    case (CompletePass(id), Walking) => Moved(s.(passed := s.passed + {w.root}), id, Passed)
    case (OpenMarker(id), Passed) => Moved(Marked(s, w.root, Truncated), id, Reopened)
    case (SkipMarker(id), Passed) => Moved(s, id, Finished)
    case (WriteMarker(id), Reopened) => Moved(Marked(s, w.root, Done), id, Finished)
    case (SkipMarker(id), Reopened) => Moved(s, id, Finished)
    case (DropSweep(id), _) =>
      // At the end of the sweep, or on the unwind of a panic at any point of it.
      s.(running := s.running[w.process := AfterDrop(ListOf(s, w.process), w.root)], sweeps := s.sweeps - {id})
    case _ => s
  }

  function Run(s: State, actions: seq<Action>): State
    decreases |actions|
  {
    if actions == [] then s else Run(Next(s, actions[0]), actions[1..])
  }

  // ----- what every step keeps -----

  /** A live sweep of the process works on the root. */
  ghost predicate Held(sweeps: map<nat, Sweep>, process: nat, root: Path) {
    exists i :: i in sweeps && sweeps[i].process == process && sweeps[i].root == root
  }

  /** The list of each process is its live sweeps' roots, each once. */
  ghost predicate ListsLive(s: State) {
    && (forall p :: NoDuplicates(ListOf(s, p)))
    && (forall i :: i in s.sweeps ==> s.sweeps[i].root in ListOf(s, s.sweeps[i].process))
    && (forall p, r :: r in ListOf(s, p) ==> Held(s.sweeps, p, r))
    && (forall i, j :: i in s.sweeps && j in s.sweeps && i != j ==>
          s.sweeps[i].process != s.sweeps[j].process || s.sweeps[i].root != s.sweeps[j].root)
  }

  /** A `d` was written by a sweep whose pass had completed. */
  ghost predicate MarkersTrue(s: State) {
    && (forall r :: r in s.markers && s.markers[r].mark == Done ==> r in s.passed)
    && (forall i :: i in s.sweeps && (s.sweeps[i].phase == Passed || s.sweeps[i].phase == Reopened) ==>
          s.sweeps[i].root in s.passed)
  }

  const EMPTY: State := State(0, map[], map[], map[], {})

  lemma StillHeld(a: map<nat, Sweep>, b: map<nat, Sweep>, process: nat, root: Path)
    requires Held(a, process, root)
    requires forall i :: i in a && a[i].process == process && a[i].root == root ==>
               i in b && b[i].process == process && b[i].root == root
    ensures Held(b, process, root)
  {
    var i :| i in a && a[i].process == process && a[i].root == root;
    assert b[i].process == process;
  }

  lemma ClaimKeeps(s: State, id: nat, process: nat, root: Path)
    requires ListsLive(s)
    ensures ListsLive(Next(s, TryClaim(id, process, root)))
  {
    hide ListOf, Next, NoDuplicates, Held, AfterClaim;
    var t := Next(s, TryClaim(id, process, root));
    if id !in s.sweeps && root !in ListOf(s, process) {
      ClaimAddsOne(ListOf(s, process), root);
      ClaimChangesOneList(s, id, process, root);
      forall p, r | r in ListOf(t, p) ensures Held(t.sweeps, p, r) {
        if p == process && r == root {
          HoldsItself(t.sweeps, id);
        } else {
          StillHeld(s.sweeps, t.sweeps, p, r);
        }
      }
    } else {
      RefusedClaim(s, id, process, root);
    }
  }

  lemma HoldsItself(sweeps: map<nat, Sweep>, id: nat)
    requires id in sweeps
    ensures Held(sweeps, sweeps[id].process, sweeps[id].root)
  {
  }

  lemma RefusedClaim(s: State, id: nat, process: nat, root: Path)
    requires id in s.sweeps || root in ListOf(s, process)
    ensures Next(s, TryClaim(id, process, root)) == s
  {
  }

  lemma ClaimChangesOneList(s: State, id: nat, process: nat, root: Path)
    requires id !in s.sweeps && root !in ListOf(s, process)
    ensures var t := Next(s, TryClaim(id, process, root));
            && t.sweeps == s.sweeps[id := Sweep(process, root, Claimed)]
            && ListOf(t, process) == ListOf(s, process) + [root] == AfterClaim(ListOf(s, process), root)
            && forall p :: p != process ==> ListOf(t, p) == ListOf(s, p)
  {
  }

  lemma DropKeeps(s: State, id: nat)
    requires ListsLive(s) && id in s.sweeps
    ensures ListsLive(Next(s, DropSweep(id)))
  {
    hide ListOf, Next, NoDuplicates, AfterDrop, Held;
    var t := Next(s, DropSweep(id));
    var w := s.sweeps[id];
    DropRemovesOne(ListOf(s, w.process), w.root);
    DropChangesOneList(s, id);
    forall i | i in t.sweeps ensures t.sweeps[i].root in ListOf(t, t.sweeps[i].process) {
      assert s.sweeps[i].root in Roots(ListOf(s, s.sweeps[i].process));
      if t.sweeps[i].process == w.process {
        assert t.sweeps[i].root in Roots(ListOf(t, w.process));
      }
    }
    forall p, r | r in ListOf(t, p) ensures Held(t.sweeps, p, r) {
      if p == w.process { assert r in Roots(ListOf(t, p)); }
      assert r in ListOf(s, p);
      StillHeld(s.sweeps, t.sweeps, p, r);
    }
  }

  lemma DropChangesOneList(s: State, id: nat)
    requires id in s.sweeps
    ensures var t, w := Next(s, DropSweep(id)), s.sweeps[id];
            && t.sweeps == s.sweeps - {id}
            && ListOf(t, w.process) == AfterDrop(ListOf(s, w.process), w.root)
            && forall p :: p != w.process ==> ListOf(t, p) == ListOf(s, p)
  {
  }

  lemma CrashKeeps(s: State, process: nat)
    requires ListsLive(s)
    ensures ListsLive(Next(s, Crash(process)))
  {
    hide ListOf, Next, Held;
    var t := Next(s, Crash(process));
    CrashEmptiesOneList(s, process);
    forall p, r | r in ListOf(t, p) ensures Held(t.sweeps, p, r) {
      StillHeld(s.sweeps, t.sweeps, p, r);
    }
  }

  lemma CrashEmptiesOneList(s: State, process: nat)
    ensures var t := Next(s, Crash(process));
            && ListOf(t, process) == []
            && (forall p :: p != process ==> ListOf(t, p) == ListOf(s, p))
            && (forall i :: i in t.sweeps <==> i in s.sweeps && s.sweeps[i].process != process)
            && (forall i :: i in t.sweeps ==> t.sweeps[i] == s.sweeps[i])
  {
  }

  /** Steps that move one sweep on leave the lists as they were. */
  lemma MoveKeeps(s: State, t: State, id: nat)
    requires ListsLive(s) && id in s.sweeps && t.running == s.running
    requires t.sweeps.Keys == s.sweeps.Keys
    requires forall i :: i in s.sweeps ==>
               t.sweeps[i].process == s.sweeps[i].process && t.sweeps[i].root == s.sweeps[i].root
    ensures ListsLive(t)
  {
    forall p ensures ListOf(t, p) == ListOf(s, p) {}
    hide Held, ListOf;
    forall p, r | r in ListOf(t, p) ensures Held(t.sweeps, p, r) {
      StillHeld(s.sweeps, t.sweeps, p, r);
    }
  }

  lemma SweepStepMoves(s: State, a: Action)
    requires !a.SetClock? && !a.TryClaim? && !a.Crash? && !a.DropSweep? && a.id in s.sweeps
    ensures var t := SweepStep(s, a);
            && t.running == s.running && t.sweeps.Keys == s.sweeps.Keys
            && forall i :: i in s.sweeps ==>
                 t.sweeps[i].process == s.sweeps[i].process && t.sweeps[i].root == s.sweeps[i].root
  {
  }

  lemma NextKeepsLists(s: State, a: Action)
    requires ListsLive(s)
    ensures ListsLive(Next(s, a))
  {
    hide ListsLive, SweepStep;
    match a {
      case SetClock(now) => OtherKeeps(s, Next(s, a));
      case TryClaim(id, process, root) => ClaimKeeps(s, id, process, root);
      case Crash(process) => CrashKeeps(s, process);
      case DropSweep(id) => if id in s.sweeps { DropKeeps(s, id); }
      case _ =>
        if a.id in s.sweeps {
          SweepStepMoves(s, a);
          MoveKeeps(s, Next(s, a), a.id);
        }
    }
  }

  lemma OtherKeeps(s: State, t: State)
    requires ListsLive(s) && t.running == s.running && t.sweeps == s.sweeps
    ensures ListsLive(t)
  {
    forall p ensures ListOf(t, p) == ListOf(s, p) {}
  }

  lemma NextKeepsMarkers(s: State, a: Action)
    requires MarkersTrue(s)
    ensures MarkersTrue(Next(s, a))
  {
  }

  lemma {:induction false} RunKeeps(s: State, actions: seq<Action>)
    requires ListsLive(s) && MarkersTrue(s)
    ensures ListsLive(Run(s, actions)) && MarkersTrue(Run(s, actions))
    decreases |actions|
  {
    if actions != [] {
      NextKeepsLists(s, actions[0]);
      NextKeepsMarkers(s, actions[0]);
      RunKeeps(Next(s, actions[0]), actions[1..]);
    }
  }

  lemma EmptyIsSafe()
    ensures ListsLive(EMPTY) && MarkersTrue(EMPTY)
  {
  }

  /** One process never sweeps a root twice at once. */
  lemma OneSweepPerRoot(actions: seq<Action>, i: nat, j: nat)
    requires var s := Run(EMPTY, actions);
             i in s.sweeps && j in s.sweeps && i != j && s.sweeps[i].process == s.sweeps[j].process
    ensures Run(EMPTY, actions).sweeps[i].root != Run(EMPTY, actions).sweeps[j].root
  {
    EmptyIsSafe();
    RunKeeps(EMPTY, actions);
  }

  /** A claim that is refused is refused because a live sweep of this process holds the root. */
  lemma RefusedMeansHeld(actions: seq<Action>, process: nat, root: Path)
    requires root in ListOf(Run(EMPTY, actions), process)
    ensures exists i :: i in Run(EMPTY, actions).sweeps && Run(EMPTY, actions).sweeps[i].process == process
                        && Run(EMPTY, actions).sweeps[i].root == root
  {
    EmptyIsSafe();
    RunKeeps(EMPTY, actions);
  }

  // ----- what a marker says -----

  /** A write of a marker: the phase its sweep was in, and the clock. */
  datatype Write = Write(phase: Phase, at: int)

  /** The action writes the marker of `root`: a truncating open, or a write through the open file. */
  predicate Writes(s: State, a: Action, root: Path) {
    && (a.OpenMarker? || a.WriteMarker?) && a.id in s.sweeps && s.sweeps[a.id].root == root
    && (if a.OpenMarker? then s.sweeps[a.id].phase == Claimed || s.sweeps[a.id].phase == Passed
        else s.sweeps[a.id].phase == Opened || s.sweeps[a.id].phase == Reopened)
  }

  function WriteOf(s: State, a: Action, root: Path): Write
    requires Writes(s, a, root)
  {
    Write(s.sweeps[a.id].phase, s.now)
  }

  /** The last write of `root`'s marker in a run. */
  function LastWrite(s: State, actions: seq<Action>, root: Path): Option<Write>
    decreases |actions|
  {
    if actions == [] then None
    else
      var later := LastWrite(Next(s, actions[0]), actions[1..], root);
      if later.Some? then later
      else if Writes(s, actions[0], root) then Some(WriteOf(s, actions[0], root))
      else None
  }

  /** What a write in this phase leaves in the file. */
  function MarkOf(phase: Phase): Mark {
    match phase
    case Opened => Started
    case Reopened => Done
    case _ => Truncated
  }

  lemma StepWrites(s: State, a: Action, root: Path)
    ensures var t := Next(s, a);
            if Writes(s, a, root) then
              root in t.markers
              && t.markers[root] == Marker(MarkOf(WriteOf(s, a, root).phase), WriteOf(s, a, root).at)
            else
              && (root in t.markers <==> root in s.markers)
              && (root in s.markers ==> t.markers[root] == s.markers[root])
  {
  }

  /** After any run the marker is what the last write made it, and untouched when there was none. */
  lemma {:induction false} MarkerIsLastWrite(s: State, actions: seq<Action>, root: Path)
    ensures var t := Run(s, actions);
            match LastWrite(s, actions, root)
            case Some(w) => root in t.markers && t.markers[root] == Marker(MarkOf(w.phase), w.at)
            case None =>
              (root in t.markers <==> root in s.markers) && (root in s.markers ==> t.markers[root] == s.markers[root])
    decreases |actions|
  {
    hide Next, Writes, MarkOf;
    if actions != [] {
      StepWrites(s, actions[0], root);
      MarkerIsLastWrite(Next(s, actions[0]), actions[1..], root);
    }
  }

  /**
   A routine sweep is put off exactly when the marker's last write is recent: less than a day old
   when it was a completion's `d`, which only a completed pass writes, and less than an hour otherwise.
   */
  lemma PutOffForAReason(actions: seq<Action>, root: Path)
    ensures var s, last := Run(EMPTY, actions), LastWrite(EMPTY, actions, root);
            && (!Due(s, root) <==> && last.Some?
                                   && 0 <= s.now - last.value.at
                                        < (if last.value.phase == Reopened then 24 * 3600 else 3600))
            && (last.Some? && last.value.phase == Reopened ==> root in s.passed)
  {
    hide Next;
    EmptyIsSafe();
    RunKeeps(EMPTY, actions);
    MarkerIsLastWrite(EMPTY, actions, root);
  }

  /** A routine sweep that has claimed its root ends there exactly when the root is not due, and touches nothing. */
  lemma EndsWhenNotDue(s: State, id: nat)
    requires id in s.sweeps && s.sweeps[id].phase == Claimed
    ensures var t, root := Next(s, NotDue(id)), s.sweeps[id].root;
            && t.markers == s.markers && t.passed == s.passed && id in t.sweeps
            && (t.sweeps[id].phase == Finished
                <==> root in s.markers
                     && 0 <= s.now - s.markers[root].modified
                          < (if s.markers[root].mark == Done then 24 * 3600 else 3600))
  {
  }

  /** The action at `k` writes `d` into the marker of `root`. */
  predicate Finishes(s: State, actions: seq<Action>, k: nat, root: Path)
    requires k < |actions|
  {
    var t := Run(s, actions[..k]);
    Writes(t, actions[k], root) && t.sweeps[actions[k].id].phase == Reopened
  }

  lemma {:induction false} FinishIsSomewhere(s: State, actions: seq<Action>, root: Path)
    requires LastWrite(s, actions, root).Some? && LastWrite(s, actions, root).value.phase == Reopened
    ensures exists k :: 0 <= k < |actions| && Finishes(s, actions, k, root)
    decreases |actions|
  {
    hide Next, Writes;
    var next := Next(s, actions[0]);
    if LastWrite(next, actions[1..], root).Some? {
      FinishIsSomewhere(next, actions[1..], root);
      var k :| 0 <= k < |actions| - 1 && Finishes(next, actions[1..], k, root);
      assert actions[..k + 1][1..] == actions[1..][..k];
      assert Finishes(s, actions, k + 1, root);
    } else {
      assert Finishes(s, actions, 0, root);
    }
  }

  /**
   Once a sweep has opened its marker, a crash at any later step leaves it due again after the retry
   interval: whatever runs from there, the marker reads `d` exactly when its last write was a
   completion's, which some sweep of the root must then have made.
   */
  lemma DiedSweepIsRetried(s: State, id: nat, actions: seq<Action>)
    requires id in s.sweeps && s.sweeps[id].phase == Claimed
    ensures var root, begun := s.sweeps[id].root, Next(s, OpenMarker(id));
            var t, last := Run(begun, actions), LastWrite(begun, actions, root);
            && root in t.markers
            && (t.markers[root].mark == Done <==> last.Some? && last.value.phase == Reopened)
            && (t.markers[root].mark == Done ==> exists k :: 0 <= k < |actions| && Finishes(begun, actions, k, root))
            && (t.markers[root].mark != Done && t.now - t.markers[root].modified >= 3600 ==> Due(t, root))
  {
    hide Next, LastWrite;
    var root, begun := s.sweeps[id].root, Next(s, OpenMarker(id));
    StepWrites(s, OpenMarker(id), root);
    MarkerIsLastWrite(begun, actions, root);
    var last := LastWrite(begun, actions, root);
    if last.Some? && last.value.phase == Reopened {
      FinishIsSomewhere(begun, actions, root);
    }
  }

  lemma RunOfTwo(s: State, a: Action, b: Action)
    ensures Run(s, [a, b]) == Next(Next(s, a), b)
  {
    hide Next;
    assert [a, b][1..] == [b] && [b][1..] == [];
    assert Run(Next(s, a), [b]) == Run(Next(Next(s, a), b), []);
  }

  /** One way the marker keeps an old `d`: the sweep could not open it, and died. */
  lemma SkippedStartKeepsTheMarker(s: State, id: nat, root: Path)
    requires id in s.sweeps && s.sweeps[id].phase == Claimed && s.sweeps[id].root == root
    ensures Run(s, [SkipMarker(id), Crash(s.sweeps[id].process)]).markers == s.markers
    ensures id !in Run(s, [SkipMarker(id), Crash(s.sweeps[id].process)]).sweeps
  {
    var crash := Crash(s.sweeps[id].process);
    RunOfTwo(s, SkipMarker(id), crash);
  }

  /** The other way: a sweep of another process, past its own pass, writes `d` over it. */
  lemma AnotherSweepWritesDone(s: State, id: nat, other: nat, root: Path)
    requires id in s.sweeps && s.sweeps[id].phase == Claimed && s.sweeps[id].root == root
    requires other in s.sweeps && s.sweeps[other].phase == Reopened && s.sweeps[other].root == root
    requires s.sweeps[id].process != s.sweeps[other].process
    ensures var t := Run(s, [OpenMarker(id), Crash(s.sweeps[id].process), WriteMarker(other)]);
            id !in t.sweeps && root in t.markers && t.markers[root] == Marker(Done, s.now)
  {
    var crash := Crash(s.sweeps[id].process);
    assert [OpenMarker(id), crash, WriteMarker(other)] == [OpenMarker(id)] + [crash, WriteMarker(other)];
    assert [OpenMarker(id), crash, WriteMarker(other)][1..] == [crash, WriteMarker(other)];
    RunOfTwo(Next(s, OpenMarker(id)), crash, WriteMarker(other));
    assert Next(Next(s, OpenMarker(id)), crash).sweeps[other] == s.sweeps[other];
  }

  // ----- the marker's time -----

  /** A sweep marks its start in these phases, and its completion in `Passed` and `Reopened`. */
  predicate IsStart(phase: Phase) {
    phase == Claimed || phase == Opened
  }

  /** The clock at every start, or every completion, written into `root`'s marker. */
  function TimesOf(s: State, actions: seq<Action>, root: Path, starts: bool): set<int>
    decreases |actions|
  {
    if actions == [] then {}
    else
      (if Writes(s, actions[0], root) && IsStart(WriteOf(s, actions[0], root).phase) == starts then {s.now} else {})
      + TimesOf(Next(s, actions[0]), actions[1..], root, starts)
  }

  lemma {:induction false} LastWriteIsTimed(s: State, actions: seq<Action>, root: Path)
    requires LastWrite(s, actions, root).Some?
    ensures var w := LastWrite(s, actions, root).value; w.at in TimesOf(s, actions, root, IsStart(w.phase))
    decreases |actions|
  {
    hide Next, Writes;
    if LastWrite(Next(s, actions[0]), actions[1..], root).Some? {
      LastWriteIsTimed(Next(s, actions[0]), actions[1..], root);
    }
  }

  /**
   As long as no start of the root was written at the clock reading of a completion, the marker's
   time is that of a start exactly when its last write was one: a completed sweep moves it on.
   */
  lemma MarkerTimeIsAStart(actions: seq<Action>, root: Path)
    requires TimesOf(EMPTY, actions, root, true) !! TimesOf(EMPTY, actions, root, false)
    requires root in Run(EMPTY, actions).markers
    ensures LastWrite(EMPTY, actions, root).Some?
    ensures Run(EMPTY, actions).markers[root].modified in TimesOf(EMPTY, actions, root, true)
            <==> IsStart(LastWrite(EMPTY, actions, root).value.phase)
  {
    hide Next, LastWrite, TimesOf;
    MarkerIsLastWrite(EMPTY, actions, root);
    LastWriteIsTimed(EMPTY, actions, root);
  }

  /** A sweep that starts now and finishes at `t1` leaves `t1` on its marker, at which nothing started. */
  lemma FinishMovesTheTime(s: State, id: nat, t1: int)
    requires id in s.sweeps && s.sweeps[id].phase == Claimed && s.now < t1
    ensures var root := s.sweeps[id].root;
            var actions := [OpenMarker(id), WriteMarker(id)] + ([CompletePass(id), SetClock(t1)]
                                                                + [OpenMarker(id), WriteMarker(id)]);
            var t := Run(s, actions);
            && root in t.markers && t.markers[root] == Marker(Done, t1)
            && TimesOf(s, actions, root, true) == {s.now} && t1 !in TimesOf(s, actions, root, true)
  {
    hide Next, Writes;
    var root := s.sweeps[id].root;
    var begun := Next(Next(s, OpenMarker(id)), WriteMarker(id));
    var passed := Next(Next(begun, CompletePass(id)), SetClock(t1));
    StartMarks(s, id);
    PassTicks(begun, id, t1);
    FinishMarks(passed, id);
    TwoSteps(s, OpenMarker(id), WriteMarker(id),
             [CompletePass(id), SetClock(t1)] + [OpenMarker(id), WriteMarker(id)], root);
    TwoSteps(begun, CompletePass(id), SetClock(t1), [OpenMarker(id), WriteMarker(id)], root);
    TwoSteps(passed, OpenMarker(id), WriteMarker(id), [], root);
    assert [OpenMarker(id), WriteMarker(id)] + [] == [OpenMarker(id), WriteMarker(id)];
  }

  lemma StartMarks(s: State, id: nat)
    requires id in s.sweeps && s.sweeps[id].phase == Claimed
    ensures var root, t := s.sweeps[id].root, Next(s, OpenMarker(id));
            && Writes(s, OpenMarker(id), root) && Writes(t, WriteMarker(id), root) && t.now == s.now
            && t.sweeps[id].phase == Opened
            && var u := Next(t, WriteMarker(id)); u.sweeps == s.sweeps[id := s.sweeps[id].(phase := Walking)]
  {
  }

  lemma PassTicks(s: State, id: nat, t1: int)
    requires id in s.sweeps && s.sweeps[id].phase == Walking
    ensures var t := Next(Next(s, CompletePass(id)), SetClock(t1));
            t.now == t1 && t.sweeps == s.sweeps[id := s.sweeps[id].(phase := Passed)]
    ensures forall root :: !Writes(s, CompletePass(id), root)
    ensures forall root :: !Writes(Next(s, CompletePass(id)), SetClock(t1), root)
  {
  }

  lemma FinishMarks(s: State, id: nat)
    requires id in s.sweeps && s.sweeps[id].phase == Passed
    ensures var root, t := s.sweeps[id].root, Next(s, OpenMarker(id));
            && id in t.sweeps && t.sweeps[id].phase == Reopened
            && var u := Next(t, WriteMarker(id)); root in u.markers && u.markers[root] == Marker(Done, s.now)
  {
  }

  lemma TwoSteps(s: State, a: Action, b: Action, rest: seq<Action>, root: Path)
    ensures var t := Next(Next(s, a), b);
            && Run(s, [a, b] + rest) == Run(t, rest)
            && TimesOf(s, [a, b] + rest, root, true)
               == (if Writes(s, a, root) && IsStart(WriteOf(s, a, root).phase) then {s.now} else {})
                  + ((if Writes(Next(s, a), b, root) && IsStart(WriteOf(Next(s, a), b, root).phase)
                      then {Next(s, a).now} else {})
                     + TimesOf(t, rest, root, true))
  {
    hide Next, Writes, IsStart;
    var actions := [a, b] + rest;
    assert actions[1..] == [b] + rest && actions[1..][1..] == rest;
    assert Run(s, actions) == Run(Next(s, a), actions[1..]);
  }

  /** The action at `k` is a sweep of `root` completing its pass. */
  predicate Completes(actions: seq<Action>, k: nat, root: Path)
    requires k < |actions|
  {
    var s := Run(EMPTY, actions[..k]);
    actions[k].CompletePass? && actions[k].id in s.sweeps
    && s.sweeps[actions[k].id].root == root && s.sweeps[actions[k].id].phase == Walking
  }

  /** A marker reads `d` only when some sweep of its root has completed its pass. */
  lemma DoneMeansCompleted(actions: seq<Action>, root: Path)
    requires var s := Run(EMPTY, actions); root in s.markers && s.markers[root].mark == Done
    ensures exists k :: 0 <= k < |actions| && Completes(actions, k, root)
  {
    EmptyIsSafe();
    RunKeeps(EMPTY, actions);
    assert actions[..|actions|] == actions;
    if forall k :: 0 <= k < |actions| ==> !Completes(actions, k, root) {
      NeverPassed(actions, |actions|, root);
    }
  }

  /** Only a completed pass adds its root to those passed. */
  lemma PassedByCompleting(s: State, a: Action, root: Path)
    ensures root in Next(s, a).passed && root !in s.passed
            ==> a.CompletePass? && a.id in s.sweeps && s.sweeps[a.id].root == root && s.sweeps[a.id].phase == Walking
  {
  }

  lemma {:induction false} NeverPassed(actions: seq<Action>, n: nat, root: Path)
    requires n <= |actions|
    requires forall k :: 0 <= k < |actions| ==> !Completes(actions, k, root)
    ensures root !in Run(EMPTY, actions[..n]).passed
    decreases n
  {
    if n > 0 {
      NeverPassed(actions, n - 1, root);
      assert actions[..n] == actions[..n - 1] + [actions[n - 1]];
      RunSnoc(EMPTY, actions[..n - 1], actions[n - 1]);
      assert !Completes(actions, n - 1, root);
      PassedByCompleting(Run(EMPTY, actions[..n - 1]), actions[n - 1], root);
    } else {
      assert actions[..0] == [];
    }
  }

  lemma {:induction false} RunSnoc(s: State, actions: seq<Action>, a: Action)
    ensures Run(s, actions + [a]) == Next(Run(s, actions), a)
    decreases |actions|
  {
    if actions == [] {
      assert [a][1..] == [];
      assert [] + [a] == [a];
    } else {
      assert (actions + [a])[1..] == actions[1..] + [a];
      RunSnoc(Next(s, actions[0]), actions[1..], a);
    }
  }
}
