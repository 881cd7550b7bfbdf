/** The container launcher: a parent that maps IDs, a child that waits for it on a pipe, step by step. */
module NsUtsnts {

  // Where the parent stands: the step it takes next.
  datatype Parent = Piping | Cloning | MappingUid | MappingGid | Notifying | Waiting | Finished

  // Where the child stands.
  datatype Child = Unborn | Closing | Reading | NamingHost | Mounting | Executing | Inside | Exited

  /** Both processes, the ends of the pipe each holds open, what has happened to the ID maps, and what the child
      has done: set the host name, mounted `/proc`, and run the program of the container. */
  datatype State = State(parent: Parent, child: Child,
                         parentWrites: bool, parentReads: bool, childWrites: bool, childReads: bool,
                         uidTried: bool, gidTried: bool, uidMapped: bool, gidMapped: bool,
                         named: bool, mounted: bool, executed: bool)

  const Start :=
    State(Piping, Unborn, false, false, false, false, false, false, false, false, false, false, false)

  /** A read of the empty pipe ends only when no process holds the write end: nobody ever writes to it. */
  predicate EndOfFile(s: State) { !s.parentWrites && !s.childWrites }

  function AfterParent(p: Parent): Parent {
    match p
    case Piping => Cloning
    case Cloning => MappingUid
    case MappingUid => MappingGid
    case MappingGid => Notifying
    case Notifying => Waiting
    case Waiting => Finished
    case Finished => Finished
  }

  predicate ParentCan(s: State) {
    !s.parent.Finished? && (s.parent.Waiting? ==> s.child.Exited?)
  }

  /** What a step of the parent does: `pipe` opens both ends, `clone` copies them, and the close before
      `waitpid` notifies; `ok` says whether a map file could be opened. */
  function ParentNext(s: State, ok: bool): State {
    State(AfterParent(s.parent),
          if s.parent.Cloning? then Closing else s.child,
          s.parent.Piping? || (s.parentWrites && !s.parent.Notifying?),
          s.parent.Piping? || (s.parentReads && !s.parent.Waiting?),
          if s.parent.Cloning? then s.parentWrites else s.childWrites,
          if s.parent.Cloning? then s.parentReads else s.childReads,
          s.uidTried || s.parent.MappingUid?, s.gidTried || s.parent.MappingGid?,
          if s.parent.MappingUid? then ok else s.uidMapped,
          if s.parent.MappingGid? then ok else s.gidMapped,
          s.named, s.mounted, s.executed)
  }

  predicate ParentStep(s: State, t: State, ok: bool) { ParentCan(s) && t == ParentNext(s, ok) }

  /** Where the child goes next; `ok` says whether `execv` succeeds. */
  function AfterChild(c: Child, ok: bool): Child {
    match c
    case Unborn => Unborn
    case Closing => Reading
    case Reading => NamingHost
    case NamingHost => Mounting
    case Mounting => Executing
    case Executing => if ok then Inside else Exited
    case Inside => Exited
    case Exited => Exited
  }

  predicate ChildCan(s: State) {
    !s.child.Unborn? && !s.child.Exited? && (s.child.Reading? ==> EndOfFile(s))
  }

  /** What a step of the child does: it closes its write end first, and all its ends when it exits. `closes`
      is whether it has that first close, which the program has. */
  function ChildNext(closes: bool, s: State, ok: bool): State {
    s.(child := AfterChild(s.child, ok),
       childWrites := s.childWrites && !(closes && s.child.Closing?) && !AfterChild(s.child, ok).Exited?,
       childReads := s.childReads && !AfterChild(s.child, ok).Exited?,
       named := s.named || s.child.NamingHost?,
       mounted := s.mounted || s.child.Mounting?,
       executed := s.executed || (s.child.Executing? && ok))
  }

  predicate ChildStep(closes: bool, s: State, t: State, ok: bool) { ChildCan(s) && t == ChildNext(closes, s, ok) }

  ghost predicate Next(closes: bool, s: State, t: State) {
    exists ok :: ParentStep(s, t, ok) || ChildStep(closes, s, t, ok)
  }

  /** Any interleaving of the two processes. */
  ghost predicate IsRun(closes: bool, run: seq<State>) {
    run != [] && run[0] == Start && forall i :: 0 < i < |run| ==> Next(closes, run[i - 1], run[i])
  }

  predicate BeforeNotify(p: Parent) { p.Piping? || p.Cloning? || p.MappingUid? || p.MappingGid? || p.Notifying? }

  predicate PastRead(c: Child) { c.NamingHost? || c.Mounting? || c.Executing? || c.Inside? || c.Exited? }

  /** What every step keeps. */
  predicate Inv(closes: bool, s: State) {
    && (s.parentWrites <==> BeforeNotify(s.parent) && !s.parent.Piping?)
    && (s.childWrites <==> s.child.Closing? || (!closes && s.child.Reading?))
    && (s.child.Unborn? <==> s.parent.Piping? || s.parent.Cloning?)
    && (s.uidTried <==> !(s.parent.Piping? || s.parent.Cloning? || s.parent.MappingUid?))
    && (s.gidTried <==> s.parent.Notifying? || !BeforeNotify(s.parent))
    && (PastRead(s.child) ==> closes && !BeforeNotify(s.parent))
    && (s.parent.Finished? ==> s.child.Exited?)
    && (s.childReads <==> !s.child.Unborn? && !s.child.Exited?)
    && (s.parentReads <==> !s.parent.Piping? && !s.parent.Finished?)
    && (s.named <==> PastRead(s.child) && !s.child.NamingHost?)
    && (s.mounted <==> s.child.Executing? || s.child.Inside? || s.child.Exited?)
    && (s.child.Inside? ==> s.executed) && (s.executed ==> s.child.Inside? || s.child.Exited?)
  }

  lemma ParentKeepsInv(closes: bool, s: State, t: State, ok: bool)
    requires Inv(closes, s) && ParentStep(s, t, ok)
    ensures Inv(closes, t)
  {
  }

  lemma ChildKeepsInv(closes: bool, s: State, t: State, ok: bool)
    requires Inv(closes, s) && ChildStep(closes, s, t, ok)
    ensures Inv(closes, t)
  {
  }

  lemma NextKeepsInv(closes: bool, s: State, t: State)
    requires Inv(closes, s) && Next(closes, s, t)
    ensures Inv(closes, t)
  {
    var ok :| ParentStep(s, t, ok) || ChildStep(closes, s, t, ok);
    if ParentStep(s, t, ok) { ParentKeepsInv(closes, s, t, ok); } else { ChildKeepsInv(closes, s, t, ok); }
  }

  lemma {:induction false} RunKeepsInv(closes: bool, run: seq<State>, i: nat)
    requires IsRun(closes, run) && i < |run|
    ensures Inv(closes, run[i])
  {
    if i > 0 {
      RunKeepsInv(closes, run, i - 1);
      NextKeepsInv(closes, run[i - 1], run[i]);
    }
  }

  /** In every interleaving the child names the host, mounts and executes only after the parent has tried
      both ID maps and closed its write end. */
  lemma MapsBeforeContainer(closes: bool, run: seq<State>, i: nat)
    requires IsRun(closes, run) && i < |run| && PastRead(run[i].child)
    ensures run[i].uidTried && run[i].gidTried && !run[i].parentWrites
  {
    RunKeepsInv(closes, run, i);
  }

  /** In every interleaving the container's program runs only in a named host with `/proc` mounted, after both
      map attempts and the parent's close. */
  lemma PreparedBeforeProgram(closes: bool, run: seq<State>, i: nat)
    requires IsRun(closes, run) && i < |run| && run[i].executed
    ensures run[i].named && run[i].mounted && run[i].uidTried && run[i].gidTried && !run[i].parentWrites
    ensures closes
  {
    RunKeepsInv(closes, run, i);
  }

  /** The three things happen one step at a time and in this order: each is done by a step before which the ones
      it needs are done. */
  lemma DoneInOrder(closes: bool, run: seq<State>, i: nat)
    requires IsRun(closes, run) && 0 < i < |run|
    ensures run[i].named && !run[i - 1].named ==> !run[i].mounted && run[i - 1].uidTried && run[i - 1].gidTried
    ensures run[i].mounted && !run[i - 1].mounted ==> run[i - 1].named && !run[i].executed
    ensures run[i].executed && !run[i - 1].executed ==> run[i - 1].named && run[i - 1].mounted
  {
    RunKeepsInv(closes, run, i - 1);
    RunKeepsInv(closes, run, i);
    var s, t := run[i - 1], run[i];
    var ok :| ParentStep(s, t, ok) || ChildStep(closes, s, t, ok);
  }

  // ----- the ID maps --------------------------------------------------------

  /** Step `i` of the run is the parent's attempt at the map, and `ok` says whether the file opened. */

  ghost predicate UidAttempt(run: seq<State>, i: nat, ok: bool) {
    i + 1 < |run| && run[i].parent.MappingUid? && ParentStep(run[i], run[i + 1], ok)
  }

  ghost predicate GidAttempt(run: seq<State>, i: nat, ok: bool) {
    i + 1 < |run| && run[i].parent.MappingGid? && ParentStep(run[i], run[i + 1], ok)
  }

  /** A map that has been tried stays as it is. */
  lemma NextKeepsMaps(closes: bool, s: State, t: State)
    requires Inv(closes, s) && Next(closes, s, t)
    ensures s.uidTried ==> t.uidTried && t.uidMapped == s.uidMapped
    ensures s.gidTried ==> t.gidTried && t.gidMapped == s.gidMapped
  {
  }

  /** The step that leaves a map tried is the attempt at it. */
  lemma FirstTry(closes: bool, s: State, t: State)
    requires Inv(closes, s) && Next(closes, s, t)
    ensures !s.uidTried && t.uidTried ==> s.parent.MappingUid? && ParentStep(s, t, t.uidMapped)
    ensures !s.gidTried && t.gidTried ==> s.parent.MappingGid? && ParentStep(s, t, t.gidMapped)
  {
    var ok :| ParentStep(s, t, ok) || ChildStep(closes, s, t, ok);
  }

  lemma {:induction false} MapsStay(closes: bool, run: seq<State>, i: nat, j: nat)
    requires IsRun(closes, run) && i <= j < |run|
    ensures run[i].uidTried ==> run[j].uidTried && run[j].uidMapped == run[i].uidMapped
    ensures run[i].gidTried ==> run[j].gidTried && run[j].gidMapped == run[i].gidMapped
    decreases j
  {
    if i < j {
      MapsStay(closes, run, i, j - 1);
      RunKeepsInv(closes, run, j - 1);
      NextKeepsMaps(closes, run[j - 1], run[j]);
    }
  }

  /** A map that has been tried was tried in one step. */
  lemma {:induction false} UidAttempted(closes: bool, run: seq<State>, j: nat) returns (u: nat)
    requires IsRun(closes, run) && j < |run| && run[j].uidTried
    ensures u < j && UidAttempt(run, u, run[j].uidMapped)
    decreases j
  {
    RunKeepsInv(closes, run, j - 1);
    if run[j - 1].uidTried {
      u := UidAttempted(closes, run, j - 1);
      NextKeepsMaps(closes, run[j - 1], run[j]);
    } else {
      FirstTry(closes, run[j - 1], run[j]);
      u := j - 1;
    }
  }

  lemma {:induction false} GidAttempted(closes: bool, run: seq<State>, j: nat) returns (g: nat)
    requires IsRun(closes, run) && j < |run| && run[j].gidTried
    ensures g < j && GidAttempt(run, g, run[j].gidMapped)
    decreases j
  {
    RunKeepsInv(closes, run, j - 1);
    if run[j - 1].gidTried {
      g := GidAttempted(closes, run, j - 1);
      NextKeepsMaps(closes, run[j - 1], run[j]);
    } else {
      FirstTry(closes, run[j - 1], run[j]);
      g := j - 1;
    }
  }

  /** From the attempt on, a map is written exactly when its file opened. */
  lemma MappedIff(closes: bool, run: seq<State>, i: nat, ok: bool, j: nat)
    requires IsRun(closes, run) && i < j < |run|
    ensures UidAttempt(run, i, ok) ==> (run[j].uidMapped <==> ok)
    ensures GidAttempt(run, i, ok) ==> (run[j].gidMapped <==> ok)
  {
    RunKeepsInv(closes, run, i + 1);
    MapsStay(closes, run, i + 1, j);
  }

  /** In every interleaving, when the child is past its read both maps have been attempted, and for the rest of
      the run each ID is mapped exactly when its one attempt could open the file. */
  lemma ContainerMapped(closes: bool, run: seq<State>, j: nat) returns (u: nat, g: nat)
    requires IsRun(closes, run) && j < |run| && PastRead(run[j].child)
    ensures u < j && UidAttempt(run, u, run[j].uidMapped)
    ensures g < j && GidAttempt(run, g, run[j].gidMapped)
    ensures forall i: nat, ok :: i < j && UidAttempt(run, i, ok) ==> (run[j].uidMapped <==> ok)
    ensures forall i: nat, ok :: i < j && GidAttempt(run, i, ok) ==> (run[j].gidMapped <==> ok)
  {
    MapsBeforeContainer(closes, run, j);
    u := UidAttempted(closes, run, j);
    g := GidAttempted(closes, run, j);
    forall i: nat, ok | i < j && (UidAttempt(run, i, ok) || GidAttempt(run, i, ok))
      ensures UidAttempt(run, i, ok) ==> (run[j].uidMapped <==> ok)
      ensures GidAttempt(run, i, ok) ==> (run[j].gidMapped <==> ok)
    {
      MappedIff(closes, run, i, ok, j);
    }
  }

  lemma ExtendRun(closes: bool, run: seq<State>, parent: bool, ok: bool) returns (longer: seq<State>)
    requires IsRun(closes, run)
    requires if parent then ParentCan(run[|run| - 1]) else ChildCan(run[|run| - 1])
    ensures IsRun(closes, longer)
    ensures longer == run + [if parent then ParentNext(run[|run| - 1], ok) else ChildNext(closes, run[|run| - 1], ok)]
  {
    var s := run[|run| - 1];
    var t := if parent then ParentNext(s, ok) else ChildNext(closes, s, ok);
    assert ParentStep(s, t, ok) || ChildStep(closes, s, t, ok);
    longer := run + [t];
  }

  /** All four outcomes occur: for each choice of which files open, some run takes the child into the container. */
  lemma ContainerStarts(uid: bool, gid: bool) returns (run: seq<State>)
    ensures IsRun(true, run)
    ensures var s := run[|run| - 1]; s.child.Inside? && s.executed && s.uidMapped == uid && s.gidMapped == gid
  {
    run := [Start];
    run := ExtendRun(true, run, true, false);
    run := ExtendRun(true, run, true, false);
    run := ExtendRun(true, run, true, uid);
    run := ExtendRun(true, run, true, gid);
    run := ExtendRun(true, run, true, false);
    assert run[|run| - 1] ==
      State(Waiting, Closing, false, true, true, true, true, true, uid, gid, false, false, false);
    run := ExtendRun(true, run, false, true);
    run := ExtendRun(true, run, false, true);
    run := ExtendRun(true, run, false, true);
    run := ExtendRun(true, run, false, true);
    run := ExtendRun(true, run, false, true);
  }

  // ----- progress -----------------------------------------------------------

  function ParentRank(p: Parent): nat {
    match p
    case Piping => 6
    case Cloning => 5
    case MappingUid => 4
    case MappingGid => 3
    case Notifying => 2
    case Waiting => 1
    case Finished => 0
  }

  function ChildRank(c: Child): nat {
    match c
    case Unborn => 7
    case Closing => 6
    case Reading => 5
    case NamingHost => 4
    case Mounting => 3
    case Executing => 2
    case Inside => 1
    case Exited => 0
  }

  function Rank(s: State): nat { ParentRank(s.parent) + ChildRank(s.child) }

  lemma ParentRankFalls(closes: bool, s: State, t: State, ok: bool)
    requires Inv(closes, s) && ParentStep(s, t, ok)
    ensures Rank(t) < Rank(s)
  {
  }

  lemma ChildRankFalls(closes: bool, s: State, t: State, ok: bool)
    requires ChildStep(closes, s, t, ok)
    ensures Rank(t) < Rank(s)
  {
  }

  lemma RankFalls(closes: bool, s: State, t: State)
    requires Inv(closes, s) && Next(closes, s, t)
    ensures Rank(t) < Rank(s)
  {
    var ok :| ParentStep(s, t, ok) || ChildStep(closes, s, t, ok);
    if ParentStep(s, t, ok) { ParentRankFalls(closes, s, t, ok); } else { ChildRankFalls(closes, s, t, ok); }
  }

  /** Every run is short, with the child's close or without it. */
  lemma {:induction false} RunBound(closes: bool, run: seq<State>, i: nat)
    requires IsRun(closes, run) && i < |run|
    ensures Rank(run[i]) + i <= 13
  {
    if i > 0 {
      RunBound(closes, run, i - 1);
      RunKeepsInv(closes, run, i - 1);
      RankFalls(closes, run[i - 1], run[i]);
    }
  }

  /** The handshake cannot deadlock: until the parent has finished, one of the two can go on. */
  lemma NoDeadlock(s: State) returns (t: State)
    requires Inv(true, s) && !s.parent.Finished?
    ensures Next(true, s, t)
  {
    if ParentCan(s) {
      t := ParentNext(s, true);
      assert ParentStep(s, t, true);
    } else {
      assert ChildCan(s);
      t := ChildNext(true, s, true);
      assert ChildStep(true, s, t, true);
    }
  }

  ghost predicate Stuck(closes: bool, s: State) { forall t :: !Next(closes, s, t) }

  /** A run that cannot go on has reached the end of both processes. */
  lemma StuckMeansDone(run: seq<State>)
    requires IsRun(true, run) && Stuck(true, run[|run| - 1])
    ensures run[|run| - 1].parent.Finished? && run[|run| - 1].child.Exited?
  {
    var s := run[|run| - 1];
    RunKeepsInv(true, run, |run| - 1);
    if !s.parent.Finished? {
      var t := NoDeadlock(s);
    }
  }

  /** What the child's own close is for: without it no run ever gets past the read, and every run that cannot
      go on has stopped with the child reading and the parent waiting for it. */
  lemma NoCloseDeadlocks(run: seq<State>)
    requires IsRun(false, run)
    ensures forall i :: 0 <= i < |run| ==> !PastRead(run[i].child)
    ensures var s := run[|run| - 1]; Stuck(false, s) <==> s.child.Reading? && s.parent.Waiting?
  {
    forall i | 0 <= i < |run| ensures !PastRead(run[i].child) {
      RunKeepsInv(false, run, i);
    }
    var s := run[|run| - 1];
    RunKeepsInv(false, run, |run| - 1);
    if ParentCan(s) {
      assert ParentStep(s, ParentNext(s, true), true);
      assert Next(false, s, ParentNext(s, true));
    }
    if ChildCan(s) {
      assert ChildStep(false, s, ChildNext(false, s, true), true);
      assert Next(false, s, ChildNext(false, s, true));
    }
  }
}
