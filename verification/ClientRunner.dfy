/**
 The auto-updater that runs one client: start it, restart it when it dies, replace it when a new
 release appears, and stop it on shutdown.
 */
module ClientRunner {
  import opened Wrappers

  type Pid = nat
  type Checksum = nat

  datatype Error = ChildProcessExists | NoDownloadedRelease

  /** The runner's two fields, and the processes it has started that are still alive. */
  datatype Machine = Machine(child: Option<Pid>, release: Option<Checksum>, alive: map<Pid, Checksum>)

  // ---------------------------------------------------------------- operations on the child

  /** Refuses when a child is recorded or no release is; otherwise the new process is the child. */
  function RunBinary(m: Machine, pid: Pid): Result<Machine, Error> {
    if m.child.Some? then Err(ChildProcessExists)
    else if m.release.None? then Err(NoDownloadedRelease)
    else Ok(m.(child := Some(pid), alive := m.alive[pid := m.release.value]))
  }

  /** Signal the child and wait for it. A failed wait is only logged, and the child is forgotten all the same. */
  function Terminate(m: Machine, waitFails: bool): Machine {
    if m.child.None? then m
    else m.(child := None, alive := if waitFails then m.alive else m.alive - {m.child.value})
  }

  function CheckAlive(m: Machine): (Machine, bool) {
    if m.child.Some? && m.child.value in m.alive then (m, true) else (m.(child := None), false)
  }

  function MaybeRestart(m: Machine, pid: Pid): Result<Machine, Error> {
    var (m', alive) := CheckAlive(m);
    if alive then Ok(m') else RunBinary(m', pid)
  }

  /** A living child is left alone; a dead or missing one is replaced from the recorded release, if there is one. */
  lemma RestartExact(m: Machine, pid: Pid)
    ensures var r, lives := MaybeRestart(m, pid), m.child.Some? && m.child.value in m.alive;
            && (lives ==> r == Ok(m))
            && (!lives && m.release.None? ==> r == Err(NoDownloadedRelease))
            && (!lives && m.release.Some? ==>
                  r == Ok(Machine(Some(pid), m.release, m.alive[pid := m.release.value])))
  {
  }

  class Runner {
    var childProc: Option<Pid>
    var downloadedRelease: Option<Checksum>
    var processes: map<Pid, Checksum>

    constructor ()
      ensures Value() == Machine(None, None, map[])
    {
      childProc, downloadedRelease, processes := None, None, map[];
    }

    ghost function Value(): Machine
      reads this
    {
      Machine(childProc, downloadedRelease, processes)
    }

    method RunClient(pid: Pid) returns (r: Result<(), Error>)
      modifies this
      ensures match RunBinary(old(Value()), pid)
              case Ok(m) => r == Ok(()) && Value() == m
              case Err(e) => r == Err(e) && Value() == old(Value())
    {
      if childProc.Some? {
        return Err(ChildProcessExists);
      }
      if downloadedRelease.None? {
        return Err(NoDownloadedRelease);
      }
      processes := processes[pid := downloadedRelease.value];
      childProc := Some(pid);
      r := Ok(());
    }

    method TerminateProcAndWait(waitFails: bool)
      modifies this
      ensures Value() == Terminate(old(Value()), waitFails)
    {
      if childProc.None? {
        return;
      }
      if !waitFails {
        processes := processes - {childProc.value};
      }
      childProc := None;
    }

    method CheckChildProcAlive() returns (alive: bool)
      modifies this
      ensures (Value(), alive) == CheckAlive(old(Value()))
    {
      alive := childProc.Some? && childProc.value in processes;
      if !alive {
        childProc := None;
      }
    }

    method MaybeRestartClient(pid: Pid) returns (r: Result<(), Error>)
      modifies this
      ensures match MaybeRestart(old(Value()), pid)
              case Ok(m) => r == Ok(()) && Value() == m
              case Err(e) => r == Err(e) && Value() == CheckAlive(old(Value())).0
    {
      var alive := CheckChildProcAlive();
      r := Ok(());
      if !alive {
        r := RunClient(pid);
      }
    }

    /** Dropping the runner stops a child that is still alive. */
    method Drop(waitFails: bool)
      modifies this
      ensures Value() == DropRunner(old(Value()), waitFails)
    {
      var alive := CheckChildProcAlive();
      if alive {
        TerminateProcAndWait(waitFails);
      }
    }
  }

  // ---------------------------------------------------------------- the updater as a machine

  /** The await points of `auto_update`, where a shutdown signal can be noticed. */
  datatype Point =
    | AwaitFirstRelease
    | AwaitFirstDownload(release: Checksum)
    | AwaitRelease                            // at the top of the loop, after the restart check
    | AwaitUpdate(release: Checksum)          // after the old client was stopped and deleted
    | AwaitSleep
    | Returned
    | Dropped

  datatype State = State(machine: Machine, point: Point)

  datatype Step =
    | Crash(pid: Pid)                                         // a process exits by itself
    | GotFirstRelease(release: Checksum, onDisk: bool, pid: Pid)
    | Downloaded(pid: Pid)
    | GotRelease(found: Option<Checksum>, deleteFails: bool)
    | Slept(pid: Pid)
    | StepFails                                               // any awaited call fails
    | Shutdown
    | Drop                                                    // the runner goes out of scope, at an await point or after

  /** A step, and whether a wait for a child fails in it. */
  datatype Action = Action(step: Step, waitFails: bool)

  /** A started process gets an id no living process has. */
  predicate Enabled(s: State, step: Step) {
    match step
    case Crash(pid) => pid in s.machine.alive
    case GotFirstRelease(_, _, pid) => s.point == AwaitFirstRelease && pid !in s.machine.alive
    case Downloaded(pid) => (s.point.AwaitFirstDownload? || s.point.AwaitUpdate?) && pid !in s.machine.alive
    case GotRelease(_, _) => s.point == AwaitRelease
    case Slept(pid) => s.point == AwaitSleep && pid !in s.machine.alive
    case StepFails => s.point != Returned && s.point != Dropped
    case Shutdown => s.point != Returned && s.point != Dropped
    case Drop => s.point != Dropped
  }

  /** On a signal and on an error alike, the child is terminated before the run returns. */
  function Return(m: Machine, waitFails: bool): State {
    State(Terminate(m, waitFails), Returned)
  }

  /** Run the client, then the restart check at the top of the loop. */
  function StartThenLoop(m: Machine, pid: Pid, waitFails: bool): State {
    match RunBinary(m, pid)
    case Err(_) => Return(m, waitFails)
    case Ok(m') => EnterLoop(m', pid, waitFails)
  }

  function EnterLoop(m: Machine, pid: Pid, waitFails: bool): State {
    match MaybeRestart(m, pid)
    case Err(_) => Return(CheckAlive(m).0, waitFails)
    case Ok(m') => State(m', AwaitRelease)
  }

  function DropRunner(m: Machine, waitFails: bool): Machine {
    var (m', alive) := CheckAlive(m);
    if alive then Terminate(m', waitFails) else m'
  }

  function Apply(s: State, action: Action): State
    requires Enabled(s, action.step)
  {
    var m, waitFails := s.machine, action.waitFails;
    match action.step
    case Crash(pid) => s.(machine := m.(alive := m.alive - {pid}))
    case GotFirstRelease(release, onDisk, pid) =>
      if onDisk then StartThenLoop(m.(release := Some(release)), pid, waitFails)
      else s.(point := AwaitFirstDownload(release))
    case Downloaded(pid) =>
      if s.point.AwaitFirstDownload? then StartThenLoop(m.(release := Some(s.point.release)), pid, waitFails)
      else
        (match RunBinary(m.(release := Some(s.point.release)), pid)
         case Err(_) => Return(m, waitFails)
         case Ok(m') => State(m', AwaitSleep))
    case GotRelease(None, _) => s.(point := AwaitSleep)
    case GotRelease(Some(release), deleteFails) =>
      if m.release.None? then Return(m, waitFails)
      else if release == m.release.value then s.(point := AwaitSleep)
      else
        var stopped := Terminate(m, waitFails);
        if deleteFails then Return(stopped, waitFails)
        else State(stopped.(release := None), AwaitUpdate(release))
    case Slept(pid) => EnterLoop(m, pid, waitFails)
    case StepFails => Return(m, waitFails)
    case Shutdown => Return(m, waitFails)
    case Drop => State(DropRunner(m, waitFails), Dropped)
  }

  ghost predicate Allowed(s: State, actions: seq<Action>)
    decreases |actions|
  {
    actions == [] || (Enabled(s, actions[0].step) && Allowed(Apply(s, actions[0]), actions[1..]))
  }

  ghost function Run(s: State, actions: seq<Action>): State
    requires Allowed(s, actions)
    decreases |actions|
  {
    if actions == [] then s else Run(Apply(s, actions[0]), actions[1..])
  }

  function FailedWaits(actions: seq<Action>): nat {
    if actions == [] then 0 else (if actions[0].waitFails then 1 else 0) + FailedWaits(actions[1..])
  }

  const START := State(Machine(None, None, map[]), AwaitFirstRelease)

  // ---------------------------------------------------------------- how many clients live

  /** Processes alive that the runner has forgotten. */
  function Orphans(m: Machine): set<Pid> {
    m.alive.Keys - if m.child.Some? then {m.child.value} else {}
  }

  /** The living child was started from the recorded release. */
  predicate FromRelease(m: Machine) {
    m.child.Some? && m.child.value in m.alive ==> m.release == Some(m.alive[m.child.value])
  }

  /** What is recorded at each await point. */
  predicate Recorded(s: State) {
    && FromRelease(s.machine)
    && (s.point.AwaitFirstRelease? || s.point.AwaitFirstDownload? || s.point.AwaitUpdate? ==>
          s.machine.child == None && s.machine.release == None)
    && (s.point.AwaitRelease? || s.point.AwaitSleep? ==> s.machine.release.Some?)
    && (s.point.Returned? || s.point.Dropped? ==> s.machine.child == None)
  }

  lemma FewerOrNoMore(a: set<Pid>, b: set<Pid>)
    requires a <= b
    ensures |a| <= |b|
  {
    if a != {} {
      var x :| x in a;
      FewerOrNoMore(a - {x}, b - {x});
    }
  }

  /** Only a failed wait makes an orphan, and only one. */
  lemma TerminateOrphans(m: Machine, waitFails: bool)
    ensures |Orphans(Terminate(m, waitFails))| <= |Orphans(m)| + if waitFails then 1 else 0
  {
    var after := Orphans(Terminate(m, waitFails));
    if waitFails && m.child.Some? {
      FewerOrNoMore(after, Orphans(m) + {m.child.value});
    } else {
      FewerOrNoMore(after, Orphans(m));
    }
  }

  /** Starting and restarting make none. */
  lemma RunBinaryOrphans(m: Machine, pid: Pid)
    requires pid !in m.alive
    ensures RunBinary(m, pid).Ok? ==> Orphans(RunBinary(m, pid).value) == Orphans(m)
    ensures MaybeRestart(m, pid).Ok? ==> Orphans(MaybeRestart(m, pid).value) == Orphans(m)
  {
  }

  lemma StartOrphans(m: Machine, pid: Pid, waitFails: bool)
    requires pid !in m.alive
    ensures |Orphans(EnterLoop(m, pid, waitFails).machine)| <= |Orphans(m)| + if waitFails then 1 else 0
    ensures m.child == None ==>
              |Orphans(StartThenLoop(m, pid, waitFails).machine)| <= |Orphans(m)| + if waitFails then 1 else 0
  {
    RunBinaryOrphans(m, pid);
    CheckAliveOrphans(m);
    TerminateOrphans(m, waitFails);
    TerminateOrphans(CheckAlive(m).0, waitFails);
  }

  lemma StepOrphans(s: State, action: Action)
    requires Recorded(s) && Enabled(s, action.step)
    ensures |Orphans(Apply(s, action).machine)| <= |Orphans(s.machine)| + if action.waitFails then 1 else 0
  {
    hide Orphans, StartThenLoop, EnterLoop, RunBinary, CheckAlive, FromRelease;
    var m, waitFails := s.machine, action.waitFails;
    TerminateOrphans(m, waitFails);
    match action.step
    case Crash(pid) => CrashOrphans(m, pid);
    case GotFirstRelease(release, _, pid) =>
      ReleaseOrphans(m, Some(release));
      StartOrphans(m.(release := Some(release)), pid, waitFails);
    case Downloaded(pid) =>
      ReleaseOrphans(m, Some(s.point.release));
      StartOrphans(m.(release := Some(s.point.release)), pid, waitFails);
      RunBinaryOrphans(m.(release := Some(s.point.release)), pid);
    case GotRelease(_, _) => ReleaseOrphans(Terminate(m, waitFails), None);
    case Slept(pid) => StartOrphans(m, pid, waitFails);
    case Drop => CheckAliveOrphans(m);
    case _ =>
  }

  lemma CrashOrphans(m: Machine, pid: Pid)
    ensures |Orphans(m.(alive := m.alive - {pid}))| <= |Orphans(m)|
  {
    FewerOrNoMore(Orphans(m.(alive := m.alive - {pid})), Orphans(m));
  }

  lemma CheckAliveOrphans(m: Machine)
    ensures Orphans(CheckAlive(m).0) == Orphans(m) && (CheckAlive(m).1 ==> CheckAlive(m).0 == m)
  {
  }

  lemma ReleaseOrphans(m: Machine, release: Option<Checksum>)
    ensures Orphans(m.(release := release)) == Orphans(m)
  {
  }

  lemma StepKeepsRecorded(s: State, action: Action)
    requires Recorded(s) && Enabled(s, action.step)
    ensures Recorded(Apply(s, action))
  {
  }

  lemma {:induction false} RunKeepsGood(s: State, actions: seq<Action>)
    requires Recorded(s) && Allowed(s, actions)
    ensures Recorded(Run(s, actions))
    ensures |Orphans(Run(s, actions).machine)| <= |Orphans(s.machine)| + FailedWaits(actions)
    decreases |actions|
  {
    hide Recorded, Apply, Orphans, Enabled;
    if actions != [] {
      StepKeepsRecorded(s, actions[0]);
      StepOrphans(s, actions[0]);
      RunKeepsGood(Apply(s, actions[0]), actions[1..]);
    }
  }

  /**
   At every await point of every run, and after it, no more clients live than waits have failed, besides the
   recorded child, which was started from the recorded release; there is no child once the run has returned
   or the runner was dropped.
   */
  lemma LivingClientsBounded(actions: seq<Action>)
    requires Allowed(START, actions)
    ensures var m, point := Run(START, actions).machine, Run(START, actions).point;
            && |Orphans(m)| <= FailedWaits(actions) && FromRelease(m)
            && (point == Returned || point == Dropped ==> m.child == None && |m.alive| <= FailedWaits(actions))
  {
    hide Apply, Run, Allowed, FailedWaits, Enabled;
    RunKeepsGood(START, actions);
    var m := Run(START, actions).machine;
    assert m.child == None ==> m.alive.Keys == Orphans(m) && |m.alive| == |m.alive.Keys|;
  }

  /**
   At most one live client when every wait succeeds: all living processes are one and the same, it was
   started from the recorded release, and none is alive once the run has returned or the runner was dropped.
   */
  lemma AtMostOneClient(actions: seq<Action>, a: Pid, b: Pid)
    requires Allowed(START, actions) && FailedWaits(actions) == 0
    requires a in Run(START, actions).machine.alive && b in Run(START, actions).machine.alive
    ensures a == b && Run(START, actions).point != Returned && Run(START, actions).point != Dropped
    ensures Run(START, actions).machine.release == Some(Run(START, actions).machine.alive[a])
  {
    hide Apply, Run, Allowed, FailedWaits, Enabled;
    RunKeepsGood(START, actions);
    assert a !in Orphans(Run(START, actions).machine) && b !in Orphans(Run(START, actions).machine);
  }

  /** Whatever is alive is the recorded child, started from the recorded release. */
  ghost predicate OneClient(m: Machine) {
    forall pid :: pid in m.alive ==> m.child == Some(pid) && m.release == Some(m.alive[pid])
  }

  /** Whenever the updater goes to wait for a release, its recorded client has just been seen alive. */
  lemma LoopStartsWithLiveClient(s: State, action: Action)
    requires Recorded(s) && Enabled(s, action.step) && !action.step.Crash?
    requires Apply(s, action).point == AwaitRelease
    ensures var m := Apply(s, action).machine;
            m.child.Some? && m.child.value in m.alive && m.release == Some(m.alive[m.child.value])
  {
  }

  /** The first release is started from disk, or fetched first and then started. */
  lemma FirstStartExact(s: State, release: Checksum, pid: Pid, waitFails: bool)
    requires Recorded(s) && s.point == AwaitFirstRelease && pid !in s.machine.alive
    ensures var started := State(Machine(Some(pid), Some(release), s.machine.alive[pid := release]), AwaitRelease);
            var fetching := Apply(s, Action(GotFirstRelease(release, false, pid), waitFails));
            && Apply(s, Action(GotFirstRelease(release, true, pid), waitFails)) == started
            && Enabled(fetching, Downloaded(pid))
            && Apply(fetching, Action(Downloaded(pid), waitFails)) == started
  {
  }

  /** No answer and the release that runs already change nothing; any other release stops the client before it is fetched. */
  lemma UpdateExact(s: State, found: Option<Checksum>, waitFails: bool)
    requires s.point == AwaitRelease && s.machine.release.Some?
    ensures var s' := Apply(s, Action(GotRelease(found, false), waitFails));
            && (found.None? || found == s.machine.release ==> s' == State(s.machine, AwaitSleep))
            && (found.Some? && found != s.machine.release ==>
                  && s'.point == AwaitUpdate(found.value) && s'.machine.child == None && s'.machine.release == None
                  && (!waitFails ==> forall p :: p in s'.machine.alive <==> p in s.machine.alive && s.machine.child != Some(p)))
  {
  }

  /** A wait that fails leaves the old client running: exactly then an update puts a second one beside it. */
  lemma SecondClientIffWaitFails(s: State, current: Pid, release: Checksum, pid: Pid, waitFails: bool)
    requires s.point == AwaitRelease && s.machine.release.Some? && s.machine.release.value != release
    requires OneClient(s.machine) && s.machine.child == Some(current) && current in s.machine.alive
    requires pid !in s.machine.alive
    ensures var stopped := Apply(s, Action(GotRelease(Some(release), false), waitFails));
            && Enabled(stopped, Downloaded(pid))
            && var m := Apply(stopped, Action(Downloaded(pid), false)).machine;
               && (forall p :: p in m.alive <==> p == pid || (waitFails && p == current))
               && (OneClient(m) <==> !waitFails)
               && m.child == Some(pid) && m.release == Some(release) && m.alive[pid] == release
  {
    var stopped := Apply(s, Action(GotRelease(Some(release), false), waitFails));
    var m := Apply(stopped, Action(Downloaded(pid), false)).machine;
    forall p
      ensures p in m.alive <==> p == pid || (waitFails && p == current)
    {
      assert p in s.machine.alive ==> s.machine.child == Some(p);
    }
    if waitFails {
      assert current in m.alive && m.child != Some(current);
    }
  }
}
