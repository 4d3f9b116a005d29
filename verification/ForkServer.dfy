/**
  The fork-server protocol between the fuzzer (`run_target`, `handle_timeout`)
  and the instrumented target (`__afl_start_forkserver`), as an interleaved
  step relation.  Four parties take steps in any order: the fuzzer, its timer
  signal, the server, and the child (with the kernel delivering a pending
  SIGKILL at some later moment).

  Fields named `serial`, `round`, `forks`, `launches` and `stops` are history:
  no step of the protocol branches on them.
*/
module ForkServer {

  datatype Death = Exited(code: int) | Signaled(sig: nat)

  /** What `waitpid` can report. */
  datatype Status = HasStopped | HasDied(how: Death)

  const SIGKILL: nat := 9

  const U32: nat := 0x1_0000_0000

  /** `--cycle_cnt` on an unsigned 32-bit counter. */
  function Decremented(cycle: nat): (r: nat) {
    if cycle == 0 then U32 - 1 else cycle - 1
  }

  /** The number of rounds that one child serves when it calls the loop with `n`. */
  function RoundsPerChild(n: nat): (r: nat)
    ensures r > 0
  {
    if n == 0 then U32 else n
  }

  /** The kernel's view of a child that has not been waited for yet. */
  datatype RunState = Running | Halted(reported: bool) | Zombie(how: Death)

  datatype Child = Child(serial: nat, run: RunState, killed: bool, cycle: nat, stops: nat)

  /** The two kinds of four-byte word on the status pipe, with the child and round they are about. */
  datatype Word = PidWord(pid: int, serial: nat, round: nat) | StatusWord(status: Status, serial: nat, round: nat)

  datatype FuzzerPc = FReset | FRequest | FReadPid | FArm | FReadStatus | FClearPid | FDisarm | FReport | FConfused

  datatype ServerPc = SReadCmd | SReap | SLaunch | SWritePid | SWait | SWriteStatus | SAborted

  datatype Config = Config(persistent: bool, loopMax: nat)

  datatype State = State(
    // fuzzer
    fpc: FuzzerPc, childPid: int, timedOut: bool, prevTimedOut: bool, fStatus: Status, armed: bool,
    fRound: nat, pidSerial: nat, statusSerial: nat,
    // server
    spc: ServerPc, sPid: int, childStopped: bool, wasKilled: bool, sStatus: Status,
    sRound: nat, sSerial: nat, serverKilled: bool,
    // pipes and kernel
    ctl: seq<bool>, st: seq<Word>, procs: map<int, Child>,
    forks: nat, launches: nat
  )

  datatype Action =
    // fuzzer
    | Reset | Request | ReadPid | Arm | ReadStatus | ClearPid | Disarm | Report
    // timer
    | Fire
    // server
    | ReadCmd | Reap | Launch(pid: int) | WritePid | Wait | WriteStatus
    // kernel and child
    | DeliverKill(victim: int) | ChildStop(who: int) | ChildExit(who: int, how: Death)

  ghost predicate Init(s: State) {
    && s.fpc == FReset && s.childPid == -1 && !s.timedOut && !s.prevTimedOut && !s.armed
    && s.spc == SReadCmd && !s.childStopped && !s.serverKilled
    && s.ctl == [] && s.st == [] && s.procs == map[]
    && s.fRound == s.sRound == 0 && s.forks == s.launches == 0
  }

  /** SIGKILL becomes pending on a live process; it is lost on a zombie or an unused pid. */
  function SendKill(procs: map<int, Child>, pid: int): map<int, Child> {
    if pid in procs && !procs[pid].run.Zombie? then procs[pid := procs[pid].(killed := true)] else procs
  }

  /** SIGCONT wakes a halted process and does nothing else. */
  function SendCont(procs: map<int, Child>, pid: int): map<int, Child> {
    if pid in procs && procs[pid].run.Halted? then procs[pid := procs[pid].(run := Running)] else procs
  }

  /** Can `waitpid` on this pid return now? An unused pid makes it fail at once. */
  predicate WaitReturns(procs: map<int, Child>, pid: int, untraced: bool) {
    pid in procs ==>
      procs[pid].run.Zombie? || (untraced && procs[pid].run == Halted(false))
  }

  predicate Enabled(c: Config, s: State, a: Action) {
    match a
    case Reset => s.fpc == FReset
    case Request => s.fpc == FRequest
    case ReadPid => s.fpc == FReadPid && s.st != []
    case Arm => s.fpc == FArm
    case ReadStatus => s.fpc == FReadStatus && s.st != []
    case ClearPid => s.fpc == FClearPid
    case Disarm => s.fpc == FDisarm
    case Report => s.fpc == FReport
    case Fire => s.armed
    case ReadCmd => s.spc == SReadCmd && s.ctl != [] && !s.serverKilled
    case Reap => s.spc == SReap && WaitReturns(s.procs, s.sPid, false)
    case Launch(pid) => s.spc == SLaunch && (s.childStopped || (pid > 0 && pid !in s.procs))
    case WritePid => s.spc == SWritePid
    case Wait => s.spc == SWait && WaitReturns(s.procs, s.sPid, c.persistent)
    case WriteStatus => s.spc == SWriteStatus
    case DeliverKill(p) => p in s.procs && s.procs[p].killed && !s.procs[p].run.Zombie?
    case ChildStop(p) => p in s.procs && s.procs[p].run.Running?
    case ChildExit(p, _) => p in s.procs && s.procs[p].run.Running?
  }

  function Apply(c: Config, s: State, a: Action): State
    requires Enabled(c, s, a)
  {
    match a
    // run_target
    case Reset => s.(timedOut := false, fpc := FRequest)
    case Request => s.(ctl := s.ctl + [s.prevTimedOut], fRound := s.fRound + 1, fpc := FReadPid)
    case ReadPid =>
      var w := s.st[0];
      if w.PidWord? then s.(st := s.st[1..], childPid := w.pid, pidSerial := w.serial, fpc := FArm)
      else s.(st := s.st[1..], fpc := FConfused)
    case Arm => s.(armed := true, fpc := FReadStatus)
    case ReadStatus =>
      var w := s.st[0];
      if w.StatusWord? then s.(st := s.st[1..], fStatus := w.status, statusSerial := w.serial, fpc := FClearPid)
      else s.(st := s.st[1..], fpc := FConfused)
    case ClearPid => s.(childPid := if s.fStatus.HasStopped? then s.childPid else 0, fpc := FDisarm)
    case Disarm => s.(armed := false, fpc := FReport)
    case Report => s.(prevTimedOut := s.timedOut, fpc := FReset)
    // handle_timeout, at most once per arming
    case Fire =>
      if s.childPid > 0 then
        s.(armed := false, timedOut := true, procs := SendKill(s.procs, s.childPid))
      else if s.childPid == -1 then
        s.(armed := false, timedOut := true, serverKilled := true)
      else s.(armed := false)
    // __afl_start_forkserver
    case ReadCmd =>
      var killed := s.ctl[0];
      if s.childStopped && killed then
        s.(ctl := s.ctl[1..], wasKilled := killed, sRound := s.sRound + 1, childStopped := false, spc := SReap)
      else s.(ctl := s.ctl[1..], wasKilled := killed, sRound := s.sRound + 1, spc := SLaunch)
    case Reap =>
      if s.sPid in s.procs then s.(procs := s.procs - {s.sPid}, spc := SLaunch) else s.(spc := SAborted)
    case Launch(pid) =>
      if !s.childStopped then
        s.(procs := s.procs[pid := Child(s.forks, Running, false, c.loopMax, 0)],
           sPid := pid, sSerial := s.forks, forks := s.forks + 1, launches := s.launches + 1, spc := SWritePid)
      else
        s.(procs := SendCont(s.procs, s.sPid), childStopped := false, launches := s.launches + 1, spc := SWritePid)
    case WritePid => s.(st := s.st + [PidWord(s.sPid, s.sSerial, s.sRound)], spc := SWait)
    case Wait =>
      if s.sPid !in s.procs then s.(spc := SAborted)
      else
        var child := s.procs[s.sPid];
        if child.run.Zombie? then
          s.(procs := s.procs - {s.sPid}, sStatus := HasDied(child.run.how), spc := SWriteStatus)
        else
          s.(procs := s.procs[s.sPid := child.(run := Halted(true))], sStatus := HasStopped, childStopped := true,
             spc := SWriteStatus)
    case WriteStatus => s.(st := s.st + [StatusWord(s.sStatus, s.sSerial, s.sRound)], spc := SReadCmd)
    // kernel and child
    case DeliverKill(p) => s.(procs := s.procs[p := s.procs[p].(run := Zombie(Signaled(SIGKILL)))])
    case ChildStop(p) =>
      var child := s.procs[p];
      s.(procs := s.procs[p := child.(run := Halted(false), cycle := Decremented(child.cycle),
                                      stops := child.stops + 1)])
    case ChildExit(p, how) => s.(procs := s.procs[p := s.procs[p].(run := Zombie(how))])
  }

  // ---------------------------------------------------------------- invariant

  /** Where the two program counters and the two pipes can be relative to each other. */
  ghost predicate InStep(s: State) {
    match s.fpc
    case FReset | FRequest | FClearPid | FDisarm | FReport =>
      s.spc == SReadCmd && s.ctl == [] && s.st == [] && s.sRound == s.fRound
    case FReadPid =>
      || (s.spc == SReadCmd && s.ctl == [s.prevTimedOut] && s.st == [] && s.fRound == s.sRound + 1)
      || (&& s.ctl == [] && s.fRound == s.sRound
          && match s.spc
             case SReap | SLaunch | SWritePid => s.st == []
             case SWait | SWriteStatus => s.st == [PidWord(s.sPid, s.sSerial, s.sRound)]
             case SReadCmd =>
               s.st == [PidWord(s.sPid, s.sSerial, s.sRound), StatusWord(s.sStatus, s.sSerial, s.sRound)]
             case SAborted => false)
    case FArm | FReadStatus =>
      && s.ctl == [] && s.fRound == s.sRound
      && (match s.spc
          case SWait | SWriteStatus => s.st == []
          case SReadCmd => s.st == [StatusWord(s.sStatus, s.sSerial, s.sRound)]
          case _ => false)
    case FConfused => false
  }

  /** The fuzzer's own variables. */
  ghost predicate FuzzerOk(s: State) {
    && (s.armed ==> s.fpc.FReadStatus? || s.fpc.FClearPid? || s.fpc.FDisarm?)
    && (s.fpc.FArm? || s.fpc.FReadStatus? || s.fpc.FClearPid? ==>
          s.childPid == s.sPid && s.pidSerial == s.sSerial)
    && (s.fpc.FDisarm? || s.fpc.FReport? ==> s.childPid == if s.fStatus.HasStopped? then s.sPid else 0)
    && (s.fpc.FClearPid? || s.fpc.FDisarm? || s.fpc.FReport? ==>
          s.fStatus == s.sStatus && s.statusSerial == s.sSerial == s.pidSerial)
    && (s.fpc.FRequest? || s.fpc.FReadPid? || s.fpc.FArm? ==> !s.timedOut)
    && (s.fpc.FReset? || s.fpc.FRequest? || s.fRound > 0)
  }

  /** The flag that the server will be shown, once the fuzzer has stopped changing it. */
  function KillFlag(s: State): bool {
    if s.fpc.FReset? || s.fpc.FRequest? || s.fpc.FReadPid? then s.prevTimedOut else s.timedOut
  }

  /** A child that the server believes to be stopped. */
  ghost predicate StoppedChildOk(s: State, flag: bool) {
    && s.sPid in s.procs
    && !s.procs[s.sPid].run.Running?
    && (s.procs[s.sPid].run.Halted? ==> s.procs[s.sPid].run.reported)
    && (flag <==> s.procs[s.sPid].killed)
    && (s.procs[s.sPid].run.Zombie? ==> flag)
  }

  /** At most one unreaped child exists, and the server knows where it stands. */
  ghost predicate ChildOk(s: State) {
    && s.procs.Keys <= {s.sPid}
    && (s.sPid in s.procs ==> s.procs[s.sPid].serial == s.sSerial && s.sPid > 0)
    && match s.spc
       case SReadCmd =>
         && (!s.childStopped ==> s.procs == map[])
         && (s.childStopped ==> StoppedChildOk(s, if s.fpc.FReadPid? && s.st != [] then false else KillFlag(s)))
         && (s.sRound > 0 ==> (s.childStopped <==> s.sStatus.HasStopped?) && s.sPid > 0)
         && (s.sRound == 0 ==> !s.childStopped)
       case SReap =>
         && !s.childStopped && s.sPid in s.procs && s.procs[s.sPid].killed && !s.procs[s.sPid].run.Running?
       case SLaunch =>
         && (!s.childStopped ==> s.procs == map[])
         && (s.childStopped ==> StoppedChildOk(s, false))
       case SWritePid | SWait =>
         && !s.childStopped && s.sPid in s.procs && s.procs[s.sPid].run != Halted(true)
         && (s.procs[s.sPid].killed ==> s.fpc.FReadStatus? && s.timedOut)
         && (s.timedOut ==> s.procs[s.sPid].killed || s.procs[s.sPid].run.Zombie?)
       case SWriteStatus =>
         && s.sPid > 0
         && (s.childStopped <==> s.sStatus.HasStopped?)
         && (!s.childStopped ==> s.procs == map[])
         && (s.childStopped ==> StoppedChildOk(s, if s.fpc.FReadPid? then false else s.timedOut))
       case SAborted => false
  }

  ghost predicate Inv(s: State) {
    && InStep(s)
    && FuzzerOk(s)
    && ChildOk(s)
    && !s.serverKilled
    && (s.fpc.FReadStatus? && !s.armed ==> s.timedOut)
    && s.launches + (if s.spc.SReap? || s.spc.SLaunch? then 1 else 0) == s.sRound
  }

  lemma InitInv(s: State)
    requires Init(s)
    ensures Inv(s)
  {
  }

  predicate IsFuzzerStep(a: Action) {
    a.Reset? || a.Request? || a.ReadPid? || a.Arm? || a.ReadStatus? || a.ClearPid? || a.Disarm? || a.Report?
  }

  predicate IsServerStep(a: Action) {
    a.ReadCmd? || a.Reap? || a.Launch? || a.WritePid? || a.Wait? || a.WriteStatus?
  }

  lemma FuzzerStepKeepsInv(c: Config, s: State, a: Action)
    requires Inv(s) && Enabled(c, s, a) && IsFuzzerStep(a)
    ensures Inv(Apply(c, s, a))
  {
  }

  lemma TimerKeepsInv(c: Config, s: State)
    requires Inv(s) && Enabled(c, s, Fire)
    ensures Inv(Apply(c, s, Fire))
  {
  }

  lemma ServerStepKeepsInv(c: Config, s: State, a: Action)
    requires Inv(s) && Enabled(c, s, a) && IsServerStep(a)
    ensures Inv(Apply(c, s, a))
  {
  }

  lemma ChildStepKeepsInv(c: Config, s: State, a: Action)
    requires Inv(s) && Enabled(c, s, a) && (a.DeliverKill? || a.ChildStop? || a.ChildExit?)
    ensures Inv(Apply(c, s, a))
  {
  }

  lemma StepKeepsInv(c: Config, s: State, a: Action)
    requires Inv(s) && Enabled(c, s, a)
    ensures Inv(Apply(c, s, a))
  {
    if IsFuzzerStep(a) {
      FuzzerStepKeepsInv(c, s, a);
    } else if a.Fire? {
      TimerKeepsInv(c, s);
    } else if IsServerStep(a) {
      ServerStepKeepsInv(c, s, a);
    } else {
      ChildStepKeepsInv(c, s, a);
    }
  }

  // ---------------------------------------------------------------- runs

  ghost predicate IsRun(c: Config, trace: seq<State>, acts: seq<Action>) {
    && |trace| == |acts| + 1
    && Init(trace[0])
    && forall i :: 0 <= i < |acts| ==> Enabled(c, trace[i], acts[i]) && trace[i + 1] == Apply(c, trace[i], acts[i])
  }

  lemma {:induction false} RunKeepsInv(c: Config, trace: seq<State>, acts: seq<Action>, i: nat)
    requires IsRun(c, trace, acts) && i < |trace|
    ensures Inv(trace[i])
  {
    if i == 0 {
      InitInv(trace[0]);
    } else {
      RunKeepsInv(c, trace, acts, i - 1);
      StepKeepsInv(c, trace[i - 1], acts[i - 1]);
    }
  }

  /**
    Every step of every interleaving is safe: the server wakes only a child that
    is alive and stopped, forks only when it has no unreaped child, and never
    waits for a child it no longer has; the fuzzer reads in each round the pid
    and the status of the child that serves that round; the timer never signals
    the server, nor any child but this round's.
  */
  lemma {:induction false} EveryStepIsSafe(c: Config, trace: seq<State>, acts: seq<Action>, i: nat)
    requires IsRun(c, trace, acts) && i < |acts|
    ensures var s, a := trace[i], acts[i];
      && (a.Launch? && s.childStopped ==>
            s.sPid in s.procs && s.procs[s.sPid].run == Halted(true) && !s.procs[s.sPid].killed)
      && (a.Launch? && !s.childStopped ==> s.procs == map[])
      && (a.Reap? ==> s.sPid in s.procs && s.procs[s.sPid].killed)
      && (a.Wait? ==> s.sPid in s.procs)
      && (a.ReadPid? ==>
            s.st[0] == PidWord(s.sPid, s.sSerial, s.fRound) && s.sRound == s.fRound && s.sPid > 0)
      && (a.ReadStatus? ==>
            s.st[0] == StatusWord(s.sStatus, s.pidSerial, s.fRound) && s.sRound == s.fRound)
      && (a.Fire? && s.childPid <= 0 ==> s.childPid == 0)
      && (a.Fire? && s.childPid in s.procs
          ==> s.procs.Keys == {s.childPid} && s.procs[s.childPid].serial == s.pidSerial)
      && (a.Report? && s.fStatus.HasDied? ==> s.procs == map[])
      && (a.Report? && s.fStatus.HasStopped? ==>
            s.childPid in s.procs && s.procs[s.childPid].serial == s.pidSerial
            && (s.timedOut <==> s.procs[s.childPid].killed))
      && trace[i + 1].procs.Keys <= {trace[i + 1].sPid}
  {
    RunKeepsInv(c, trace, acts, i);
    RunKeepsInv(c, trace, acts, i + 1);
  }

  // ---------------------------------------------------------------- progress

  /**
    A step that some party other than the child itself can take.  It is the timer's only while the child runs on,
    or has stopped itself outside persistent mode.
  */
  ghost function NextMove(c: Config, s: State): (a: Action)
    requires Inv(s)
    ensures Enabled(c, s, a) && !a.ChildStop? && !a.ChildExit?
    ensures a.Fire? ==>
              && s.sPid in s.procs
              && (s.procs[s.sPid].run.Running? || (!c.persistent && s.procs[s.sPid].run.Halted?))
  {
    var serverMove :=
      match s.spc
      case SReadCmd => ReadCmd
      case SReap => if s.procs[s.sPid].run.Zombie? then Reap else DeliverKill(s.sPid)
      case SLaunch => Launch(1)
      case SWritePid => WritePid
      case SWait =>
        if WaitReturns(s.procs, s.sPid, c.persistent) then Wait
        else if s.procs[s.sPid].killed then DeliverKill(s.sPid) else Fire
      case SWriteStatus => WriteStatus
      case SAborted => WriteStatus;
    match s.fpc
    case FReset => Reset
    case FRequest => Request
    case FReadPid => if s.st != [] then ReadPid else serverMove
    case FArm => Arm
    case FReadStatus => if s.st != [] then ReadStatus else serverMove
    case FClearPid => ClearPid
    case FDisarm => Disarm
    case FReport => Report
    case FConfused => Report
  }

  function ServerRank(s: State): nat {
    match s.spc
    case SReadCmd => if s.fpc.FReset? || s.fpc.FRequest? || s.ctl != [] then 6 else 0
    case SReap => 5
    case SLaunch => 4
    case SWritePid => 3
    case SWait => 2
    case SWriteStatus => 1
    case SAborted => 0
  }

  function FuzzerRank(s: State): nat {
    match s.fpc
    case FReset => 8
    case FRequest => 7
    case FReadPid => 6
    case FArm => 5
    case FReadStatus => 4
    case FClearPid => 3
    case FDisarm => 2
    case FReport => 1
    case FConfused => 0
  }

  function TimerRank(s: State): nat {
    if s.armed || s.fpc.FReset? || s.fpc.FRequest? || s.fpc.FReadPid? || s.fpc.FArm? then 1 else 0
  }

  function ChildRank(s: State): nat {
    if s.sPid !in s.procs || s.procs[s.sPid].run.Zombie? then 0 else if s.procs[s.sPid].run.Halted? then 1 else 2
  }

  /** What is left to happen in the current round. */
  function RoundMeasure(s: State): nat {
    3 * ServerRank(s) + ChildRank(s) + FuzzerRank(s) + TimerRank(s)
  }

  const MAX_STEPS: nat := 29

  /** The step leaves the round less to do. */
  ghost predicate Shrinks(c: Config, s: State, a: Action)
    requires Enabled(c, s, a)
  {
    RoundMeasure(Apply(c, s, a)) < RoundMeasure(s) <= MAX_STEPS
  }

  lemma FuzzerStepShrinks(c: Config, s: State, a: Action)
    requires Inv(s) && Enabled(c, s, a) && IsFuzzerStep(a) && !a.Report?
    ensures Shrinks(c, s, a)
  {
  }

  lemma ServerStepShrinks(c: Config, s: State, a: Action)
    requires Inv(s) && Enabled(c, s, a) && IsServerStep(a)
    ensures Shrinks(c, s, a)
  {
  }

  lemma StepShrinksMeasure(c: Config, s: State, a: Action)
    requires Inv(s) && Enabled(c, s, a) && !a.Report?
    ensures Shrinks(c, s, a)
  {
    if IsFuzzerStep(a) {
      FuzzerStepShrinks(c, s, a);
    } else if IsServerStep(a) {
      ServerStepShrinks(c, s, a);
    }
  }

  ghost predicate NoReport(acts: seq<Action>, from: nat, to: nat)
    requires from <= to <= |acts|
  {
    forall i :: from <= i < to ==> !acts[i].Report?
  }

  lemma OneStepLess(c: Config, trace: seq<State>, acts: seq<Action>, i: nat)
    requires IsRun(c, trace, acts) && i < |acts| && !acts[i].Report?
    ensures RoundMeasure(trace[i + 1]) < RoundMeasure(trace[i]) <= MAX_STEPS
  {
    RunKeepsInv(c, trace, acts, i);
    StepShrinksMeasure(c, trace[i], acts[i]);
  }

  ghost predicate Falls(m: seq<nat>, from: nat, to: nat)
    requires from <= to < |m|
  {
    forall i :: from <= i < to ==> m[i + 1] < m[i] <= MAX_STEPS
  }

  lemma {:induction false} FallsOften(m: seq<nat>, from: nat, to: nat)
    requires from <= to < |m| && Falls(m, from, to)
    ensures m[to] + (to - from) <= m[from]
  {
    if from < to {
      FallsOften(m, from, to - 1);
      assert m[to - 1 + 1] < m[to - 1];
    }
  }

  ghost function Measures(trace: seq<State>): (m: seq<nat>)
    ensures |m| == |trace|
  {
    seq(|trace|, i requires 0 <= i < |trace| => RoundMeasure(trace[i]))
  }

  /** Whatever the scheduler does, a round is over after at most MAX_STEPS steps of all parties together. */
  lemma RoundsAreBounded(c: Config, trace: seq<State>, acts: seq<Action>, from: nat, to: nat)
    requires IsRun(c, trace, acts) && from <= to <= |acts| && NoReport(acts, from, to)
    ensures to - from <= MAX_STEPS
  {
    var m := Measures(trace);
    forall i | from <= i < to ensures m[i + 1] < m[i] <= MAX_STEPS {
      OneStepLess(c, trace, acts, i);
    }
    FallsOften(m, from, to);
    if from < to {
      assert m[from] <= MAX_STEPS;
    }
  }

  // ---------------------------------------------------------------- cost of persistent mode

  /** A child that follows `__afl_persistent_loop(loopMax)`, is never timed out and never crashes. */
  predicate WellBehaved(c: Config, s: State, a: Action)
    requires Enabled(c, s, a)
  {
    match a
    case Fire => false
    case ChildStop(p) => Decremented(s.procs[p].cycle) != 0
    case ChildExit(p, how) => Decremented(s.procs[p].cycle) == 0 && how.Exited?
    case _ => true
  }

  /** Rounds that the current child will still be started for. */
  function RoundsLeft(s: State): int {
    if s.sPid !in s.procs then 0
    else
      match s.procs[s.sPid].run
      case Running => RoundsPerChild(s.procs[s.sPid].cycle) - 1
      case Halted(_) => RoundsPerChild(s.procs[s.sPid].cycle)
      case Zombie(_) => 0
  }

  ghost predicate Ledger(c: Config, s: State) {
    && !s.timedOut && !s.prevTimedOut
    && s.launches + RoundsLeft(s) == s.forks * RoundsPerChild(c.loopMax)
    && (s.sPid in s.procs ==>
          var child := s.procs[s.sPid];
          && !child.killed
          && (child.run.Zombie? ==> child.run.how.Exited? && child.stops == RoundsPerChild(c.loopMax) - 1)
          && (!child.run.Zombie? ==> child.stops + RoundsPerChild(child.cycle) == RoundsPerChild(c.loopMax))
          && (child.run.Halted? ==> child.cycle != 0 && child.stops > 0))
  }

  lemma FuzzerStepKeepsLedger(c: Config, s: State, a: Action)
    requires Inv(s) && Ledger(c, s) && Enabled(c, s, a) && WellBehaved(c, s, a) && IsFuzzerStep(a)
    ensures Ledger(c, Apply(c, s, a))
  {
  }

  lemma ServerStepKeepsLedger(c: Config, s: State, a: Action)
    requires Inv(s) && Ledger(c, s) && Enabled(c, s, a) && WellBehaved(c, s, a) && IsServerStep(a) && !a.Launch?
    ensures Ledger(c, Apply(c, s, a))
  {
  }

  lemma LaunchKeepsLedger(c: Config, s: State, pid: int)
    requires Inv(s) && Ledger(c, s) && Enabled(c, s, Launch(pid))
    ensures Ledger(c, Apply(c, s, Launch(pid)))
  {
    var n := RoundsPerChild(c.loopMax);
    assert (s.forks + 1) * n == s.forks * n + n;
  }

  lemma ChildStepKeepsLedger(c: Config, s: State, a: Action)
    requires Inv(s) && Ledger(c, s) && Enabled(c, s, a) && WellBehaved(c, s, a)
    requires (a.DeliverKill? || a.ChildStop? || a.ChildExit?)
    ensures Ledger(c, Apply(c, s, a))
  {
  }

  lemma StepKeepsLedger(c: Config, s: State, a: Action)
    requires Inv(s) && Ledger(c, s) && Enabled(c, s, a) && WellBehaved(c, s, a)
    ensures Ledger(c, Apply(c, s, a))
  {
    if IsFuzzerStep(a) {
      FuzzerStepKeepsLedger(c, s, a);
    } else if a.Launch? {
      LaunchKeepsLedger(c, s, a.pid);
    } else if IsServerStep(a) {
      ServerStepKeepsLedger(c, s, a);
    } else {
      ChildStepKeepsLedger(c, s, a);
    }
  }

  lemma {:induction false} RunKeepsLedger(c: Config, trace: seq<State>, acts: seq<Action>, i: nat)
    requires IsRun(c, trace, acts) && i < |trace|
    requires forall k :: 0 <= k < |acts| ==> WellBehaved(c, trace[k], acts[k])
    ensures Ledger(c, trace[i])
  {
    if i > 0 {
      RunKeepsLedger(c, trace, acts, i - 1);
      RunKeepsInv(c, trace, acts, i - 1);
      StepKeepsLedger(c, trace[i - 1], acts[i - 1]);
    }
  }

  lemma CeilingDivision(total: nat, spare: nat, forks: nat, n: nat)
    requires n > 0 && spare < n && total + spare == forks * n
    ensures forks == (total + n - 1) / n
  {
    assert total + n - 1 == forks * n + (n - 1 - spare);
    DivisionIsUnique(total + n - 1, n, forks, n - 1 - spare);
  }

  lemma DivisionIsUnique(x: nat, n: nat, q: nat, r: nat)
    requires n > 0 && r < n && x == q * n + r
    ensures x / n == q
  {
    var d := x / n - q;
    assert d * n == (x / n) * n - q * n;
    assert d * n < n && d * n + n > 0;
  }

  /**
    Over any run of well-behaved persistent children, each child that ends has
    stopped itself exactly n - 1 times and then exits, and the server has forked
    ceil(N / n) times for the N rounds it has launched (n = 0 counts as 2^32).
  */
  lemma {:induction false} ForksAreRoundsOverN(c: Config, trace: seq<State>, acts: seq<Action>, i: nat)
    requires IsRun(c, trace, acts) && i < |trace|
    requires forall k :: 0 <= k < |acts| ==> WellBehaved(c, trace[k], acts[k])
    ensures var s, n := trace[i], if c.loopMax == 0 then 0x1_0000_0000 else c.loopMax;
      && s.forks == (s.launches + n - 1) / n
      && (s.fpc == FReset ==> s.launches == s.fRound)
      && (i < |acts| && acts[i].ChildExit? ==> s.procs[acts[i].who].stops == n - 1)
      && (i < |acts| && acts[i].ChildStop? ==> s.procs[acts[i].who].stops < n - 1)
  {
    var s, n := trace[i], RoundsPerChild(c.loopMax);
    RunKeepsInv(c, trace, acts, i);
    RunKeepsLedger(c, trace, acts, i);
    CeilingDivision(s.launches, RoundsLeft(s), s.forks, n);
  }

  // ---------------------------------------------------------------- the child's side

  /** The static variables of the run-time linked into the target. */
  class LoopRuntime {
    const isPersistent: bool
    var firstPass: bool
    var cycleCnt: nat
    var tracing: bool  // does __afl_area_ptr still point at the shared map?

    constructor (persistent: bool)
      ensures isPersistent == persistent && firstPass && tracing && cycleCnt == 0
    {
      isPersistent := persistent;
      firstPass, tracing, cycleCnt := true, true, 0;
    }

    /** `__afl_persistent_loop`: does the loop body run again, and did the child stop itself first? */
    method Loop(maxCnt: nat) returns (again: bool, stopped: bool)
      requires maxCnt < U32 && cycleCnt < U32
      modifies this
      ensures !firstPass && cycleCnt < U32
      ensures old(firstPass) ==> again && !stopped && cycleCnt == maxCnt && tracing == old(tracing)
      ensures !old(firstPass) && isPersistent ==>
                && cycleCnt == Decremented(old(cycleCnt))
                && (again <==> cycleCnt != 0) && stopped == again
                && tracing == (old(tracing) && again)
      ensures !old(firstPass) && !isPersistent ==>
                !again && !stopped && cycleCnt == old(cycleCnt) && tracing == old(tracing)
    {
      if firstPass {
        cycleCnt := maxCnt;
        firstPass := false;
        return true, false;
      }
      if isPersistent {
        cycleCnt := if cycleCnt == 0 then U32 - 1 else cycleCnt - 1;
        if cycleCnt != 0 {
          return true, true;
        } else {
          tracing := false;
        }
      }
      return false, false;
    }
  }

  /** The target's `while (__AFL_LOOP(n)) body;` and what follows it. */
  method RunTarget(persistent: bool, n: nat) returns (bodies: nat, stops: nat)
    requires n < U32
    ensures persistent ==> bodies == (if n == 0 then 0x1_0000_0000 else n) && stops == bodies - 1
    ensures !persistent ==> bodies == 1 && stops == 0
  {
    var rt := new LoopRuntime(persistent);
    var again, stopped := rt.Loop(n);
    bodies, stops := 0, 0;
    while again
      invariant rt.isPersistent == persistent && !rt.firstPass && rt.cycleCnt < U32 && fresh(rt)
      invariant persistent && again ==>
                  stops == bodies && bodies + RoundsPerChild(rt.cycleCnt) == RoundsPerChild(n)
      invariant persistent && !again ==> bodies == RoundsPerChild(n) && stops == bodies - 1
      invariant !persistent ==> stops == 0 && bodies == if again then 0 else 1
      invariant again && bodies > 0 ==> rt.cycleCnt > 0
      decreases again, RoundsPerChild(rt.cycleCnt)
    {
      bodies := bodies + 1;
      again, stopped := rt.Loop(n);
      if stopped {
        stops := stops + 1;
      }
    }
  }
}
