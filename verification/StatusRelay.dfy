/**
  What the fuzzer is told about a run: the status word it reads, and the outcome that
  `run_target` makes of it, in terms of what this round's child did.
*/
module StatusRelay {
  import opened ForkServer

  const MSAN_ERROR: int := 86

  datatype Outcome = FaultNone | FaultTimeout | FaultCrash

  /** The end of `run_target`. */
  function OutcomeOf(usesAsan: bool, status: Status, timedOut: bool): Outcome {
    match status
    case HasStopped => FaultNone
    case HasDied(Signaled(sig)) => if timedOut && sig == SIGKILL then FaultTimeout else FaultCrash
    case HasDied(Exited(code)) => if usesAsan && code % 256 == MSAN_ERROR then FaultCrash else FaultNone
  }

  predicate IsOf(a: Action, pid: int) {
    match a
    case DeliverKill(p) => p == pid
    case ChildStop(p) => p == pid
    case ChildExit(p, _) => p == pid
    case _ => false
  }

  /** The state in which such a step leaves the child. */
  predicate Leaves(a: Action, run: RunState) {
    match a
    case ChildStop(_) => run == Halted(false)
    case ChildExit(_, how) => run == Zombie(how)
    case DeliverKill(_) => run == Zombie(Signaled(9))
    case _ => false
  }

  /** The status that tells of such a step. */
  predicate Tells(status: Status, a: Action) {
    match a
    case ChildStop(_) => status == HasStopped
    case ChildExit(_, how) => status == HasDied(how)
    case DeliverKill(_) => status == HasDied(Signaled(9))
    case _ => false
  }

  /** Step `l` is the launch of the round that is under way before step `i`. */
  ghost predicate IsThisLaunch(acts: seq<Action>, l: nat, i: nat) {
    && l < i <= |acts| && acts[l].Launch?
    && forall m :: l < m < i ==> !acts[m].Launch? && !acts[m].Request?
  }

  /** Step `k` is the last that process `pid` took before step `i`. */
  ghost predicate IsLastOf(acts: seq<Action>, pid: int, k: nat, i: nat) {
    && k < i <= |acts| && IsOf(acts[k], pid)
    && forall m :: k < m < i ==> !IsOf(acts[m], pid)
  }

  ghost predicate IsLastWait(acts: seq<Action>, j: nat, i: nat) {
    j < i <= |acts| && acts[j].Wait? && forall m :: j < m < i ==> !acts[m].Wait?
  }

  ghost predicate IsLastReset(acts: seq<Action>, r: nat, i: nat) {
    r < i <= |acts| && acts[r].Reset? && forall m :: r < m < i ==> !acts[m].Reset?
  }

  // ---------------------------------------------------------------- between launch and wait

  /** The child has been launched; `k` is the last step it took since, or `l` if it took none. */
  ghost predicate Underway(trace: seq<State>, acts: seq<Action>, i: nat, l: nat, k: nat) {
    && i < |trace| == |acts| + 1 && IsThisLaunch(acts, l, i)
    && var s := trace[i];
    && s.sPid in s.procs
    && (k == l ==> s.procs[s.sPid].run.Running? && forall m :: l < m < i ==> !IsOf(acts[m], s.sPid))
    && (k != l ==>
          l < k && IsLastOf(acts, s.sPid, k, i) && Leaves(acts[k], s.procs[s.sPid].run) && Belongs(trace, k, s))
    && (acts[k].DeliverKill? ==> s.timedOut)
  }

  /** Step `k` was taken by the child that the server is serving. */
  ghost predicate Belongs(trace: seq<State>, k: nat, s: State) {
    k < |trace| && s.sPid in trace[k].procs && trace[k].procs[s.sPid].serial == s.sSerial
  }

  /** The child was waited for at `j`, and its status tells of its last step `k`. */
  ghost predicate Settled(trace: seq<State>, acts: seq<Action>, i: nat, l: nat, k: nat, j: nat) {
    && i < |trace| == |acts| + 1 && IsThisLaunch(acts, l, i)
    && var s := trace[i];
    && l < k && IsLastOf(acts, s.sPid, k, j) && IsLastWait(acts, j, i)
    && trace[j].sPid == s.sPid && Tells(s.sStatus, acts[k]) && Belongs(trace, k, s)
    && (acts[k].DeliverKill? ==> s.timedOut)
  }

  predicate IsWaiting(s: State) { s.spc.SWritePid? || s.spc.SWait? }

  /** The server has this round's status. */
  predicate HasStatus(s: State) {
    || s.spc.SWriteStatus?
    || (s.spc.SReadCmd? && s.ctl == [] && !s.fpc.FReset? && !s.fpc.FRequest?)
  }

  ghost predicate Trailed(trace: seq<State>, acts: seq<Action>, i: nat, l: nat, k: nat, j: nat)
    requires i < |trace|
  {
    && (IsWaiting(trace[i]) ==> Underway(trace, acts, i, l, k))
    && (HasStatus(trace[i]) ==> Settled(trace, acts, i, l, k, j))
  }

  lemma LaunchTrails(c: Config, trace: seq<State>, acts: seq<Action>, i: nat)
    requires IsRun(c, trace, acts) && i < |acts| && acts[i].Launch?
    ensures Trailed(trace, acts, i + 1, i, i, i)
  {
    RunKeepsInv(c, trace, acts, i);
  }

  lemma WaitTrails(c: Config, trace: seq<State>, acts: seq<Action>, i: nat, l: nat, k: nat, j: nat)
    requires IsRun(c, trace, acts) && i < |acts| && acts[i].Wait? && Trailed(trace, acts, i, l, k, j)
    ensures Trailed(trace, acts, i + 1, l, k, i)
  {
    RunKeepsInv(c, trace, acts, i);
  }

  /** Nothing changes about the child that the server is serving, nor about what is known of it. */
  ghost predicate SameChild(s: State, after: State) {
    after.sPid == s.sPid && after.sSerial == s.sSerial && (s.timedOut ==> after.timedOut)
  }

  ghost predicate KeepsChild(s: State, a: Action, after: State) {
    && (IsWaiting(after) ==>
          && IsWaiting(s) && SameChild(s, after) && !a.Request?
          && s.sPid in s.procs && s.sPid in after.procs && after.procs[s.sPid].run == s.procs[s.sPid].run)
    && (HasStatus(after) ==> HasStatus(s) && SameChild(s, after) && after.sStatus == s.sStatus && !a.Request?)
  }

  predicate IsChildStep(a: Action) { a.DeliverKill? || a.ChildStop? || a.ChildExit? }

  lemma OthersKeepChild(c: Config, s: State, a: Action)
    requires Inv(s) && Enabled(c, s, a) && !IsChildStep(a) && !a.Launch? && !a.Wait?
    ensures KeepsChild(s, a, Apply(c, s, a))
  {
  }

  /** A step of the child while it is served. */
  ghost predicate ChildMoves(s: State, a: Action, after: State) {
    && (IsWaiting(after) <==> IsWaiting(s)) && (HasStatus(after) <==> HasStatus(s))
    && SameChild(s, after) && after.sStatus == s.sStatus
    && (IsWaiting(s) ==>
          && IsOf(a, s.sPid) && s.sPid in s.procs && s.procs[s.sPid].serial == s.sSerial
          && s.sPid in after.procs && Leaves(a, after.procs[s.sPid].run)
          && (a.DeliverKill? ==> s.timedOut))
  }

  lemma ChildStepMoves(c: Config, s: State, a: Action)
    requires Inv(s) && Enabled(c, s, a) && IsChildStep(a)
    ensures ChildMoves(s, a, Apply(c, s, a))
  {
  }

  lemma SettledStays(trace: seq<State>, acts: seq<Action>, i: nat, l: nat, k: nat, j: nat)
    requires i < |acts| == |trace| - 1 && Settled(trace, acts, i, l, k, j)
    requires SameChild(trace[i], trace[i + 1]) && trace[i + 1].sStatus == trace[i].sStatus
    requires !acts[i].Request? && !acts[i].Launch? && !acts[i].Wait?
    ensures Settled(trace, acts, i + 1, l, k, j)
  {
  }

  lemma UnderwayStays(trace: seq<State>, acts: seq<Action>, i: nat, l: nat, k: nat)
    requires i < |acts| == |trace| - 1 && Underway(trace, acts, i, l, k)
    requires KeepsChild(trace[i], acts[i], trace[i + 1]) && IsWaiting(trace[i + 1])
    requires !IsChildStep(acts[i]) && !acts[i].Launch?
    ensures Underway(trace, acts, i + 1, l, k)
  {
  }

  lemma ChildTrails(trace: seq<State>, acts: seq<Action>, i: nat, l: nat, k: nat, j: nat, k': nat)
    requires i < |acts| == |trace| - 1 && Trailed(trace, acts, i, l, k, j) && IsChildStep(acts[i])
    requires ChildMoves(trace[i], acts[i], trace[i + 1])
    requires k' == if IsWaiting(trace[i]) then i else k
    ensures Trailed(trace, acts, i + 1, l, k', j)
  {
    if HasStatus(trace[i]) {
      SettledStays(trace, acts, i, l, k, j);
    }
  }

  lemma OthersTrail(trace: seq<State>, acts: seq<Action>, i: nat, l: nat, k: nat, j: nat)
    requires i < |acts| == |trace| - 1 && Trailed(trace, acts, i, l, k, j)
    requires KeepsChild(trace[i], acts[i], trace[i + 1])
    requires !IsChildStep(acts[i]) && !acts[i].Launch? && !acts[i].Wait?
    ensures Trailed(trace, acts, i + 1, l, k, j)
  {
    if IsWaiting(trace[i + 1]) {
      UnderwayStays(trace, acts, i, l, k);
    }
    if HasStatus(trace[i + 1]) {
      SettledStays(trace, acts, i, l, k, j);
    }
  }

  /** One step more. */
  lemma TrailGrows(c: Config, trace: seq<State>, acts: seq<Action>, i: nat, l: nat, k: nat, j: nat)
    returns (l': nat, k': nat, j': nat)
    requires IsRun(c, trace, acts) && i < |acts| && Trailed(trace, acts, i, l, k, j)
    ensures Trailed(trace, acts, i + 1, l', k', j')
  {
    l', k', j' := l, k, j;
    if acts[i].Launch? {
      LaunchTrails(c, trace, acts, i);
      l', k', j' := i, i, i;
    } else if acts[i].Wait? {
      WaitTrails(c, trace, acts, i, l, k, j);
      j' := i;
    } else {
      RunKeepsInv(c, trace, acts, i);
      if IsChildStep(acts[i]) {
        k' := if IsWaiting(trace[i]) then i else k;
        ChildStepMoves(c, trace[i], acts[i]);
        ChildTrails(trace, acts, i, l, k, j, k');
      } else {
        OthersKeepChild(c, trace[i], acts[i]);
        OthersTrail(trace, acts, i, l, k, j);
      }
    }
  }

  /** The launch of the round, the last step of the child before the wait, and the wait. */
  lemma {:induction false} Trail(c: Config, trace: seq<State>, acts: seq<Action>, i: nat)
    returns (l: nat, k: nat, j: nat)
    requires IsRun(c, trace, acts) && i < |trace|
    ensures Trailed(trace, acts, i, l, k, j)
  {
    if i == 0 {
      l, k, j := 0, 0, 0;
    } else {
      l, k, j := Trail(c, trace, acts, i - 1);
      l, k, j := TrailGrows(c, trace, acts, i - 1, l, k, j);
    }
  }

  /**
    What is read in a round, and in which order it came about: `l` launched the child,
    `k` is the last step that this child took before the server waited for it at `j`.
  */
  ghost predicate IsRelayed(trace: seq<State>, acts: seq<Action>, i: nat, l: nat, k: nat, j: nat)
    requires i < |acts| == |trace| - 1
  {
    && l < k < j < i && IsThisLaunch(acts, l, i) && IsLastWait(acts, j, i)
    && var pid := trace[i].childPid;
    && IsLastOf(acts, pid, k, j)
    && pid in trace[k].procs && trace[k].procs[pid].serial == trace[i].pidSerial
  }

  /**
    In every run, the status read in a round is what this round's child last did: the
    way it ended if it ended, by its own doing or by a signal that was pending, and that
    it stopped if it stopped and nothing ended it before the server waited.
  */
  lemma StatusIsOfTheChild(c: Config, trace: seq<State>, acts: seq<Action>, i: nat) returns (l: nat, k: nat, j: nat)
    requires IsRun(c, trace, acts) && i < |acts| && acts[i].ReadStatus?
    ensures IsRelayed(trace, acts, i, l, k, j)
    ensures match acts[k]
            case ChildExit(_, how) => trace[i + 1].fStatus == HasDied(how)
            case DeliverKill(_) => trace[i + 1].fStatus == HasDied(Signaled(9))
            case ChildStop(_) => trace[i + 1].fStatus == HasStopped
            case _ => false
  {
    RunKeepsInv(c, trace, acts, i);
    l, k, j := Trail(c, trace, acts, i);
  }

  /** The server's wait is over exactly when this round's child has ended or, in persistent mode, stopped itself. */
  lemma WaitIsOver(c: Config, trace: seq<State>, acts: seq<Action>, i: nat) returns (l: nat, k: nat)
    requires IsRun(c, trace, acts) && i < |trace| && trace[i].spc.SWait?
    ensures IsThisLaunch(acts, l, i) && l <= k < i
    ensures k == l ==> forall m :: l < m < i ==> !IsOf(acts[m], trace[i].sPid)
    ensures k > l ==> IsLastOf(acts, trace[i].sPid, k, i)
    ensures Enabled(c, trace[i], Wait)
       <==> k > l && (acts[k].ChildExit? || acts[k].DeliverKill? || (c.persistent && acts[k].ChildStop?))
  {
    var j;
    RunKeepsInv(c, trace, acts, i);
    l, k, j := Trail(c, trace, acts, i);
  }

  // ---------------------------------------------------------------- the timeout

  /** The timer has fired at a child since step `r`. */
  ghost predicate HasFired(trace: seq<State>, acts: seq<Action>, r: nat, i: nat)
    requires i <= |acts| == |trace| - 1
  {
    exists m :: r < m < i && acts[m].Fire? && trace[m].childPid > 0
  }

  /** What a step does to the flag of the handler. */
  lemma FlagStep(c: Config, s: State, a: Action)
    requires Inv(s) && Enabled(c, s, a)
    ensures var after := Apply(c, s, a);
      && (after.timedOut <==> !a.Reset? && (s.timedOut || (a.Fire? && s.childPid > 0)))
      && (after.fpc.FReset? <==> a.Report? || (s.fpc.FReset? && !a.Reset?))
      && (after.fpc.FRequest? <==> a.Reset? || (s.fpc.FRequest? && !a.Request?))
      && (a.Reset? ==> s.fpc.FReset?)
  {
  }

  ghost predicate HasRequested(acts: seq<Action>, r: nat, i: nat)
    requires i <= |acts|
  {
    exists q :: r < q < i && acts[q].Request?
  }

  ghost predicate IsFlagged(trace: seq<State>, acts: seq<Action>, r: nat, i: nat)
    requires i <= |acts| == |trace| - 1
  {
    && IsLastReset(acts, r, i)
    && (trace[i].timedOut <==> HasFired(trace, acts, r, i))
    && (trace[i].fpc.FRequest? || HasRequested(acts, r, i))
  }

  lemma FlagGrows(c: Config, trace: seq<State>, acts: seq<Action>, r: nat, i: nat)
    requires IsRun(c, trace, acts) && i < |acts| && IsFlagged(trace, acts, r, i)
    requires !acts[i].Reset?
    ensures IsFlagged(trace, acts, r, i + 1)
  {
    RunKeepsInv(c, trace, acts, i);
    FlagStep(c, trace[i], acts[i]);
    assert acts[i].Request? ==> HasRequested(acts, r, i + 1);
  }

  lemma FlagStarts(c: Config, trace: seq<State>, acts: seq<Action>, r: nat)
    requires IsRun(c, trace, acts) && r < |acts| && acts[r].Reset?
    ensures IsFlagged(trace, acts, r, r + 1)
  {
    RunKeepsInv(c, trace, acts, r);
    FlagStep(c, trace[r], acts[r]);
  }

  /** The flag of the handler is set exactly when the timer fired at a child in this round. */
  lemma {:induction false} FlagMeansFired(c: Config, trace: seq<State>, acts: seq<Action>, i: nat) returns (r: nat)
    requires IsRun(c, trace, acts) && i < |trace| && !trace[i].fpc.FReset?
    ensures IsFlagged(trace, acts, r, i)
  {
    var p := i - 1;
    RunKeepsInv(c, trace, acts, p);
    FlagStep(c, trace[p], acts[p]);
    if acts[p].Reset? {
      r := p;
      FlagStarts(c, trace, acts, r);
    } else {
      r := FlagMeansFired(c, trace, acts, p);
      FlagGrows(c, trace, acts, r, p);
    }
  }

  ghost predicate EndedBySignal(a: Action) {
    a.DeliverKill? || (a.ChildExit? && a.how.Signaled?)
  }

  /**
    The outcome of every round of every run.  It is a timeout exactly when the timer fired at this round's child
    and SIGKILL ended it, a crash exactly when any other signal ended it (or the exit code that stands for one),
    and a SIGKILL that was pending always counts as a timeout.
  */
  lemma OutcomeIsOfTheChild(c: Config, trace: seq<State>, acts: seq<Action>, i: nat, usesAsan: bool)
    returns (r: nat, l: nat, k: nat, j: nat)
    requires IsRun(c, trace, acts) && i < |acts| && acts[i].Report?
    ensures IsLastReset(acts, r, i) && r < l < k < j < i && IsThisLaunch(acts, l, i) && IsLastWait(acts, j, i)
    ensures IsLastOf(acts, trace[j].sPid, k, j)
    ensures var end, fired, killed := acts[k], HasFired(trace, acts, r, i), EndedBySignal(acts[k]);
            var byKill := end.DeliverKill? || (end.ChildExit? && end.how == Signaled(9));
            var outcome := OutcomeOf(usesAsan, trace[i].fStatus, trace[i].timedOut);
      && (outcome == FaultTimeout <==> byKill && fired)
      && (outcome == FaultCrash <==>
          (killed && !(byKill && fired)) || (usesAsan && end.ChildExit? && end.how.Exited? && end.how.code % 256 == 86))
      && (end.DeliverKill? ==> fired)
  {
    RunKeepsInv(c, trace, acts, i);
    l, k, j := Trail(c, trace, acts, i);
    r := FlagMeansFired(c, trace, acts, i);
  }
}
