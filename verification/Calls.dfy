/** What the calls of the SIGCHLD protocol answer, over whole runs: each answer
    is traced back to the moment of the run that decided it. */
module Calls {
  import opened Common
  import opened Sigchld

  // ----- Moments of a run -----

  lemma {:induction false} RunPrefix(s: State, actions: seq<Action>, i: nat)
    requires Run(s, actions) && i <= |actions|
    ensures Run(s, actions[..i])
    decreases |actions|
  {
    if i == |actions| {
      assert actions[..i] == actions;
    } else {
      var n := |actions| - 1;
      RunPrefix(s, actions[..n], i);
      assert actions[..n][..i] == actions[..i];
    }
  }

  /** The state before action i. */
  ghost function At(s: State, actions: seq<Action>, i: nat): State
    requires Run(s, actions) && i <= |actions|
  {
    RunPrefix(s, actions, i);
    After(s, actions[..i])
  }

  lemma AtNext(s: State, actions: seq<Action>, i: nat)
    requires Run(s, actions) && i < |actions|
    ensures Enabled(At(s, actions, i), actions[i]) && At(s, actions, i + 1) == Apply(At(s, actions, i), actions[i])
  {
    RunPrefix(s, actions, i + 1);
    assert actions[..i + 1][..i] == actions[..i] && actions[..i + 1][i] == actions[i];
  }

  lemma AtEnds(s: State, actions: seq<Action>)
    requires Run(s, actions)
    ensures At(s, actions, 0) == s && At(s, actions, |actions|) == After(s, actions)
  {
    assert actions[..|actions|] == actions && actions[..0] == [];
  }

  lemma InvAt(s: State, actions: seq<Action>, i: nat)
    requires Init(s) && Run(s, actions) && i <= |actions|
    ensures Inv(At(s, actions, i))
  {
    InitInv(s);
    RunPrefix(s, actions, i);
    RunKeeps(s, actions[..i]);
  }

  /** What is so at moment n, and was not at the start, became so at some moment
      and was so ever since. */
  lemma {:induction false} Since(s: State, actions: seq<Action>, p: State -> bool, n: nat) returns (i: nat)
    requires Run(s, actions) && n <= |actions| && !p(s) && p(At(s, actions, n))
    ensures i < n && !p(At(s, actions, i)) && forall j | i < j <= n :: p(At(s, actions, j))
  {
    AtEnds(s, actions);
    if p(At(s, actions, n - 1)) { i := Since(s, actions, p, n - 1); } else { i := n - 1; }
  }

  /** The moment since when it is so. */
  lemma Moment(s: State, actions: seq<Action>, p: State -> bool) returns (i: nat)
    requires Run(s, actions) && !p(s) && p(After(s, actions))
    ensures i < |actions| && !p(At(s, actions, i)) && p(At(s, actions, i + 1))
    ensures forall j | i < j <= |actions| :: p(At(s, actions, j))
  {
    AtEnds(s, actions);
    i := Since(s, actions, p, |actions|);
  }

  // ----- The status of a child -----

  /** The status of a child that has exited. */
  function Settled(y: Sys, pid: Pid): Option<WaitStatus> {
    if pid in y.children && !y.children[pid].Running? then Some(y.children[pid].status) else None
  }

  lemma WaitpidSettled(y: Sys, q: Pid, pid: Pid)
    ensures Settled(Waitpid(y, q).0, pid) == Settled(y, pid)
  {
  }

  lemma ReapSettled(y: Sys, q: Pid, pid: Pid)
    ensures Settled(Reap(y, q).0, pid) == Settled(y, pid)
  {
    WaitpidSettled(y, q, pid);
  }

  lemma ProbeSettled(y: Sys, p: Probe, c: Choice, pid: Pid)
    ensures Settled(ProbeStep(y, p, c).0, pid) == Settled(y, pid)
  {
    if p.pc.PWait? { WaitpidSettled(y, p.pid, pid); }
  }

  lemma SignalSettled(y: Sys, g: Signal, c: Choice, pid: Pid)
    ensures Settled(SignalStep(y, g, c).0, pid) == Settled(y, pid)
  {
    if g.pc.SWait? { ReapSettled(y, g.pid, pid); }
  }

  lemma KillSettled(y: Sys, k: Kill, c: Choice, pid: Pid)
    ensures Settled(KillStep(y, k, c).0, pid) == Settled(y, pid)
  {
    match k.pc {
      case KProbe => ReapSettled(y, k.pid, pid);
      case KWaiting(w) => WaitPipesOnly(y, w, c);
      case KReap => WaitpidSettled(y, k.pid, pid);
      case _ =>
    }
  }

  lemma ExecSettled(y: Sys, e: Exec, c: Choice, pid: Pid)
    ensures Settled(ExecStep(y, e, c).0, pid) == Settled(y, pid)
  {
    if e.pc.EReap? { ReapSettled(y, e.pid, pid); }
  }

  lemma MainSettled(y: Sys, main: Main, c: Choice, pid: Pid)
    ensures Settled(MainStepOf(y, main, c).0, pid) == Settled(y, pid)
  {
    match main {
      case Idle(_) =>
      case InWait(w) => WaitPipesOnly(y, w, c);
      case InProbe(p) => ProbeSettled(y, p, c, pid);
      case InSignal(g) => SignalSettled(y, g, c, pid);
      case InKill(k) => KillSettled(y, k, c, pid);
      case InFinal(f) => if f.pc.FKill? { KillSettled(y, f.pc.kill, c, pid); }
      case InExec(e) => ExecSettled(y, e, c, pid);
    }
  }

  /** Only a child that exits gets a status, and it never changes. */
  lemma SettledBy(s: State, a: Action, pid: Pid)
    requires Enabled(s, a)
    ensures Settled(Apply(s, a).sys, pid)
         == if a.ChildExits? && a.pid == pid then Some(a.status) else Settled(s.sys, pid)
    ensures a.ChildExits? && a.pid == pid ==> Settled(s.sys, pid).None?
  {
    match a {
      case HandlerStep(_) => if s.handler.value != [] { WaitpidSettled(s.sys, s.handler.value[0], pid); }
      case MainStep(c) => MainSettled(s.sys, s.main, c, pid);
      case _ =>
    }
  }

  lemma {:induction false} SettledStays(s: State, actions: seq<Action>, pid: Pid, i: nat, n: nat)
    requires Run(s, actions) && i <= n <= |actions| && Settled(At(s, actions, i).sys, pid).Some?
    ensures Settled(At(s, actions, n).sys, pid) == Settled(At(s, actions, i).sys, pid)
    decreases n - i
  {
    if i < n {
      SettledStays(s, actions, pid, i, n - 1);
      AtNext(s, actions, n - 1);
      SettledBy(At(s, actions, n - 1), actions[n - 1], pid);
    }
  }

  /** A child that exits with a code is collected with that code, and one that
      dies of a signal with its negative number, unless somebody else read the
      status and dropped it: then it is NA. */
  lemma ExitStatusIsRight(s: State, actions: seq<Action>, i: nat, pid: Pid)
    requires Init(s) && Run(s, actions) && i < |actions| && actions[i].ChildExits? && actions[i].pid == pid
    requires pid in After(s, actions).sys.handles
    ensures var y := After(s, actions).sys;
      var h := y.handles[pid];
      && (!h.collected || pid in y.dropped ==> h.exitcode == NA)
      && (h.collected && pid !in y.dropped ==>
            match actions[i].status
            case Exited(n) => 0 <= n < 256 && h.exitcode == Code(n)
            case Signaled(g) => h.exitcode == Code(-g))
  {
    StatusIsRight(s, actions, pid);
    AtNext(s, actions, i);
    SettledBy(At(s, actions, i), actions[i], pid);
    SettledStays(s, actions, pid, i + 1, |actions|);
    AtEnds(s, actions);
  }

  /** A handle has a status only if its child exited in this run. */
  lemma CollectedHasExited(s: State, actions: seq<Action>, pid: Pid) returns (i: nat)
    requires Init(s) && Run(s, actions)
    requires pid in After(s, actions).sys.handles && After(s, actions).sys.handles[pid].collected
    ensures i < |actions| && actions[i].ChildExits? && actions[i].pid == pid
  {
    StatusIsRight(s, actions, pid);
    AtEnds(s, actions);
    i := Moment(s, actions, (x: State) => Settled(x.sys, pid).Some?);
    AtNext(s, actions, i);
    SettledBy(At(s, actions, i), actions[i], pid);
  }

  // ----- When a status is collected -----

  /** Is there a handle with a status that was collected at this time? */
  predicate HasTime(y: Sys, pid: Pid, time: nat) {
    pid in y.handles && y.handles[pid].collected && y.handles[pid].endTime == time
  }

  /** A step that stores statuses at `time` and in no other way. */
  ghost predicate StoresAt(y: Sys, y': Sys, time: nat) {
    forall p | p in y'.handles && y'.handles[p].collected ::
      p in y.handles && (y.handles[p].collected ==> SameStatus(y.handles[p], y'.handles[p]))
      && (!y.handles[p].collected ==> y'.handles[p].endTime == time)
  }

  lemma CollectStoresAt(y: Sys, pid: Pid, res: WaitResult, time: nat)
    requires !res.StillRunning?
    ensures StoresAt(y, Collect(y, pid, res, time), time)
  {
  }

  lemma ProbeStoresAt(y: Sys, p: Probe, c: Choice)
    ensures StoresAt(y, ProbeStep(y, p, c).0, c.time)
  {
    if p.pc.PCollect? && !p.pc.res.StillRunning? { CollectStoresAt(y, p.pid, p.pc.res, c.time); }
  }

  lemma SignalStoresAt(y: Sys, g: Signal, c: Choice)
    ensures StoresAt(y, SignalStep(y, g, c).0, c.time)
  {
    if g.pc.SCollect? && g.pc.res.NoChild? { CollectStoresAt(y, g.pid, g.pc.res, c.time); }
  }

  lemma WaitStoresAt(y: Sys, w: Wait, c: Choice)
    ensures StoresAt(y, WaitStep(y, w, c).0, c.time)
  {
    WaitPipesOnly(y, w, c);
    var y' := WaitStep(y, w, c).0;
    assert forall p | p in y.handles :: SameStatus(y.handles[p], y'.handles[p]);
  }

  lemma KillStoresAt(y: Sys, k: Kill, c: Choice)
    ensures StoresAt(y, KillStep(y, k, c).0, c.time)
  {
    match k.pc {
      case KProbed(res) => if res.NoChild? { CollectStoresAt(y, k.pid, res, c.time); }
      case KWaiting(w) => if !w.pc.Done? && !w.pc.Thrown? { WaitStoresAt(y, w, c); }
      case KCollect(res) => if !res.StillRunning? { CollectStoresAt(y, k.pid, res, c.time); }
      case _ =>
    }
  }

  lemma FinalStoresAt(y: Sys, f: Final, c: Choice)
    ensures StoresAt(y, FinalStep(y, f, c).0, c.time)
  {
    if f.pc.FKill? && !f.pc.kill.pc.KDone? && !f.pc.kill.pc.KThrown? { KillStoresAt(y, f.pc.kill, c); }
  }

  lemma ExecStoresAt(y: Sys, e: Exec, c: Choice)
    ensures StoresAt(y, ExecStep(y, e, c).0, c.time)
  {
  }

  lemma MainStoresAt(y: Sys, main: Main, c: Choice)
    ensures StoresAt(y, MainStepOf(y, main, c).0, c.time)
  {
    match main {
      case Idle(_) =>
      case InWait(w) => WaitStoresAt(y, w, c);
      case InProbe(p) => ProbeStoresAt(y, p, c);
      case InSignal(g) => SignalStoresAt(y, g, c);
      case InKill(k) => KillStoresAt(y, k, c);
      case InFinal(f) => FinalStoresAt(y, f, c);
      case InExec(e) => ExecStoresAt(y, e, c);
    }
  }

  lemma HandlerStoresAt(y: Sys, pid: Pid, time: nat)
    ensures StoresAt(y, HandleNode(y, pid, time), time)
  {
  }

  /** The clock of a step that reads it. */
  function TimeOf(a: Action): Option<nat> {
    match a
    case HandlerStep(time) => Some(time)
    case MainStep(c) => Some(c.time)
    case _ => None
  }

  lemma TimeIsNew(s: State, a: Action, pid: Pid, time: nat)
    requires Enabled(s, a) && HasTime(Apply(s, a).sys, pid, time) && !HasTime(s.sys, pid, time)
    ensures Waiting(s.sys, pid) && TimeOf(a) == Some(time)
  {
    match a {
      case HandlerStep(t) => if s.handler.value != [] { HandlerStoresAt(s.sys, s.handler.value[0], t); }
      case MainStep(c) => MainStoresAt(s.sys, s.main, c);
      case _ =>
    }
  }

  lemma TimeNext(s: State, actions: seq<Action>, i: nat, pid: Pid, time: nat)
    requires Init(s) && Run(s, actions) && i < |actions|
    requires HasTime(At(s, actions, i + 1).sys, pid, time) && !HasTime(At(s, actions, i).sys, pid, time)
    ensures Waiting(At(s, actions, i).sys, pid) && TimeOf(actions[i]) == Some(time)
  {
    InvAt(s, actions, i);
    AtNext(s, actions, i);
    TimeIsNew(At(s, actions, i), actions[i], pid, time);
  }

  /** The end time of a process is that of the one step, of the handler or of a
      call, that stored its status. */
  lemma EndTimeIsRight(s: State, actions: seq<Action>, pid: Pid) returns (i: nat)
    requires Init(s) && Run(s, actions)
    requires pid in After(s, actions).sys.handles && After(s, actions).sys.handles[pid].collected
    ensures i < |actions| && Waiting(At(s, actions, i).sys, pid)
    ensures TimeOf(actions[i]) == Some(After(s, actions).sys.handles[pid].endTime)
    ensures forall j | i < j <= |actions| ::
      pid in At(s, actions, j).sys.handles && At(s, actions, j).sys.handles[pid].collected
  {
    AtEnds(s, actions);
    var time := After(s, actions).sys.handles[pid].endTime;
    i := Moment(s, actions, (x: State) => HasTime(x.sys, pid, time));
    AtNext(s, actions, i);
    TimeNext(s, actions, i, pid, time);
  }

  // ----- What wait answers -----

  /** The main code is in a wait for pid, and its answer is FALSE. */
  predicate SaysFalse(s: State, pid: Pid) {
    && WaitOf(s.main).Some? && WaitOf(s.main).value.pid == pid
    && WaitOf(s.main).value.pc in {Cleanup(false), Restore(false), Done(false)}
  }

  predicate InWaitFor(s: State, pid: Pid) { WaitOf(s.main).Some? && WaitOf(s.main).value.pid == pid }

  /** Only its own steps move the main code on within a call. */
  lemma MainMovesItself(s: State, a: Action)
    requires Enabled(s, a) && !a.MainStep?
    ensures var main' := Apply(s, a).main;
      main' == s.main || (a.Call? && Starts(main', s.main.mask)) || (a.Return? && main'.Idle?)
  {
  }

  /** A step of the main code in a wait is a step of that wait. */
  lemma WaitMoves(y: Sys, main: Main, c: Choice)
    requires !Finished(main) && WaitOf(MainStepOf(y, main, c).1).Some?
    ensures var (y', main') := MainStepOf(y, main, c);
      var w' := WaitOf(main').value;
      || (WaitOf(main).None? && w'.pc == Enter)
      || (WaitOf(main).Some? && (y', w') == WaitStep(y, WaitOf(main).value, c))
  {
    match main {
      case InKill(k) => KillWaitMoves(y, k, c);
      case InFinal(f) =>
        if f.pc.FKill? && !f.pc.kill.pc.KDone? && !f.pc.kill.pc.KThrown? { KillWaitMoves(y, f.pc.kill, c); }
      case _ =>
    }
  }

  lemma KillWaitMoves(y: Sys, k: Kill, c: Choice)
    requires KillStep(y, k, c).1.pc.KWaiting?
    ensures var (y', k') := KillStep(y, k, c);
      if k.pc.KWaiting? then (y', k'.pc.wait) == WaitStep(y, k.pc.wait, c) else k'.pc.wait.pc == Enter
  {
  }

  lemma FalseInWait(y: Sys, w: Wait, c: Choice)
    requires WaitInv(y, w) && WaitStep(y, w, c).1.pc in {Cleanup(false), Restore(false), Done(false)}
    requires w.pc !in {Cleanup(false), Restore(false), Done(false)}
    ensures w.pc == Poll && !c.fail && c.timeUp && Waiting(y, w.pid) && w.pipe in y.pipes && y.pipes[w.pipe]
    ensures WaitStep(y, w, c).1.pid == w.pid
  {
  }

  lemma WaitInvOf(s: State)
    requires Inv(s) && WaitOf(s.main).Some?
    ensures WaitInv(s.sys, WaitOf(s.main).value)
  {
  }

  lemma SamePid(y: Sys, w: Wait, c: Choice)
    ensures WaitStep(y, w, c).1.pid == w.pid
  {
  }

  /** The wait for pid polls, its pipe is open, there is no status, and the time
      is up. */
  predicate PollTimesOut(s: State, a: Action, pid: Pid) {
    && a.MainStep? && a.choice.timeUp && !a.choice.fail
    && InWaitFor(s, pid) && WaitOf(s.main).value.pc == Poll
    && WaitOf(s.main).value.pipe in s.sys.pipes && s.sys.pipes[WaitOf(s.main).value.pipe]
    && pid in s.sys.handles && !s.sys.handles[pid].collected
  }

  lemma FalseIsNew(s: State, a: Action, pid: Pid)
    requires Inv(s) && Enabled(s, a) && SaysFalse(Apply(s, a), pid) && !SaysFalse(s, pid)
    ensures PollTimesOut(s, a, pid)
  {
    if a.MainStep? {
      WaitMoves(s.sys, s.main, a.choice);
      WaitInvOf(s);
      SamePid(s.sys, WaitOf(s.main).value, a.choice);
      FalseInWait(s.sys, WaitOf(s.main).value, a.choice);
    } else {
      MainMovesItself(s, a);
    }
  }

  lemma FalseNext(s: State, actions: seq<Action>, i: nat, pid: Pid)
    requires Init(s) && Run(s, actions) && i < |actions|
    requires SaysFalse(At(s, actions, i + 1), pid) && !SaysFalse(At(s, actions, i), pid)
    ensures PollTimesOut(At(s, actions, i), actions[i], pid)
  {
    InvAt(s, actions, i);
    AtNext(s, actions, i);
    FalseIsNew(At(s, actions, i), actions[i], pid);
  }

  /** If wait returns FALSE, its last poll timed out, and at that moment there
      was no status yet, and its pipe was open. */
  lemma FalseIsTimeout(s: State, actions: seq<Action>, pid: Pid) returns (i: nat)
    requires Init(s) && Run(s, actions)
    requires InWaitFor(After(s, actions), pid) && WaitOf(After(s, actions).main).value.pc == Done(false)
    ensures i < |actions| && PollTimesOut(At(s, actions, i), actions[i], pid)
    ensures forall j | i <= j <= |actions| :: InWaitFor(At(s, actions, j), pid)
  {
    i := Moment(s, actions, (x: State) => SaysFalse(x, pid));
    FalseNext(s, actions, i, pid);
    assert forall j | i < j <= |actions| :: SaysFalse(At(s, actions, j), pid);
  }

  /** The wait has what it waits for. */
  predicate WillSay(y: Sys, w: Wait) {
    match w.pc
    case Enter => false
    case Check => !Waiting(y, w.pid)
    case Leave => true
    case Setup => false
    case Unblock => !Waiting(y, w.pid)
    case Poll => !Waiting(y, w.pid)
    case CheckAlive => Gone(y, w.pid)
    case Cleanup(ret) => ret
    case Restore(ret) => ret
    case Done(ret) => ret
    case Thrown(_) => true
  }

  /** A step of a wait that has what it waits for. */
  lemma TrueInWait(y: Sys, w: Wait, c: Choice)
    requires WaitInv(y, w) && WillSay(y, w)
    ensures var (y', w') := WaitStep(y, w, c); w'.pid == w.pid && WillSay(y', w')
  {
  }

  lemma HandlerOverStays(y: Sys, q: Pid, time: nat, pid: Pid)
    ensures !Waiting(y, pid) ==> !Waiting(HandleNode(y, q, time), pid)
    ensures Gone(y, pid) ==> Gone(HandleNode(y, q, time), pid)
  {
  }

  /** Nobody but the main code takes a status away, or brings a child back. */
  lemma OverStays(s: State, a: Action, pid: Pid)
    requires Enabled(s, a) && !a.MainStep?
    ensures !Waiting(s.sys, pid) ==> !Waiting(Apply(s, a).sys, pid)
    ensures Gone(s.sys, pid) ==> Gone(Apply(s, a).sys, pid)
  {
    if a.HandlerStep? && s.handler.value != [] { HandlerOverStays(s.sys, s.handler.value[0], a.time, pid); }
  }

  /** The main code is in a wait that has what it waits for. */
  predicate SaysTrue(s: State) { WaitOf(s.main).Some? && WillSay(s.sys, WaitOf(s.main).value) }

  lemma TrueStays(s: State, a: Action)
    requires Inv(s) && Enabled(s, a) && SaysTrue(s) && WaitOf(Apply(s, a).main).Some?
    ensures SaysTrue(Apply(s, a))
  {
    var w := WaitOf(s.main).value;
    if a.MainStep? {
      WaitMoves(s.sys, s.main, a.choice);
      WaitInvOf(s);
      TrueInWait(s.sys, w, a.choice);
    } else {
      MainMovesItself(s, a);
      OverStays(s, a, w.pid);
    }
  }

  lemma {:induction false} StillSaysTrue(s: State, actions: seq<Action>, i: nat, n: nat)
    requires Init(s) && Run(s, actions) && i <= n <= |actions|
    requires forall j | i <= j <= n :: WaitOf(At(s, actions, j).main).Some?
    requires SaysTrue(At(s, actions, i))
    ensures SaysTrue(At(s, actions, n))
    decreases n - i
  {
    if i < n {
      StillSaysTrue(s, actions, i, n - 1);
      NextSaysTrue(s, actions, n - 1);
    }
  }

  lemma NextSaysTrue(s: State, actions: seq<Action>, n: nat)
    requires Init(s) && Run(s, actions) && n < |actions| && SaysTrue(At(s, actions, n))
    requires WaitOf(At(s, actions, n + 1).main).Some?
    ensures SaysTrue(At(s, actions, n + 1))
  {
    InvAt(s, actions, n);
    AtNext(s, actions, n);
    TrueStays(At(s, actions, n), actions[n]);
  }

  /** Wait returns TRUE if it finds no handle, or a status, at its start; if it
      polls when the status is there; or if it looks for the process when that
      is gone: whatever happens then, unless it throws. */
  lemma WaitReturnsTrue(s: State, actions: seq<Action>, i: nat)
    requires Init(s) && Run(s, actions) && i <= |actions|
    requires forall j | i <= j <= |actions| :: WaitOf(At(s, actions, j).main).Some?
    requires var y := At(s, actions, i).sys;
      var w := WaitOf(At(s, actions, i).main).value;
      || (w.pc == Check && (w.pid !in y.handles || y.handles[w.pid].collected))
      || (w.pc == Poll && w.pid in y.handles && y.handles[w.pid].collected)
      || (w.pc == CheckAlive && (w.pid !in y.children || y.children[w.pid].Reaped?))
    ensures WaitOf(After(s, actions).main).Some?
    ensures WaitOf(After(s, actions).main).value.pc != Done(false)
  {
    StillSaysTrue(s, actions, i, |actions|);
    AtEnds(s, actions);
    assert WaitOf(At(s, actions, |actions|).main).Some?;
  }

  /** The wait for pid, inside kill or not, has thrown, and left this mask. */
  predicate WaitThrew(s: State, pid: Pid, mask: bool, inKill: bool) {
    InWaitFor(s, pid) && WaitOf(s.main).value.pc == Thrown(mask) && KillOf(s.main).Some? == inKill
  }

  /** The wait for pid throws: it cannot make its pipe, and restores the mask; or
      it fails or is interrupted when it polls, with SIGCHLD unblocked. */
  predicate WaitFails(s: State, a: Action, pid: Pid, mask: bool, inKill: bool) {
    && a.MainStep? && InWaitFor(s, pid) && KillOf(s.main).Some? == inKill
    && var w := WaitOf(s.main).value;
       || (w.pc == Setup && mask == w.entry)
       || ((w.pc == Poll || w.pc == CheckAlive) && a.choice.fail && !mask)
  }

  lemma WaitThrewIsNew(s: State, a: Action, pid: Pid, mask: bool, inKill: bool)
    requires Inv(s) && Enabled(s, a) && WaitThrew(Apply(s, a), pid, mask, inKill) && !WaitThrew(s, pid, mask, inKill)
    ensures WaitFails(s, a, pid, mask, inKill)
  {
    if a.MainStep? {
      WaitMoves(s.sys, s.main, a.choice);
      WaitInvOf(s);
      SamePid(s.sys, WaitOf(s.main).value, a.choice);
    } else {
      MainMovesItself(s, a);
    }
  }

  lemma WaitThrewNext(s: State, actions: seq<Action>, i: nat, pid: Pid, mask: bool, inKill: bool)
    requires Init(s) && Run(s, actions) && i < |actions|
    requires WaitThrew(At(s, actions, i + 1), pid, mask, inKill) && !WaitThrew(At(s, actions, i), pid, mask, inKill)
    ensures WaitFails(At(s, actions, i), actions[i], pid, mask, inKill)
  {
    InvAt(s, actions, i);
    AtNext(s, actions, i);
    WaitThrewIsNew(At(s, actions, i), actions[i], pid, mask, inKill);
  }

  lemma ThrownMask(s: State, actions: seq<Action>)
    requires Init(s) && Run(s, actions)
    requires WaitOf(After(s, actions).main).Some? && WaitOf(After(s, actions).main).value.pc.Thrown?
    ensures After(s, actions).handler.None? ==>
      After(s, actions).sys.blocked == WaitOf(After(s, actions).main).value.pc.mask
  {
    InitInv(s);
    RunKeeps(s, actions);
  }

  /** Where a wait that throws leaves the signal mask. */
  lemma WaitThrows(s: State, actions: seq<Action>, pid: Pid, mask: bool, inKill: bool) returns (i: nat)
    requires Init(s) && Run(s, actions) && WaitThrew(After(s, actions), pid, mask, inKill)
    ensures i < |actions| && WaitFails(At(s, actions, i), actions[i], pid, mask, inKill)
    ensures After(s, actions).handler.None? ==> After(s, actions).sys.blocked == mask
  {
    ThrownMask(s, actions);
    i := Moment(s, actions, (x: State) => WaitThrew(x, pid, mask, inKill));
    WaitThrewNext(s, actions, i, pid, mask, inKill);
  }

  // ----- What is_alive, signal and kill answer -----

  /** is_alive has looked, and its answer is `alive`. */
  predicate SaysAlive(main: Main, pid: Pid, alive: bool) {
    && main.InProbe? && main.probe.pid == pid
    && match main.probe.pc
       case PCollect(res) => res.StillRunning? == alive
       case PExit(b) => b == alive
       case PDone(b) => b == alive
       case _ => false
  }

  lemma AliveIsNew(s: State, a: Action, pid: Pid, alive: bool)
    requires Inv(s) && Enabled(s, a)
    requires SaysAlive(Apply(s, a).main, pid, alive) && !SaysAlive(s.main, pid, alive)
    ensures a.MainStep?
    ensures
      || (s.main == InProbe(Probe(pid, PCheck)) && !alive && !Waiting(s.sys, pid))
      || (s.main == InProbe(Probe(pid, PWait)) && Waiting(s.sys, pid)
          && (alive <==> pid in s.sys.children && s.sys.children[pid].Running?))
  {
    if !a.MainStep? { MainMovesItself(s, a); }
  }

  lemma AliveNext(s: State, actions: seq<Action>, i: nat, pid: Pid, alive: bool)
    requires Init(s) && Run(s, actions) && i < |actions|
    requires SaysAlive(At(s, actions, i + 1).main, pid, alive) && !SaysAlive(At(s, actions, i).main, pid, alive)
    ensures actions[i].MainStep?
    ensures
      || (At(s, actions, i).main == InProbe(Probe(pid, PCheck)) && !alive && !Waiting(At(s, actions, i).sys, pid))
      || (At(s, actions, i).main == InProbe(Probe(pid, PWait)) && Waiting(At(s, actions, i).sys, pid)
          && (alive <==> pid in At(s, actions, i).sys.children && At(s, actions, i).sys.children[pid].Running?))
  {
    InvAt(s, actions, i);
    AtNext(s, actions, i);
    AliveIsNew(At(s, actions, i), actions[i], pid, alive);
  }

  /** is_alive returns FALSE if there was no handle, or a status, when it
      looked at that. Otherwise it looked at the process, and returns TRUE
      exactly if that was running. */
  lemma AliveAnswer(s: State, actions: seq<Action>, pid: Pid, alive: bool) returns (i: nat)
    requires Init(s) && Run(s, actions) && After(s, actions).main == InProbe(Probe(pid, PDone(alive)))
    ensures i < |actions| && actions[i].MainStep?
    ensures forall j | i <= j <= |actions| :: At(s, actions, j).main.InProbe?
    ensures var s' := At(s, actions, i);
      || (s'.main == InProbe(Probe(pid, PCheck)) && !alive
          && (pid !in s'.sys.handles || s'.sys.handles[pid].collected))
      || (s'.main == InProbe(Probe(pid, PWait)) && pid in s'.sys.handles && !s'.sys.handles[pid].collected
          && (alive <==> pid in s'.sys.children && s'.sys.children[pid].Running?))
  {
    i := Moment(s, actions, (x: State) => SaysAlive(x.main, pid, alive));
    AliveNext(s, actions, i, pid, alive);
  }

  /** signal has tried, and its answer is `sent`. */
  predicate SaysSent(main: Main, pid: Pid, sent: bool) {
    && main.InSignal? && main.signal.pid == pid
    && match main.signal.pc
       case SWait(b) => b == sent
       case SCollect(b, _) => b == sent
       case SExit(b) => b == sent
       case SDone(b) => b == sent
       case _ => false
  }

  lemma SentIsNew(s: State, a: Action, pid: Pid, sent: bool)
    requires Inv(s) && Enabled(s, a)
    requires SaysSent(Apply(s, a).main, pid, sent) && !SaysSent(s.main, pid, sent)
    ensures a.MainStep?
    ensures
      || (s.main == InSignal(Signal(pid, SCheck)) && !sent && !Waiting(s.sys, pid))
      || (s.main == InSignal(Signal(pid, SSend)) && Waiting(s.sys, pid)
          && (sent <==> pid in s.sys.children && !s.sys.children[pid].Reaped?))
  {
    if !a.MainStep? { MainMovesItself(s, a); }
  }

  lemma SentNext(s: State, actions: seq<Action>, i: nat, pid: Pid, sent: bool)
    requires Init(s) && Run(s, actions) && i < |actions|
    requires SaysSent(At(s, actions, i + 1).main, pid, sent) && !SaysSent(At(s, actions, i).main, pid, sent)
    ensures actions[i].MainStep?
    ensures
      || (At(s, actions, i).main == InSignal(Signal(pid, SCheck)) && !sent && !Waiting(At(s, actions, i).sys, pid))
      || (At(s, actions, i).main == InSignal(Signal(pid, SSend)) && Waiting(At(s, actions, i).sys, pid)
          && (sent <==> pid in At(s, actions, i).sys.children && !At(s, actions, i).sys.children[pid].Reaped?))
  {
    InvAt(s, actions, i);
    AtNext(s, actions, i);
    SentIsNew(At(s, actions, i), actions[i], pid, sent);
  }

  /** signal returns FALSE if there was no handle, or a status, when it looked
      at that. Otherwise it returns TRUE exactly if there was a process to send
      the signal to, if only one that had exited. */
  lemma SignalAnswer(s: State, actions: seq<Action>, pid: Pid, sent: bool) returns (i: nat)
    requires Init(s) && Run(s, actions) && After(s, actions).main == InSignal(Signal(pid, SDone(sent)))
    ensures i < |actions| && actions[i].MainStep?
    ensures forall j | i <= j <= |actions| :: At(s, actions, j).main.InSignal?
    ensures var s' := At(s, actions, i);
      || (s'.main == InSignal(Signal(pid, SCheck)) && !sent
          && (pid !in s'.sys.handles || s'.sys.handles[pid].collected))
      || (s'.main == InSignal(Signal(pid, SSend)) && pid in s'.sys.handles && !s'.sys.handles[pid].collected
          && (sent <==> pid in s'.sys.children && !s'.sys.children[pid].Reaped?))
  {
    i := Moment(s, actions, (x: State) => SaysSent(x.main, pid, sent));
    SentNext(s, actions, i, pid, sent);
  }

  /** signal is at its end. */
  predicate SignalEnds(main: Main, pid: Pid) {
    main.InSignal? && main.signal.pid == pid && (main.signal.pc.SExit? || main.signal.pc.SDone?)
  }

  /** What signal found before it ended, in the step from y to y'. */
  predicate SignalFound(y: Sys, y': Sys, main: Main, pid: Pid) {
    && main.InSignal? && main.signal.pid == pid
    && match main.signal.pc
       case SCheck => pid !in y.handles || y.handles[pid].collected
       case SCollect(_, res) => res.NoChild? ==> pid !in y'.handles || y'.handles[pid].collected
       case _ => false
  }

  lemma SignalEndIsNew(s: State, a: Action, pid: Pid)
    requires Inv(s) && Enabled(s, a) && SignalEnds(Apply(s, a).main, pid) && !SignalEnds(s.main, pid)
    ensures a.MainStep? && SignalFound(s.sys, Apply(s, a).sys, s.main, pid)
  {
    if !a.MainStep? { MainMovesItself(s, a); }
  }

  lemma SignalEndNext(s: State, actions: seq<Action>, i: nat, pid: Pid)
    requires Init(s) && Run(s, actions) && i < |actions|
    requires SignalEnds(At(s, actions, i + 1).main, pid) && !SignalEnds(At(s, actions, i).main, pid)
    ensures actions[i].MainStep?
    ensures SignalFound(At(s, actions, i).sys, At(s, actions, i + 1).sys, At(s, actions, i).main, pid)
  {
    InvAt(s, actions, i);
    AtNext(s, actions, i);
    SignalEndIsNew(At(s, actions, i), actions[i], pid);
  }

  /** When signal has tried to read the status and there was no such child any
      more, there is a status after that. */
  lemma SignalCollects(s: State, actions: seq<Action>, pid: Pid, sent: bool) returns (i: nat)
    requires Init(s) && Run(s, actions) && After(s, actions).main == InSignal(Signal(pid, SDone(sent)))
    ensures i < |actions| && actions[i].MainStep?
    ensures SignalFound(At(s, actions, i).sys, At(s, actions, i + 1).sys, At(s, actions, i).main, pid)
    ensures forall j | i <= j <= |actions| :: At(s, actions, j).main.InSignal?
  {
    i := Moment(s, actions, (x: State) => SignalEnds(x.main, pid));
    SignalEndNext(s, actions, i, pid);
  }

  predicate InKillOf(main: Main, pid: Pid) { KillOf(main).Some? && KillOf(main).value.pid == pid }

  predicate KillEnds(k: Kill, pid: Pid, killed: bool) {
    k.pid == pid && (k.pc == KExit(killed) || k.pc == KDone(killed))
  }

  /** kill is at its end, and its answer is `killed`. */
  predicate SaysKilled(main: Main, pid: Pid, killed: bool) {
    KillOf(main).Some? && KillEnds(KillOf(main).value, pid, killed)
  }

  /** What kill found in the step that decided its answer, from y to y'. */
  predicate Decides(y: Sys, y': Sys, k: Kill, killed: bool) {
    match k.pc
    case KCheck => !killed && (k.pid !in y.handles || y.handles[k.pid].collected)
    case KProbed(res) =>
      && !killed && (k.pid !in y.children || y.children[k.pid].Reaped?)
      && (res.NoChild? ==> k.pid !in y'.handles || y'.handles[k.pid].collected)
    case KTerm => !killed && k.grace && (k.pid !in y.children || y.children[k.pid].Reaped?)
    case KWaiting(w) =>
      k.grace && w.pc == Done(true) && (killed <==> k.pid in y.handles && y.handles[k.pid].exitcode == Code(-15))
    case KKill => !killed && (k.pid !in y.children || y.children[k.pid].Reaped?)
    case KCollect(_) => killed <==> k.pid in y'.handles && y'.handles[k.pid].exitcode == Code(-9)
    case _ => false
  }

  lemma KillDecides(y: Sys, k: Kill, c: Choice, killed: bool)
    requires KillInv(y, k) && KillEnds(KillStep(y, k, c).1, k.pid, killed) && !KillEnds(k, k.pid, killed)
    ensures Decides(y, KillStep(y, k, c).0, k, killed)
  {
  }

  /** A step of the main code in kill is a step of that. */
  lemma KillMoves(y: Sys, main: Main, c: Choice)
    requires !Finished(main) && KillOf(MainStepOf(y, main, c).1).Some?
    ensures var (y', main') := MainStepOf(y, main, c);
      var k' := KillOf(main').value;
      || (KillOf(main).None? && k'.pc == KEnter)
      || (KillOf(main).Some? && (y', k') == KillStep(y, KillOf(main).value, c))
  {
  }

  lemma KillInvOf(s: State)
    requires Inv(s) && KillOf(s.main).Some?
    ensures KillInv(s.sys, KillOf(s.main).value)
  {
  }

  lemma KilledIsNew(s: State, a: Action, pid: Pid, killed: bool)
    requires Inv(s) && Enabled(s, a)
    requires SaysKilled(Apply(s, a).main, pid, killed) && !SaysKilled(s.main, pid, killed)
    ensures a.MainStep? && InKillOf(s.main, pid) && Decides(s.sys, Apply(s, a).sys, KillOf(s.main).value, killed)
  {
    if a.MainStep? {
      KillMoves(s.sys, s.main, a.choice);
      KillSame(s.sys, KillOf(s.main).value, a.choice);
      KillInvOf(s);
      KillDecides(s.sys, KillOf(s.main).value, a.choice, killed);
    } else {
      MainMovesItself(s, a);
    }
  }

  lemma KilledNext(s: State, actions: seq<Action>, i: nat, pid: Pid, killed: bool)
    requires Init(s) && Run(s, actions) && i < |actions|
    requires SaysKilled(At(s, actions, i + 1).main, pid, killed) && !SaysKilled(At(s, actions, i).main, pid, killed)
    ensures actions[i].MainStep?
    ensures var s' := At(s, actions, i);
      InKillOf(s'.main, pid) && Decides(s'.sys, At(s, actions, i + 1).sys, KillOf(s'.main).value, killed)
  {
    InvAt(s, actions, i);
    AtNext(s, actions, i);
    KilledIsNew(At(s, actions, i), actions[i], pid, killed);
  }

  /** kill returns FALSE if it finds no handle, or a status, or no process, when
      it looks for one of them. If the wait after SIGTERM returned TRUE, it
      returns TRUE exactly if that signal is the status, and if it sent SIGKILL
      and collected the status, exactly if it is that one. */
  lemma KillAnswer(s: State, actions: seq<Action>, pid: Pid, killed: bool) returns (i: nat)
    requires Init(s) && Run(s, actions)
    requires var kill := KillOf(After(s, actions).main);
      kill.Some? && kill.value.pid == pid && kill.value.pc == KDone(killed)
    ensures i < |actions| && actions[i].MainStep?
    ensures forall j | i <= j <= |actions| :: InKillOf(At(s, actions, j).main, pid)
    ensures var s' := At(s, actions, i);
      InKillOf(s'.main, pid) && Decides(s'.sys, At(s, actions, i + 1).sys, KillOf(s'.main).value, killed)
  {
    i := Moment(s, actions, (x: State) => SaysKilled(x.main, pid, killed));
    KilledNext(s, actions, i, pid, killed);
  }

  /** kill has sent SIGTERM. */
  predicate SentTerm(main: Main, pid: Pid) { InKillOf(main, pid) && KillOf(main).value.pc.KWaiting? }

  /** kill has sent SIGKILL. */
  predicate SentKill(main: Main, pid: Pid) {
    InKillOf(main, pid) && (KillOf(main).value.pc.KReap? || KillOf(main).value.pc.KCollect?)
  }

  /** kill is at this place, and the child is there. */
  predicate FindsChild(s: State, pid: Pid, pc: KillPc) {
    InKillOf(s.main, pid) && KillOf(s.main).value.pc == pc && pid in s.sys.children && !s.sys.children[pid].Reaped?
  }

  lemma SentTermIsNew(s: State, a: Action, pid: Pid)
    requires Inv(s) && Enabled(s, a) && SentTerm(Apply(s, a).main, pid) && !SentTerm(s.main, pid)
    ensures a.MainStep? && FindsChild(s, pid, KTerm)
  {
    if a.MainStep? {
      KillMoves(s.sys, s.main, a.choice);
      KillSame(s.sys, KillOf(s.main).value, a.choice);
    } else {
      MainMovesItself(s, a);
    }
  }

  lemma SentKillIsNew(s: State, a: Action, pid: Pid)
    requires Inv(s) && Enabled(s, a) && SentKill(Apply(s, a).main, pid) && !SentKill(s.main, pid)
    ensures a.MainStep? && FindsChild(s, pid, KKill)
  {
    if a.MainStep? {
      KillMoves(s.sys, s.main, a.choice);
      KillSame(s.sys, KillOf(s.main).value, a.choice);
    } else {
      MainMovesItself(s, a);
    }
  }

  lemma SentTermNext(s: State, actions: seq<Action>, i: nat, pid: Pid)
    requires Init(s) && Run(s, actions) && i < |actions|
    requires SentTerm(At(s, actions, i + 1).main, pid) && !SentTerm(At(s, actions, i).main, pid)
    ensures actions[i].MainStep? && FindsChild(At(s, actions, i), pid, KTerm)
  {
    InvAt(s, actions, i);
    AtNext(s, actions, i);
    SentTermIsNew(At(s, actions, i), actions[i], pid);
  }

  /** SIGTERM is only sent to a child that is there, if only as a zombie. */
  lemma SigtermToChild(s: State, actions: seq<Action>, pid: Pid) returns (i: nat)
    requires Init(s) && Run(s, actions) && SentTerm(After(s, actions).main, pid)
    ensures i < |actions| && actions[i].MainStep? && FindsChild(At(s, actions, i), pid, KTerm)
    ensures forall j | i <= j <= |actions| :: InKillOf(At(s, actions, j).main, pid)
  {
    i := Moment(s, actions, (x: State) => SentTerm(x.main, pid));
    SentTermNext(s, actions, i, pid);
  }

  lemma SentKillNext(s: State, actions: seq<Action>, i: nat, pid: Pid)
    requires Init(s) && Run(s, actions) && i < |actions|
    requires SentKill(At(s, actions, i + 1).main, pid) && !SentKill(At(s, actions, i).main, pid)
    ensures actions[i].MainStep? && FindsChild(At(s, actions, i), pid, KKill)
  {
    InvAt(s, actions, i);
    AtNext(s, actions, i);
    SentKillIsNew(At(s, actions, i), actions[i], pid);
  }

  /** And so is SIGKILL. */
  lemma SigkillToChild(s: State, actions: seq<Action>, pid: Pid) returns (i: nat)
    requires Init(s) && Run(s, actions) && SentKill(After(s, actions).main, pid)
    ensures i < |actions| && actions[i].MainStep? && FindsChild(At(s, actions, i), pid, KKill)
    ensures forall j | i <= j <= |actions| :: InKillOf(At(s, actions, j).main, pid)
  {
    i := Moment(s, actions, (x: State) => SentKill(x.main, pid));
    SentKillNext(s, actions, i, pid);
  }

  predicate KillThrew(main: Main, pid: Pid) { InKillOf(main, pid) && KillOf(main).value.pc.KThrown? }

  /** kill throws, in a step to y': because a call fails, and then SIGCHLD is
      unblocked; or because the wait threw, and then the mask is what that
      left. */
  predicate KillFails(s: State, y': Sys, a: Action, pid: Pid) {
    && a.MainStep? && InKillOf(s.main, pid)
    && var k := KillOf(s.main).value;
       || ((k.pc == KProbe || k.pc == KTerm || k.pc == KKill) && a.choice.fail && !y'.blocked)
       || WaitThrew(s, pid, y'.blocked, true)
  }

  lemma KillThrewIsNew(s: State, a: Action, pid: Pid)
    requires Inv(s) && Enabled(s, a) && KillThrew(Apply(s, a).main, pid) && !KillThrew(s.main, pid)
    ensures KillFails(s, Apply(s, a).sys, a, pid)
  {
    if a.MainStep? {
      KillMoves(s.sys, s.main, a.choice);
      KillSame(s.sys, KillOf(s.main).value, a.choice);
      KillInvOf(s);
    } else {
      MainMovesItself(s, a);
    }
  }

  lemma KillThrewNext(s: State, actions: seq<Action>, i: nat, pid: Pid)
    requires Init(s) && Run(s, actions) && i < |actions|
    requires KillThrew(At(s, actions, i + 1).main, pid) && !KillThrew(At(s, actions, i).main, pid)
    ensures KillFails(At(s, actions, i), At(s, actions, i + 1).sys, actions[i], pid)
  {
    InvAt(s, actions, i);
    AtNext(s, actions, i);
    KillThrewIsNew(At(s, actions, i), actions[i], pid);
  }

  lemma KillThrows(s: State, actions: seq<Action>, pid: Pid) returns (i: nat)
    requires Init(s) && Run(s, actions) && KillThrew(After(s, actions).main, pid)
    ensures i < |actions| && KillFails(At(s, actions, i), At(s, actions, i + 1).sys, actions[i], pid)
  {
    i := Moment(s, actions, (x: State) => KillThrew(x.main, pid));
    KillThrewNext(s, actions, i, pid);
  }

  lemma AtOfPrefix(s: State, actions: seq<Action>, n: nat, i: nat)
    requires Run(s, actions) && i <= n <= |actions|
    ensures Run(s, actions[..n]) && At(s, actions[..n], i) == At(s, actions, i)
    ensures After(s, actions[..n]) == At(s, actions, n)
  {
    RunPrefix(s, actions, n);
    assert actions[..n][..i] == actions[..i];
  }

  lemma InKillEntryIsBlocked(s: State)
    requires Inv(s) && KillOf(s.main).Some? && WaitOf(s.main).Some?
    ensures WaitOf(s.main).value.entry
  {
  }

  /** A wait that cannot make its pipe, inside kill. */
  predicate NoPipeInKill(s: State, a: Action, pid: Pid) {
    a.MainStep? && InKillOf(s.main, pid) && InWaitFor(s, pid) && WaitOf(s.main).value.pc == Setup
  }

  /** If kill throws, it leaves SIGCHLD blocked exactly if the wait in it could
      not make its pipe. */
  lemma KillLeavesBlocked(s: State, actions: seq<Action>, pid: Pid) returns (i: nat, j: nat)
    requires Init(s) && Run(s, actions) && KillThrew(After(s, actions).main, pid)
    ensures i < |actions| && KillFails(At(s, actions, i), At(s, actions, i + 1).sys, actions[i], pid)
    ensures At(s, actions, i + 1).sys.blocked ==> j < i && NoPipeInKill(At(s, actions, j), actions[j], pid)
    ensures !At(s, actions, i + 1).sys.blocked && SentTerm(At(s, actions, i).main, pid) ==>
      j < i && actions[j].MainStep? && actions[j].choice.fail && !NoPipeInKill(At(s, actions, j), actions[j], pid)
  {
    i := KillThrows(s, actions, pid);
    j := 0;
    var mask := At(s, actions, i + 1).sys.blocked;
    if WaitThrew(At(s, actions, i), pid, mask, true) {
      AtOfPrefix(s, actions, i, i);
      j := WaitThrows(s, actions[..i], pid, mask, true);
      AtOfPrefix(s, actions, i, j);
      InvAt(s, actions, j);
      InKillEntryIsBlocked(At(s, actions, j));
    }
  }

  /** kill is about to send SIGKILL, or has sent it. */
  predicate SendsKill(main: Main, pid: Pid) {
    && KillOf(main).Some? && KillOf(main).value.pid == pid
    && (KillOf(main).value.pc.KKill? || KillOf(main).value.pc.KReap? || KillOf(main).value.pc.KCollect?)
  }

  /** kill found the child running, and if there is a time of grace, it sent
      SIGTERM, and the wait after that returned FALSE. */
  predicate NeedsKill(main: Main, pid: Pid) {
    && InKillOf(main, pid)
    && var k := KillOf(main).value;
       if k.grace then k.pc.KWaiting? && k.pc.wait.pc == Done(false) else k.pc == KProbed(StillRunning)
  }

  lemma SendsKillIsNew(s: State, a: Action, pid: Pid)
    requires Inv(s) && Enabled(s, a) && SendsKill(Apply(s, a).main, pid) && !SendsKill(s.main, pid)
    ensures a.MainStep? && NeedsKill(s.main, pid)
  {
    if a.MainStep? {
      KillMoves(s.sys, s.main, a.choice);
      KillSame(s.sys, KillOf(s.main).value, a.choice);
      KillInvOf(s);
    } else {
      MainMovesItself(s, a);
    }
  }

  lemma SendsKillNext(s: State, actions: seq<Action>, i: nat, pid: Pid)
    requires Init(s) && Run(s, actions) && i < |actions|
    requires SendsKill(At(s, actions, i + 1).main, pid) && !SendsKill(At(s, actions, i).main, pid)
    ensures actions[i].MainStep? && NeedsKill(At(s, actions, i).main, pid)
  {
    InvAt(s, actions, i);
    AtNext(s, actions, i);
    SendsKillIsNew(At(s, actions, i), actions[i], pid);
  }

  /** SIGKILL is only sent to a child that was found running, and if there is a
      time of grace, only after the wait that follows SIGTERM returned FALSE. */
  lemma SigkillIsLast(s: State, actions: seq<Action>, pid: Pid) returns (i: nat)
    requires Init(s) && Run(s, actions) && SendsKill(After(s, actions).main, pid)
    ensures i < |actions| && actions[i].MainStep?
    ensures forall j | i <= j <= |actions| :: InKillOf(At(s, actions, j).main, pid)
    ensures NeedsKill(At(s, actions, i).main, pid)
  {
    i := Moment(s, actions, (x: State) => SendsKill(x.main, pid));
    SendsKillNext(s, actions, i, pid);
  }

  // ----- What the finalizer does -----

  /** The finalizer of pid is past the point where it kills. */
  predicate IsPastKill(main: Main, pid: Pid, cleanup: bool, grace: bool) {
    && main.InFinal? && main.final.pid == pid && main.final.cleanup == cleanup && main.final.grace == grace
    && (main.final.pc.FClear? || main.final.pc.FDone?)
  }

  /** The finalizer does not have to kill, or its kill has returned. */
  predicate KillIsDone(s: State, pid: Pid, cleanup: bool, grace: bool) {
    && s.main.InFinal? && s.main.final.pid == pid && s.main.final.cleanup == cleanup
    && match s.main.final.pc
       case FUnblock => !(pid in s.sys.handles && cleanup)
       case FKill(k) => cleanup && k.pid == pid && k.grace == grace && k.pc.KDone?
       case _ => false
  }

  lemma PastKillIsNew(s: State, a: Action, pid: Pid, cleanup: bool, grace: bool)
    requires Inv(s) && Enabled(s, a)
    requires IsPastKill(Apply(s, a).main, pid, cleanup, grace) && !IsPastKill(s.main, pid, cleanup, grace)
    ensures a.MainStep? && KillIsDone(s, pid, cleanup, grace)
  {
    if !a.MainStep? { MainMovesItself(s, a); }
  }

  lemma PastKillNext(s: State, actions: seq<Action>, i: nat, pid: Pid, cleanup: bool, grace: bool)
    requires Init(s) && Run(s, actions) && i < |actions|
    requires !IsPastKill(At(s, actions, i).main, pid, cleanup, grace)
    requires IsPastKill(At(s, actions, i + 1).main, pid, cleanup, grace)
    ensures actions[i].MainStep? && KillIsDone(At(s, actions, i), pid, cleanup, grace)
  {
    InvAt(s, actions, i);
    AtNext(s, actions, i);
    PastKillIsNew(At(s, actions, i), actions[i], pid, cleanup, grace);
  }

  lemma NoHandleLeft(s: State, actions: seq<Action>)
    requires Init(s) && Run(s, actions) && After(s, actions).main.InFinal? && After(s, actions).main.final.pc.FDone?
    ensures After(s, actions).main.final.pid !in After(s, actions).sys.handles
  {
    InitInv(s);
    RunKeeps(s, actions);
  }

  /** The finalizer calls kill, and that returns, exactly if cleanup was asked
      for and there is a handle. There is none after it. */
  lemma FinalizerKills(s: State, actions: seq<Action>, pid: Pid, cleanup: bool, grace: bool) returns (i: nat)
    requires Init(s) && Run(s, actions) && After(s, actions).main == InFinal(Final(pid, cleanup, grace, FDone))
    ensures i < |actions| && actions[i].MainStep? && KillIsDone(At(s, actions, i), pid, cleanup, grace)
    ensures forall j | i <= j <= |actions| :: At(s, actions, j).main.InFinal?
    ensures pid !in After(s, actions).sys.handles
  {
    NoHandleLeft(s, actions);
    i := Moment(s, actions, (x: State) => IsPastKill(x.main, pid, cleanup, grace));
    PastKillNext(s, actions, i, pid, cleanup, grace);
  }

  // ----- How exec ends -----

  predicate IsExecAt(main: Main, pid: Pid, pc: ExecPc) { main == InExec(Exec(pid, pc)) }

  /** What exec found in the step that ended it. */
  predicate EndsExec(s: State, a: Action, pid: Pid, end: ExecPc) {
    && a.MainStep? && s.main.InExec? && s.main.exec.pid == pid
    && match s.main.exec.pc
       case EFork => end == EThrown && (a.choice.fail || pid in s.sys.children)
       case ERead => if a.choice.fail then end == EThrown && a.choice.timeUp else end == EDone
       case EReap => end == EThrown && (pid !in s.sys.children || !s.sys.children[pid].Running?)
       case _ => false
  }

  lemma ExecEnds(s: State, a: Action, pid: Pid, end: ExecPc)
    requires Inv(s) && Enabled(s, a) && (end == EDone || end == EThrown)
    requires IsExecAt(Apply(s, a).main, pid, end) && !IsExecAt(s.main, pid, end)
    ensures EndsExec(s, a, pid, end)
  {
    if !a.MainStep? { MainMovesItself(s, a); }
  }

  lemma ExecNext(s: State, actions: seq<Action>, i: nat, pid: Pid, end: ExecPc)
    requires Init(s) && Run(s, actions) && i < |actions| && (end == EDone || end == EThrown)
    requires IsExecAt(At(s, actions, i + 1).main, pid, end) && !IsExecAt(At(s, actions, i).main, pid, end)
    ensures EndsExec(At(s, actions, i), actions[i], pid, end)
  {
    InvAt(s, actions, i);
    AtNext(s, actions, i);
    ExecEnds(At(s, actions, i), actions[i], pid, end);
  }

  lemma ExecHasHandle(s: State, actions: seq<Action>)
    requires Init(s) && Run(s, actions) && After(s, actions).main.InExec? && After(s, actions).main.exec.pc.EDone?
    ensures After(s, actions).main.exec.pid in After(s, actions).sys.handles
  {
    InitInv(s);
    RunKeeps(s, actions);
  }

  /** exec returns a handle if it reads no error. If it reads one, it throws, but
      not before the child has exited. */
  lemma ExecAnswer(s: State, actions: seq<Action>, pid: Pid, end: ExecPc) returns (i: nat)
    requires Init(s) && Run(s, actions) && (end == EDone || end == EThrown)
    requires IsExecAt(After(s, actions).main, pid, end)
    ensures i < |actions| && EndsExec(At(s, actions, i), actions[i], pid, end)
    ensures forall j | i <= j <= |actions| :: At(s, actions, j).main.InExec?
    ensures end == EDone ==> pid in After(s, actions).sys.handles
  {
    if end == EDone { ExecHasHandle(s, actions); }
    i := Moment(s, actions, (x: State) => IsExecAt(x.main, pid, end));
    ExecNext(s, actions, i, pid, end);
  }
}
