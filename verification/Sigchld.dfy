/** How the status of a child process gets to its handle. Two things collect
    it, the calls of the main code and the handler of SIGCHLD, which may
    interrupt them anywhere. Blocking SIGCHLD is the only lock.

    The main code is modelled step by step, one step for each piece of it
    between two points where the handler can run or a child can exit. */
module Sigchld {
  import opened Common

  type Pid = nat

  // ----- The kernel -----

  type ExitStatus = c: int | 0 <= c < 256

  datatype WaitStatus = Exited(code: ExitStatus) | Signaled(sig: int)

  /** A child is reaped once its status was waited for. */
  datatype Child = Running | Zombie(status: WaitStatus) | Reaped(status: WaitStatus)

  datatype WaitResult = StillRunning | Got(status: WaitStatus) | NoChild

  // ----- Handles -----

  datatype ExitCode = NA | Code(value: int)

  datatype Handle = Handle(collected: bool, exitcode: ExitCode, endTime: nat, waitPipe: Option<nat>)

  function Decode(status: WaitStatus): ExitCode {
    match status
    case Exited(c) => Code(c)
    case Signaled(s) => Code(-s)
  }

  /** What the main code and the handler share. */
  datatype Sys = Sys(
    children: map<Pid, Child>,
    pending: bool,             // a SIGCHLD waits to be delivered
    blocked: bool,             // SIGCHLD is blocked
    intact: bool,              // nobody replaced the handler so far
    list: seq<Pid>,            // children that the handler looks after
    handles: map<Pid, Handle>, // handles that are not finalized
    pipes: map<nat, bool>,     // is the write end of a wait pipe open?
    dropped: set<Pid>)         // history: children whose status was read and not stored

  /** waitpid(pid, WNOHANG) */
  function Waitpid(y: Sys, pid: Pid): (Sys, WaitResult) {
    if pid !in y.children || y.children[pid].Reaped? then (y, NoChild)
    else if y.children[pid].Running? then (y, StillRunning)
    else
      var status := y.children[pid].status;
      (y.(children := y.children[pid := Reaped(status)]), Got(status))
  }

  /** The same, by a caller that does not store the status. */
  function Reap(y: Sys, pid: Pid): (Sys, WaitResult) {
    var (y', res) := Waitpid(y, pid);
    (if res.Got? then y'.(dropped := y.dropped + {pid}) else y', res)
  }

  /** The status is stored unless there is one already. */
  function Collected(h: Handle, res: WaitResult, time: nat): Handle
    requires !res.StillRunning?
  {
    if h.collected then h
    else h.(collected := true, exitcode := if res.NoChild? then NA else Decode(res.status), endTime := time)
  }

  function Collect(y: Sys, pid: Pid, res: WaitResult, time: nat): Sys
    requires !res.StillRunning?
  {
    if pid !in y.handles then y
    else y.(handles := y.handles[pid := Collected(y.handles[pid], res, time)])
  }

  // ----- The main code -----

  /** Everything that a step may depend on, but the state does not tell. */
  datatype Choice = Choice(fail: bool, timeUp: bool, pipe: nat, time: nat)

  datatype WaitPc =
    | Enter | Check | Leave           // blocked from Check on
    | Setup | Unblock
    | Poll | CheckAlive               // not blocked
    | Cleanup(ret: bool) | Restore(ret: bool)
    | Done(ret: bool) | Thrown(mask: bool)

  /** A call of wait. `entry` is the signal mask at its start, `saved` what the
      call believes it was. */
  datatype Wait = Wait(pid: Pid, pc: WaitPc, entry: bool, saved: bool, pipe: nat)

  function WaitStep(y: Sys, w: Wait, c: Choice): (Sys, Wait) {
    match w.pc
    case Enter => (y.(blocked := true), w.(pc := Check, saved := y.blocked))
    case Check =>
      if w.pid !in y.handles || y.handles[w.pid].collected then (y, w.(pc := Leave)) else (y, w.(pc := Setup))
    case Leave => (y.(blocked := w.saved), w.(pc := Done(true)))
    case Setup =>
      if c.fail || c.pipe in y.pipes || w.pid !in y.handles then (y.(blocked := w.saved), w.(pc := Thrown(w.saved)))
      else (
        y.(blocked := true, pipes := y.pipes[c.pipe := true],
           handles := y.handles[w.pid := y.handles[w.pid].(waitPipe := Some(c.pipe))]),
        w.(pc := Unblock, pipe := c.pipe))
    case Unblock => (y.(blocked := false), w.(pc := Poll))
    case Poll =>
      if c.fail then (y, w.(pc := Thrown(false)))
      else if w.pipe in y.pipes && !y.pipes[w.pipe] then (y, w.(pc := Cleanup(true)))
      else if c.timeUp then (y, w.(pc := Cleanup(false)))
      else (y, w.(pc := CheckAlive))
    case CheckAlive =>
      if c.fail then (y, w.(pc := Thrown(false)))
      else if w.pid !in y.children || y.children[w.pid].Reaped? then (y, w.(pc := Cleanup(true)))
      else (y, w.(pc := Poll))
    case Cleanup(ret) =>
      (if w.pid !in y.handles then y else y.(handles := y.handles[w.pid := y.handles[w.pid].(waitPipe := None)]),
       w.(pc := Restore(ret)))
    case Restore(ret) => (y.(blocked := w.saved), w.(pc := Done(ret)))
    case Done(_) => (y, w)
    case Thrown(_) => (y, w)
  }

  datatype ProbePc =
    | PEnter | PCheck | PWait | PCollect(res: WaitResult) | PExit(alive: bool)
    | PDone(alive: bool) | PThrown

  /** A call of is_alive or get_exit_status. */
  datatype Probe = Probe(pid: Pid, pc: ProbePc)

  function ProbeStep(y: Sys, p: Probe, c: Choice): (Sys, Probe) {
    match p.pc
    case PEnter => (y.(blocked := true), p.(pc := PCheck))
    case PCheck =>
      (y, p.(pc := if p.pid !in y.handles || y.handles[p.pid].collected then PExit(false) else PWait))
    case PWait =>
      if c.fail then (y.(blocked := false), p.(pc := PThrown))
      else var (y', res) := Waitpid(y, p.pid); (y', p.(pc := PCollect(res)))
    case PCollect(res) =>
      if res.StillRunning? then (y, p.(pc := PExit(true)))
      else (Collect(y, p.pid, res, c.time), p.(pc := PExit(false)))
    case PExit(alive) => (y.(blocked := false), p.(pc := PDone(alive)))
    case PDone(_) => (y, p)
    case PThrown => (y, p)
  }

  datatype SignalPc =
    | SEnter | SCheck | SSend | SWait(sent: bool) | SCollect(sent: bool, res: WaitResult) | SExit(sent: bool)
    | SDone(sent: bool) | SThrown

  /** A call of signal. It reaps a child that has exited, but keeps its status
      only if somebody else has it. */
  datatype Signal = Signal(pid: Pid, pc: SignalPc)

  function SignalStep(y: Sys, g: Signal, c: Choice): (Sys, Signal) {
    match g.pc
    case SEnter => (y.(blocked := true), g.(pc := SCheck))
    case SCheck =>
      (y, g.(pc := if g.pid !in y.handles || y.handles[g.pid].collected then SExit(false) else SSend))
    case SSend =>
      if c.fail then (y.(blocked := false), g.(pc := SThrown))
      else (y, g.(pc := SWait(g.pid in y.children && !y.children[g.pid].Reaped?)))
    case SWait(sent) =>
      if c.fail then (y.(blocked := false), g.(pc := SThrown))
      else var (y', res) := Reap(y, g.pid); (y', g.(pc := SCollect(sent, res)))
    case SCollect(sent, res) =>
      (if res.NoChild? then Collect(y, g.pid, res, c.time) else y, g.(pc := SExit(sent)))
    case SExit(sent) => (y.(blocked := false), g.(pc := SDone(sent)))
    case SDone(_) => (y, g)
    case SThrown => (y, g)
  }

  const SIGTERM := 15
  const SIGKILL := 9

  datatype KillPc =
    | KEnter | KCheck | KProbe | KProbed(res: WaitResult) | KTerm | KWaiting(wait: Wait)
    | KKill | KReap | KCollect(res: WaitResult) | KExit(killed: bool)
    | KDone(killed: bool) | KThrown

  /** A call of kill, which may wait in between for the child to exit. */
  datatype Kill = Kill(pid: Pid, grace: bool, pc: KillPc)

  predicate HasCode(y: Sys, pid: Pid, code: int) {
    pid in y.handles && y.handles[pid].exitcode == Code(code)
  }

  function KillStep(y: Sys, k: Kill, c: Choice): (Sys, Kill) {
    match k.pc
    case KEnter => (y.(blocked := true), k.(pc := KCheck))
    case KCheck =>
      (y, k.(pc := if k.pid !in y.handles || y.handles[k.pid].collected then KExit(false) else KProbe))
    case KProbe =>
      if c.fail then (y.(blocked := false), k.(pc := KThrown))
      else var (y', res) := Reap(y, k.pid); (y', k.(pc := KProbed(res)))
    case KProbed(res) =>
      if res.NoChild? then (Collect(y, k.pid, res, c.time), k.(pc := KExit(false)))
      else if res.Got? then (y, k.(pc := KExit(false)))
      else (y, k.(pc := if k.grace then KTerm else KKill))
    case KTerm =>
      if k.pid !in y.children || y.children[k.pid].Reaped? then (y, k.(pc := KExit(false)))
      else if c.fail then (y.(blocked := false), k.(pc := KThrown))
      else (y, k.(pc := KWaiting(Wait(k.pid, Enter, y.blocked, false, 0))))
    case KWaiting(w) =>
      if w.pc.Done? then
        if w.pc.ret then (y, k.(pc := KExit(HasCode(y, k.pid, -SIGTERM)))) else (y, k.(pc := KKill))
      else if w.pc.Thrown? then (y, k.(pc := KThrown))
      else var (y', w') := WaitStep(y, w, c); (y', k.(pc := KWaiting(w')))
    case KKill =>
      if k.pid !in y.children || y.children[k.pid].Reaped? then (y, k.(pc := KExit(false)))
      else if c.fail then (y.(blocked := false), k.(pc := KThrown))
      else (y, k.(pc := KReap))
    case KReap =>  // waits until the child has exited
      var (y', res) := Waitpid(y, k.pid);
      if res.StillRunning? then (y, k) else (y', k.(pc := KCollect(res)))
    case KCollect(res) =>
      if res.StillRunning? then (y, k) else
      var y' := Collect(y, k.pid, res, c.time);
      (y', k.(pc := KExit(HasCode(y', k.pid, -SIGKILL))))
    case KExit(killed) => (y.(blocked := false), k.(pc := KDone(killed)))
    case KDone(_) => (y, k)
    case KThrown => (y, k)
  }

  datatype FinalPc = FEnter | FFree | FUnblock | FKill(kill: Kill) | FClear | FDone | FThrown

  /** The finalizer of a handle. */
  datatype Final = Final(pid: Pid, cleanup: bool, grace: bool, pc: FinalPc)

  function FinalStep(y: Sys, f: Final, c: Choice): (Sys, Final) {
    match f.pc
    case FEnter => (y.(blocked := true), f.(pc := FFree))
    case FFree => (y, f.(pc := FUnblock))
    case FUnblock =>
      (y.(blocked := false),
       f.(pc := if f.pid in y.handles && f.cleanup then FKill(Kill(f.pid, f.grace, KEnter)) else FClear))
    case FKill(k) =>
      if k.pc.KDone? then (y, f.(pc := FClear))
      else if k.pc.KThrown? then (y, f.(pc := FThrown))
      else var (y', k') := KillStep(y, k, c); (y', f.(pc := FKill(k')))
    case FClear => (y.(handles := y.handles - {f.pid}), f.(pc := FDone))
    case FDone => (y, f)
    case FThrown => (y, f)
  }

  datatype ExecPc = EEnter | EFork | EAdd | EUnblock | ERead | EReap | EDone | EThrown

  /** Starting a child. Its pid is new. */
  datatype Exec = Exec(pid: Pid, pc: ExecPc)

  function ExecStep(y: Sys, e: Exec, c: Choice): (Sys, Exec) {
    match e.pc
    case EEnter => (y.(blocked := true), e.(pc := EFork))
    case EFork =>
      if c.fail || e.pid in y.children then (y.(blocked := false), e.(pc := EThrown))
      else (y.(children := y.children[e.pid := Running]), e.(pc := EAdd))
    case EAdd =>
      (y.(list := [e.pid] + y.list, handles := y.handles[e.pid := Handle(false, NA, 0, None)]), e.(pc := EUnblock))
    case EUnblock => (y.(blocked := false), e.(pc := ERead))
    case ERead =>  // could the child be started? timeUp: not even that is known
      (y, e.(pc := if !c.fail then EDone else if c.timeUp then EThrown else EReap))
    case EReap =>  // waits until the child has exited
      var (y', res) := Reap(y, e.pid);
      if res.StillRunning? then (y, e) else (y', e.(pc := EThrown))
    case EDone => (y, e)
    case EThrown => (y, e)
  }

  datatype Main =
    | Idle(mask: bool)
    | InWait(wait: Wait)
    | InProbe(probe: Probe)
    | InSignal(signal: Signal)
    | InKill(kill: Kill)
    | InFinal(final: Final)
    | InExec(exec: Exec)

  // ----- Everything together -----

  /** `handler` is the part of the list that a running handler has still to go
      through. While it runs, the main code does not. */
  datatype State = State(sys: Sys, main: Main, handler: Option<seq<Pid>>)

  datatype Action =
    | ChildExits(pid: Pid, status: WaitStatus)
    | Stolen(pid: Pid)            // somebody else waits for the child
    | Spurious                    // some other process sends SIGCHLD
    | Lost                        // somebody else's handler gets the signal
    | Deliver                     // the handler starts
    | HandlerStep(time: nat)
    | Call(main: Main)
    | MainStep(choice: Choice)
    | Return

  /** Remove a child from the list. */
  function Without(list: seq<Pid>, pid: Pid): seq<Pid> {
    if list == [] then [] else if list[0] == pid then Without(list[1..], pid) else [list[0]] + Without(list[1..], pid)
  }

  /** Store the status of a child, take it off the list and wake up who waits
      for it, by closing the pipe that they poll. */
  function Store(y: Sys, pid: Pid, res: WaitResult, time: nat): Sys
    requires !res.StillRunning?
  {
    var list := Without(y.list, pid);
    if pid !in y.handles then y.(list := list) else
    var h := Collected(y.handles[pid], res, time);
    y.(list := list,
       handles := y.handles[pid := h.(waitPipe := None)],
       pipes := if h.waitPipe.Some? then y.pipes[h.waitPipe.value := false] else y.pipes)
  }

  /** One turn of the loop of the handler. */
  function HandleNode(y: Sys, pid: Pid, time: nat): Sys {
    var (y', res) := Waitpid(y, pid);
    if res.StillRunning? then y' else Store(y', pid, res, time)
  }

  predicate Starts(main: Main, mask: bool) {
    match main
    case Idle(_) => false
    case InWait(w) => w.pc.Enter? && w.entry == mask
    case InProbe(p) => p.pc.PEnter?
    case InSignal(g) => g.pc.SEnter?
    case InKill(k) => k.pc.KEnter?
    case InFinal(f) => f.pc.FEnter?
    case InExec(e) => e.pc.EEnter?
  }

  predicate Finished(main: Main) {
    match main
    case Idle(_) => false
    case InWait(w) => w.pc.Done? || w.pc.Thrown?
    case InProbe(p) => p.pc.PDone? || p.pc.PThrown?
    case InSignal(g) => g.pc.SDone? || g.pc.SThrown?
    case InKill(k) => k.pc.KDone? || k.pc.KThrown?
    case InFinal(f) => f.pc.FDone? || f.pc.FThrown?
    case InExec(e) => e.pc.EDone? || e.pc.EThrown?
  }

  function MainStepOf(y: Sys, main: Main, c: Choice): (Sys, Main) {
    match main
    case Idle(_) => (y, main)
    case InWait(w) => var (y', w') := WaitStep(y, w, c); (y', InWait(w'))
    case InProbe(p) => var (y', p') := ProbeStep(y, p, c); (y', InProbe(p'))
    case InSignal(g) => var (y', g') := SignalStep(y, g, c); (y', InSignal(g'))
    case InKill(k) => var (y', k') := KillStep(y, k, c); (y', InKill(k'))
    case InFinal(f) => var (y', f') := FinalStep(y, f, c); (y', InFinal(f'))
    case InExec(e) => var (y', e') := ExecStep(y, e, c); (y', InExec(e'))
  }

  predicate Enabled(s: State, a: Action) {
    match a
    case ChildExits(pid, _) => pid in s.sys.children && s.sys.children[pid].Running?
    case Stolen(pid) => pid in s.sys.children && s.sys.children[pid].Zombie?
    case Spurious => true
    case Lost => s.sys.pending
    case Deliver => s.handler.None? && s.sys.pending && !s.sys.blocked
    case HandlerStep(_) => s.handler.Some?
    case Call(main) => s.handler.None? && s.main.Idle? && Starts(main, s.main.mask)
    case MainStep(_) => s.handler.None? && !s.main.Idle? && !Finished(s.main)
    case Return => s.handler.None? && Finished(s.main)
  }

  function Apply(s: State, a: Action): State
    requires Enabled(s, a)
  {
    var y := s.sys;
    match a
    case ChildExits(pid, status) =>
      s.(sys := y.(children := y.children[pid := Zombie(status)], pending := true))
    case Stolen(pid) =>
      s.(sys := y.(children := y.children[pid := Reaped(y.children[pid].status)], dropped := y.dropped + {pid}))
    case Spurious => s.(sys := y.(pending := true))
    case Lost => s.(sys := y.(pending := false, intact := false))
    case Deliver => s.(sys := y.(pending := false, blocked := true), handler := Some(y.list))
    case HandlerStep(time) =>
      if s.handler.value == [] then s.(sys := y.(blocked := false), handler := None)
      else s.(sys := HandleNode(y, s.handler.value[0], time), handler := Some(s.handler.value[1..]))
    case Call(main) => s.(main := main)
    case MainStep(c) => var (y', main') := MainStepOf(y, s.main, c); s.(sys := y', main := main')
    case Return => s.(main := Idle(y.blocked))
  }

  predicate Init(s: State) {
    s == State(Sys(map[], false, false, true, [], map[], map[], {}), Idle(false), None)
  }

  // ----- The signal mask -----

  /** May the main code have the signal mask `mask` where it is? */
  predicate WaitMask(w: Wait, mask: bool) {
    match w.pc
    case Enter => mask == w.entry
    case Check => mask case Leave => mask case Setup => mask case Unblock => mask
    case Poll => !mask case CheckAlive => !mask case Cleanup(_) => !mask case Restore(_) => !mask
    case Done(_) => mask == w.entry
    case Thrown(m) => mask == m
  }

  predicate KillMask(k: Kill, mask: bool) {
    match k.pc
    case KEnter => true
    case KWaiting(w) => WaitMask(w, mask)
    case KDone(_) => !mask
    case KThrown => true
    case _ => mask
  }

  predicate MainMask(main: Main, mask: bool) {
    match main
    case Idle(m) => mask == m
    case InWait(w) => WaitMask(w, mask)
    case InProbe(p) => p.pc.PEnter? || (if p.pc.PDone? || p.pc.PThrown? then !mask else mask)
    case InSignal(g) => g.pc.SEnter? || (if g.pc.SDone? || g.pc.SThrown? then !mask else mask)
    case InKill(k) => KillMask(k, mask)
    case InFinal(f) =>
      (match f.pc
       case FEnter => true
       case FFree => mask case FUnblock => mask
       case FKill(k) => KillMask(k, mask)
       case FClear => !mask case FDone => !mask
       case FThrown => true)
    case InExec(e) => e.pc.EEnter? || (if e.pc.EFork? || e.pc.EAdd? || e.pc.EUnblock? then mask else !mask)
  }

  // ----- The invariant -----

  predicate Gone(y: Sys, pid: Pid) { pid !in y.children || y.children[pid].Reaped? }

  /** There is nothing to wait for: no handle, a status, or no process. */
  predicate Over(y: Sys, pid: Pid) {
    pid !in y.handles || y.handles[pid].collected || Gone(y, pid)
  }

  /** There is a handle, and it has no status yet. */
  predicate Waiting(y: Sys, pid: Pid) { pid in y.handles && !y.handles[pid].collected }

  /** A result of waitpid is about this child. */
  predicate ResultOk(y: Sys, pid: Pid, res: WaitResult) {
    match res
    case StillRunning => true
    case Got(status) => pid in y.children && y.children[pid] == Reaped(status)
    case NoChild => Gone(y, pid)
  }

  /** A handle has the status of its child, or NA, or none yet, and then the
      handler looks after the child. */
  predicate HandleOk(y: Sys, pid: Pid, h: Handle) {
    && pid in y.children
    && (if h.collected
        then y.children[pid].Reaped? && (h.exitcode == NA || h.exitcode == Decode(y.children[pid].status))
        else h.exitcode == NA && pid in y.list)
    && (h.waitPipe.Some? ==> h.waitPipe.value in y.pipes)
  }

  ghost predicate SysInv(y: Sys) {
    && (forall p | p in y.handles :: HandleOk(y, p, y.handles[p]))
    && (forall p | p in y.list :: p in y.children)
  }

  /** The handler will get to every child of its list that has exited. */
  ghost predicate Due(y: Sys, todo: seq<Pid>) {
    y.intact ==> forall p | p in y.list && p in y.children && !y.children[p].Running? :: y.pending || p in todo
  }

  /** The pipe that wait polls is closed as soon as the status is there, and
      not before. */
  ghost predicate Watching(y: Sys, w: Wait) {
    && w.pid in y.handles && w.pipe in y.pipes
    && (if y.handles[w.pid].collected then !y.pipes[w.pipe]
        else y.pipes[w.pipe] && y.handles[w.pid].waitPipe == Some(w.pipe))
    && (forall p | p in y.handles && p != w.pid :: y.handles[p].waitPipe != Some(w.pipe))
  }

  predicate NoPipe(y: Sys, pid: Pid) { pid in y.handles ==> y.handles[pid].waitPipe.None? }

  ghost predicate WaitInv(y: Sys, w: Wait) {
    && (!w.pc.Enter? ==> w.saved == w.entry)
    && match w.pc
       case Enter => true
       case Check => true
       case Leave => Over(y, w.pid)
       case Setup => w.pid in y.handles && !y.handles[w.pid].collected
       case Unblock => Watching(y, w)
       case Poll => Watching(y, w)
       case CheckAlive => Watching(y, w)
       case Cleanup(ret) => ret ==> Over(y, w.pid)
       case Restore(ret) => (ret ==> Over(y, w.pid)) && NoPipe(y, w.pid)
       case Done(ret) => ret ==> Over(y, w.pid)
       case Thrown(_) => true
  }

  /** The child was killed, by one of the two signals. */
  predicate KilledOk(y: Sys, pid: Pid) {
    && pid in y.handles && y.handles[pid].collected
    && (y.handles[pid].exitcode == Code(-SIGTERM) || y.handles[pid].exitcode == Code(-SIGKILL))
  }

  ghost predicate KillInv(y: Sys, k: Kill) {
    match k.pc
    case KProbed(res) => ResultOk(y, k.pid, res)
    case KTerm => k.grace
    case KWaiting(w) => k.grace && w.pid == k.pid && w.entry && WaitInv(y, w)
    case KCollect(res) => ResultOk(y, k.pid, res) && !res.StillRunning?
    case KExit(killed) => killed ==> KilledOk(y, k.pid)
    case KDone(killed) => killed ==> KilledOk(y, k.pid)
    case _ => true
  }

  ghost predicate MainInv(y: Sys, main: Main) {
    match main
    case Idle(_) => true
    case InWait(w) => WaitInv(y, w)
    case InProbe(p) =>
      (match p.pc
       case PWait => Waiting(y, p.pid)
       case PCollect(res) => ResultOk(y, p.pid, res) && Waiting(y, p.pid)
       case PExit(alive) => alive <==> Waiting(y, p.pid)
       case PDone(alive) => alive || p.pid !in y.handles || y.handles[p.pid].collected
       case _ => true)
    case InSignal(g) =>
      && (g.pc.SSend? ==> Waiting(y, g.pid))
      && (g.pc.SCollect? ==> ResultOk(y, g.pid, g.pc.res))
    case InKill(k) => KillInv(y, k)
    case InFinal(f) =>
      && (f.pc.FKill? ==>
            KillInv(y, f.pc.kill) && f.pc.kill.pid == f.pid && f.pc.kill.grace == f.grace && f.cleanup)
      && (f.pc.FDone? ==> f.pid !in y.handles)
    case InExec(e) =>
      && (e.pc.EAdd? ==>
            && e.pid in y.children && e.pid !in y.handles
            && (y.intact && !y.children[e.pid].Running? ==> y.pending)
            && (y.children[e.pid].Reaped? ==> e.pid in y.dropped))
      && (e.pc.EUnblock? || e.pc.ERead? || e.pc.EReap? || e.pc.EDone? ==> e.pid in y.handles)
  }

  // ----- Where a status can get lost -----

  function ProbeHand(p: Probe): Option<Pid> {
    if p.pc.PCollect? && p.pc.res.Got? then Some(p.pid) else None
  }

  function KillHand(k: Kill): Option<Pid> {
    if k.pc.KCollect? && k.pc.res.Got? then Some(k.pid) else None
  }

  /** The child whose status a call has read and is about to store. */
  function Hand(main: Main): Option<Pid> {
    match main
    case InProbe(p) => ProbeHand(p)
    case InKill(k) => KillHand(k)
    case InFinal(f) => if f.pc.FKill? then KillHand(f.pc.kill) else None
    case _ => None
  }

  predicate KeptOk(y: Sys, pid: Pid, h: Handle, hand: Option<Pid>) {
    if h.collected then h.exitcode == NA <==> pid in y.dropped
    else pid in y.children && y.children[pid].Reaped? ==> pid in y.dropped || hand == Some(pid)
  }

  /** A status is NA exactly if somebody read it and did not store it. */
  ghost predicate Kept(y: Sys, hand: Option<Pid>) {
    && (forall p | p in y.handles :: KeptOk(y, p, y.handles[p], hand))
    && (forall p | p in y.dropped :: p in y.children && y.children[p].Reaped? && hand != Some(p))
  }

  ghost predicate Inv(s: State) {
    && SysInv(s.sys) && MainInv(s.sys, s.main)
    && (if s.handler.Some?
        then s.sys.blocked && MainMask(s.main, false) && Due(s.sys, s.handler.value)
        else MainMask(s.main, s.sys.blocked) && Due(s.sys, []))
    && Kept(s.sys, Hand(s.main))
  }

  // ----- What one step may do to the handles -----

  predicate SameStatus(h: Handle, h': Handle) {
    h.collected == h'.collected && h.exitcode == h'.exitcode && h.endTime == h'.endTime
  }

  /** A status is stored only once, and only with SIGCHLD blocked. */
  ghost predicate Evolves(y: Sys, y': Sys) {
    forall p | p in y.handles && p in y'.handles ::
      SameStatus(y.handles[p], y'.handles[p]) || (y.blocked && !y.handles[p].collected && y'.handles[p].collected)
  }

  // ----- What happens to the main code from outside -----

  predicate ChildMoves(c: Child, c': Child) {
    match c
    case Running => true
    case Zombie(status) => c' == c || c' == Reaped(status)
    case Reaped(_) => c' == c
  }

  predicate HandleMoves(y: Sys, y': Sys, h: Handle, h': Handle) {
    || h' == h
    || (&& h'.collected && h'.waitPipe.None?
        && (h.collected ==> SameStatus(h, h'))
        && (h.waitPipe.Some? ==> h.waitPipe.value in y'.pipes && !y'.pipes[h.waitPipe.value]))
  }

  /** The children may exit or be reaped at any time. If the mask of the main
      code lets it, the handler runs, and stores statuses. */
  ghost predicate Interferes(y: Sys, y': Sys, mask: bool) {
    && y'.children.Keys == y.children.Keys
    && (forall p | p in y.children :: ChildMoves(y.children[p], y'.children[p]))
    && y'.handles.Keys == y.handles.Keys && y'.pipes.Keys == y.pipes.Keys
    && (forall p | p in y.handles :: HandleMoves(y, y', y.handles[p], y'.handles[p]))
    && (forall q | q in y.pipes && y'.pipes[q] != y.pipes[q] ::
          !y'.pipes[q] && exists p :: p in y.handles && y.handles[p].waitPipe == Some(q) && y'.handles[p].collected)
    && (mask ==> y'.handles == y.handles && y'.pipes == y.pipes)
  }

  lemma WaitStable(y: Sys, y': Sys, w: Wait, mask: bool)
    requires Interferes(y, y', mask) && WaitMask(w, mask) && WaitInv(y, w)
    ensures WaitInv(y', w)
  {
  }

  lemma KillStable(y: Sys, y': Sys, k: Kill, mask: bool)
    requires Interferes(y, y', mask) && KillMask(k, mask) && KillInv(y, k)
    ensures KillInv(y', k)
  {
    if k.pc.KWaiting? { WaitStable(y, y', k.pc.wait, mask); }
  }

  lemma MainStable(y: Sys, y': Sys, main: Main, mask: bool)
    requires Interferes(y, y', mask) && MainMask(main, mask) && MainInv(y, main)
    requires main.InExec? && main.exec.pc.EAdd? ==> MainInv(y', main)
    ensures MainInv(y', main)
  {
    match main {
      case InWait(w) => WaitStable(y, y', w, mask);
      case InKill(k) => KillStable(y, y', k, mask);
      case InFinal(f) => if f.pc.FKill? { KillStable(y, y', f.pc.kill, mask); }
      case _ =>
    }
  }

  // ----- The steps of the main code -----

  /** What holds before and after each step of the main code. */
  ghost predicate Calm(y: Sys) { SysInv(y) && Due(y, []) }

  lemma WaitSetupKeeps(y: Sys, w: Wait, c: Choice)
    requires Calm(y) && WaitInv(y, w) && WaitMask(w, y.blocked) && w.pc.Setup?
    ensures var (y', w') := WaitStep(y, w, c);
      && Calm(y') && WaitInv(y', w') && WaitMask(w', y'.blocked) && Evolves(y, y')
  {
    if !c.fail && c.pipe !in y.pipes {
      var y' := WaitStep(y, w, c).0;
      forall p | p in y'.handles
        ensures HandleOk(y', p, y'.handles[p])
        ensures p != w.pid ==> y'.handles[p].waitPipe != Some(c.pipe)
      {
        assert HandleOk(y, p, y.handles[p]);
      }
    }
  }

  lemma WaitCleanupKeeps(y: Sys, w: Wait, c: Choice)
    requires Calm(y) && WaitInv(y, w) && WaitMask(w, y.blocked) && w.pc.Cleanup?
    ensures var (y', w') := WaitStep(y, w, c);
      && Calm(y') && WaitInv(y', w') && WaitMask(w', y'.blocked) && Evolves(y, y')
  {
    var (y', w') := WaitStep(y, w, c);
    forall p | p in y'.handles ensures HandleOk(y', p, y'.handles[p]) {
      assert HandleOk(y, p, y.handles[p]);
    }
  }

  /** The other steps of wait change nothing but the mask. */
  lemma WaitPollKeeps(y: Sys, w: Wait, c: Choice)
    requires WaitInv(y, w) && WaitMask(w, y.blocked) && (w.pc.Poll? || w.pc.CheckAlive?)
    ensures var (y', w') := WaitStep(y, w, c); y' == y && WaitInv(y, w') && WaitMask(w', y.blocked)
  {
  }

  lemma WaitOtherKeeps(y: Sys, w: Wait, c: Choice)
    requires WaitInv(y, w) && WaitMask(w, y.blocked)
    requires w.pc.Enter? || w.pc.Check? || w.pc.Leave? || w.pc.Unblock? || w.pc.Restore?
    ensures var (y', w') := WaitStep(y, w, c);
      && y' == y.(blocked := y'.blocked)
      && WaitInv(y', w') && WaitMask(w', y'.blocked)
  {
  }

  lemma WaitStepKeeps(y: Sys, w: Wait, c: Choice)
    requires Calm(y) && WaitInv(y, w) && WaitMask(w, y.blocked) && !w.pc.Done? && !w.pc.Thrown?
    ensures var (y', w') := WaitStep(y, w, c);
      && Calm(y') && WaitInv(y', w') && WaitMask(w', y'.blocked) && Evolves(y, y')
      && w'.pid == w.pid && w'.entry == w.entry
  {
    if w.pc.Setup? { WaitSetupKeeps(y, w, c); }
    else if w.pc.Cleanup? { WaitCleanupKeeps(y, w, c); }
    else if w.pc.Poll? || w.pc.CheckAlive? { WaitPollKeeps(y, w, c); }
    else { WaitOtherKeeps(y, w, c); }
  }

  lemma WaitpidKeeps(y: Sys, pid: Pid)
    requires Calm(y)
    ensures var (y', res) := Waitpid(y, pid);
      && Calm(y') && y' == y.(children := y'.children) && ResultOk(y', pid, res)
      && (res.StillRunning? ==> y' == y)
  {
  }

  lemma ReapKeeps(y: Sys, pid: Pid)
    requires Calm(y)
    ensures var (y', res) := Reap(y, pid);
      && Calm(y') && y' == y.(children := y'.children, dropped := y'.dropped) && ResultOk(y', pid, res)
      && (res.StillRunning? ==> y' == y)
  {
    WaitpidKeeps(y, pid);
  }

  lemma CollectKeeps(y: Sys, pid: Pid, res: WaitResult, time: nat)
    requires Calm(y) && ResultOk(y, pid, res) && !res.StillRunning? && y.blocked
    ensures var y' := Collect(y, pid, res, time);
      && Calm(y') && Evolves(y, y') && y' == y.(handles := y'.handles) && y'.handles.Keys == y.handles.Keys
      && (pid in y.handles ==> y'.handles[pid].collected)
      && (forall p | p in y.handles && p != pid :: y'.handles[p] == y.handles[p])
  {
  }

  lemma ProbeStepKeeps(y: Sys, p: Probe, c: Choice)
    requires Calm(y) && MainInv(y, InProbe(p)) && MainMask(InProbe(p), y.blocked) && !Finished(InProbe(p))
    ensures var (y', p') := ProbeStep(y, p, c);
      && Calm(y') && MainInv(y', InProbe(p')) && MainMask(InProbe(p'), y'.blocked) && Evolves(y, y')
  {
    match p.pc {
      case PWait => WaitpidKeeps(y, p.pid);
      case PCollect(res) => if !res.StillRunning? { CollectKeeps(y, p.pid, res, c.time); }
      case _ =>
    }
  }

  lemma SignalStepKeeps(y: Sys, g: Signal, c: Choice)
    requires Calm(y) && MainInv(y, InSignal(g)) && MainMask(InSignal(g), y.blocked) && !Finished(InSignal(g))
    ensures var (y', g') := SignalStep(y, g, c);
      && Calm(y') && MainInv(y', InSignal(g')) && MainMask(InSignal(g'), y'.blocked) && Evolves(y, y')
  {
    match g.pc {
      case SWait(_) => ReapKeeps(y, g.pid);
      case SCollect(_, res) => if res.NoChild? { CollectKeeps(y, g.pid, res, c.time); }
      case _ =>
    }
  }

  /** A code is only in a handle whose status was collected. */
  lemma CodeIsCollected(y: Sys, pid: Pid, code: int)
    requires SysInv(y) && HasCode(y, pid, code)
    ensures y.handles[pid].collected
  {
    assert HandleOk(y, pid, y.handles[pid]);
  }

  lemma KillWaitKeeps(y: Sys, k: Kill, c: Choice)
    requires Calm(y) && KillInv(y, k) && KillMask(k, y.blocked) && k.pc.KWaiting?
    ensures var (y', k') := KillStep(y, k, c);
      && Calm(y') && KillInv(y', k') && KillMask(k', y'.blocked) && Evolves(y, y')
  {
    var w := k.pc.wait;
    if w.pc.Done? {
      if HasCode(y, k.pid, -SIGTERM) { CodeIsCollected(y, k.pid, -SIGTERM); }
    } else if !w.pc.Thrown? {
      WaitStepKeeps(y, w, c);
    }
  }

  lemma KillCollectKeeps(y: Sys, k: Kill, c: Choice)
    requires Calm(y) && KillInv(y, k) && KillMask(k, y.blocked) && k.pc.KCollect?
    ensures var (y', k') := KillStep(y, k, c);
      && Calm(y') && KillInv(y', k') && KillMask(k', y'.blocked) && Evolves(y, y')
  {
    CollectKeeps(y, k.pid, k.pc.res, c.time);
    var y' := Collect(y, k.pid, k.pc.res, c.time);
    if HasCode(y', k.pid, -SIGKILL) { CodeIsCollected(y', k.pid, -SIGKILL); }
  }

  lemma KillProbedKeeps(y: Sys, k: Kill, c: Choice)
    requires Calm(y) && KillInv(y, k) && KillMask(k, y.blocked) && k.pc.KProbed?
    ensures var (y', k') := KillStep(y, k, c);
      && Calm(y') && KillInv(y', k') && KillMask(k', y'.blocked) && Evolves(y, y')
  {
    if k.pc.res.NoChild? { CollectKeeps(y, k.pid, k.pc.res, c.time); }
  }

  lemma KillReapKeeps(y: Sys, k: Kill, c: Choice)
    requires Calm(y) && KillInv(y, k) && KillMask(k, y.blocked) && (k.pc.KProbe? || k.pc.KReap?)
    ensures var (y', k') := KillStep(y, k, c);
      && Calm(y') && KillInv(y', k') && KillMask(k', y'.blocked) && Evolves(y, y')
  {
    if k.pc.KProbe? { ReapKeeps(y, k.pid); } else { WaitpidKeeps(y, k.pid); }
  }

  /** The other steps of kill change nothing but the mask. */
  lemma KillOtherKeeps(y: Sys, k: Kill, c: Choice)
    requires KillInv(y, k) && KillMask(k, y.blocked)
    requires k.pc.KEnter? || k.pc.KCheck? || k.pc.KTerm? || k.pc.KKill? || k.pc.KExit?
    ensures var (y', k') := KillStep(y, k, c);
      y' == y.(blocked := y'.blocked) && KillInv(y', k') && KillMask(k', y'.blocked)
  {
  }

  lemma KillStepKeeps(y: Sys, k: Kill, c: Choice)
    requires Calm(y) && KillInv(y, k) && KillMask(k, y.blocked) && !k.pc.KDone? && !k.pc.KThrown?
    ensures var (y', k') := KillStep(y, k, c);
      && Calm(y') && KillInv(y', k') && KillMask(k', y'.blocked) && Evolves(y, y')
  {
    if k.pc.KWaiting? { KillWaitKeeps(y, k, c); }
    else if k.pc.KProbed? { KillProbedKeeps(y, k, c); }
    else if k.pc.KCollect? { KillCollectKeeps(y, k, c); }
    else if k.pc.KProbe? || k.pc.KReap? { KillReapKeeps(y, k, c); }
    else { KillOtherKeeps(y, k, c); }
  }

  lemma ClearKeeps(y: Sys, pid: Pid)
    requires Calm(y)
    ensures var y' := y.(handles := y.handles - {pid}); Calm(y') && Evolves(y, y')
  {
    var y' := y.(handles := y.handles - {pid});
    forall p | p in y'.handles ensures HandleOk(y', p, y'.handles[p]) {
      assert HandleOk(y, p, y.handles[p]);
    }
  }

  lemma KillSame(y: Sys, k: Kill, c: Choice)
    ensures KillStep(y, k, c).1.pid == k.pid && KillStep(y, k, c).1.grace == k.grace
  {
  }

  lemma FinalKillKeeps(y: Sys, f: Final, c: Choice)
    requires Calm(y) && MainInv(y, InFinal(f)) && MainMask(InFinal(f), y.blocked) && f.pc.FKill?
    ensures var (y', f') := FinalStep(y, f, c);
      && Calm(y') && MainInv(y', InFinal(f')) && MainMask(InFinal(f'), y'.blocked) && Evolves(y, y')
  {
    if !f.pc.kill.pc.KDone? && !f.pc.kill.pc.KThrown? {
      KillStepKeeps(y, f.pc.kill, c);
      KillSame(y, f.pc.kill, c);
    }
  }

  lemma FinalStepKeeps(y: Sys, f: Final, c: Choice)
    requires Calm(y) && MainInv(y, InFinal(f)) && MainMask(InFinal(f), y.blocked) && !Finished(InFinal(f))
    ensures var (y', f') := FinalStep(y, f, c);
      && Calm(y') && MainInv(y', InFinal(f')) && MainMask(InFinal(f'), y'.blocked) && Evolves(y, y')
  {
    if f.pc.FClear? { ClearKeeps(y, f.pid); }
    if f.pc.FKill? { FinalKillKeeps(y, f, c); }
  }

  lemma ExecForkKeeps(y: Sys, e: Exec, c: Choice)
    requires Calm(y) && y.blocked && e.pc.EFork?
    ensures var (y', e') := ExecStep(y, e, c);
      && Calm(y') && MainInv(y', InExec(e')) && MainMask(InExec(e'), y'.blocked) && Evolves(y, y')
  {
    var y' := ExecStep(y, e, c).0;
    forall p | p in y'.handles ensures HandleOk(y', p, y'.handles[p]) {
      assert HandleOk(y, p, y.handles[p]);
    }
  }

  lemma ExecAddKeeps(y: Sys, e: Exec, c: Choice)
    requires Calm(y) && MainInv(y, InExec(e)) && y.blocked && e.pc.EAdd?
    ensures var (y', e') := ExecStep(y, e, c);
      && Calm(y') && MainInv(y', InExec(e')) && MainMask(InExec(e'), y'.blocked) && Evolves(y, y')
  {
    var y' := ExecStep(y, e, c).0;
    forall p | p in y'.handles ensures HandleOk(y', p, y'.handles[p]) {
      if p in y.handles { assert HandleOk(y, p, y.handles[p]); }
    }
  }

  lemma ExecStepKeeps(y: Sys, e: Exec, c: Choice)
    requires Calm(y) && MainInv(y, InExec(e)) && MainMask(InExec(e), y.blocked) && !Finished(InExec(e))
    ensures var (y', e') := ExecStep(y, e, c);
      && Calm(y') && MainInv(y', InExec(e')) && MainMask(InExec(e'), y'.blocked) && Evolves(y, y')
  {
    match e.pc {
      case EFork => ExecForkKeeps(y, e, c);
      case EAdd => ExecAddKeeps(y, e, c);
      case EReap => ReapKeeps(y, e.pid);
      case _ =>
    }
  }

  lemma MainStepKeeps(y: Sys, main: Main, c: Choice)
    requires Calm(y) && MainInv(y, main) && MainMask(main, y.blocked) && !main.Idle? && !Finished(main)
    ensures var (y', main') := MainStepOf(y, main, c);
      && Calm(y') && MainInv(y', main') && MainMask(main', y'.blocked) && Evolves(y, y')
  {
    match main {
      case InWait(w) => WaitStepKeeps(y, w, c);
      case InProbe(p) => ProbeStepKeeps(y, p, c);
      case InSignal(g) => SignalStepKeeps(y, g, c);
      case InKill(k) => KillStepKeeps(y, k, c);
      case InFinal(f) => FinalStepKeeps(y, f, c);
      case InExec(e) => ExecStepKeeps(y, e, c);
    }
  }

  // ----- The steps of the handler -----

  lemma {:induction false} WithoutIs(list: seq<Pid>, pid: Pid)
    ensures forall p :: p in Without(list, pid) <==> p in list && p != pid
  {
    if list != [] { WithoutIs(list[1..], pid); }
  }

  /** The handler reaps the next child of its list. */
  lemma HandlerReaps(y: Sys, todo: seq<Pid>)
    requires SysInv(y) && todo != [] && Due(y, todo)
    ensures var (y', res) := Waitpid(y, todo[0]);
      && SysInv(y') && Due(y', todo) && ResultOk(y', todo[0], res) && Interferes(y, y', false)
      && y' == y.(children := y'.children)
      && (res.StillRunning? ==> Due(y', todo[1..]))
      && (!res.StillRunning? ==> Gone(y', todo[0]))
  {
    var (y', res) := Waitpid(y, todo[0]);
    forall p | p in y'.handles ensures HandleOk(y', p, y'.handles[p]) {
      assert HandleOk(y, p, y.handles[p]);
    }
    if res.StillRunning? { RunningIsNotDue(y, todo); }
  }

  lemma RunningIsNotDue(y: Sys, todo: seq<Pid>)
    requires todo != [] && Due(y, todo) && todo[0] in y.children && y.children[todo[0]].Running?
    ensures Due(y, todo[1..])
  {
    assert forall p | p in todo && p != todo[0] :: p in todo[1..];
  }

  lemma StoreKeepsHandles(y: Sys, pid: Pid, res: WaitResult, time: nat)
    requires SysInv(y) && y.blocked && ResultOk(y, pid, res) && !res.StillRunning? && Gone(y, pid)
    ensures SysInv(Store(y, pid, res, time)) && Evolves(y, Store(y, pid, res, time))
  {
    WithoutIs(y.list, pid);
    var y' := Store(y, pid, res, time);
    forall p | p in y'.handles ensures HandleOk(y', p, y'.handles[p]) {
      assert HandleOk(y, p, y.handles[p]);
    }
  }

  lemma StoreInterferes(y: Sys, pid: Pid, res: WaitResult, time: nat)
    requires SysInv(y) && !res.StillRunning?
    ensures Interferes(y, Store(y, pid, res, time), false)
  {
    if pid in y.handles { assert HandleOk(y, pid, y.handles[pid]); }
  }

  lemma HandleNodeKeeps(y: Sys, todo: seq<Pid>, time: nat)
    requires SysInv(y) && y.blocked && todo != [] && Due(y, todo)
    ensures var y' := HandleNode(y, todo[0], time);
      && SysInv(y') && Due(y', todo[1..]) && y'.blocked && Evolves(y, y')
  {
    HandlerReaps(y, todo);
    var (y1, res) := Waitpid(y, todo[0]);
    if !res.StillRunning? {
      StoreKeepsHandles(y1, todo[0], res, time);
      WithoutIs(y1.list, todo[0]);
      assert forall p | p in todo && p != todo[0] :: p in todo[1..];
    }
  }

  /** To the main code, the two halves of it look like two interruptions. */
  lemma HandleNodeLeavesMain(y: Sys, todo: seq<Pid>, time: nat, main: Main)
    requires SysInv(y) && todo != [] && Due(y, todo) && MainMask(main, false) && MainInv(y, main)
    ensures MainInv(HandleNode(y, todo[0], time), main)
  {
    HandlerReaps(y, todo);
    var (y1, res) := Waitpid(y, todo[0]);
    MainStable(y, y1, main, false);
    if !res.StillRunning? {
      StoreInterferes(y1, todo[0], res, time);
      MainStable(y1, Store(y1, todo[0], res, time), main, false);
    }
  }

  // ----- No step loses a status but those that drop it -----

  /** Wait only sets the pipe in its handle. */
  predicate PipesOnly(y: Sys, y': Sys) {
    && y' == y.(blocked := y'.blocked, handles := y'.handles, pipes := y'.pipes)
    && y'.handles.Keys == y.handles.Keys
    && forall p | p in y.handles :: SameStatus(y.handles[p], y'.handles[p])
  }

  lemma WaitPipes(y: Sys, w: Wait, c: Choice)
    requires w.pc.Setup? || w.pc.Cleanup?
    ensures PipesOnly(y, WaitStep(y, w, c).0)
  {
  }

  lemma WaitMaskOnly(y: Sys, w: Wait, c: Choice)
    requires !w.pc.Setup? && !w.pc.Cleanup?
    ensures WaitStep(y, w, c).0 == y.(blocked := WaitStep(y, w, c).0.blocked)
  {
  }

  lemma WaitPipesOnly(y: Sys, w: Wait, c: Choice)
    ensures PipesOnly(y, WaitStep(y, w, c).0)
  {
    if w.pc.Setup? || w.pc.Cleanup? { WaitPipes(y, w, c); } else { WaitMaskOnly(y, w, c); }
  }

  lemma WaitKept(y: Sys, w: Wait, c: Choice, hand: Option<Pid>)
    requires Kept(y, hand)
    ensures Kept(WaitStep(y, w, c).0, hand)
  {
    WaitPipesOnly(y, w, c);
    var y' := WaitStep(y, w, c).0;
    forall p | p in y'.handles ensures KeptOk(y', p, y'.handles[p], hand) {
      assert KeptOk(y, p, y.handles[p], hand) && SameStatus(y.handles[p], y'.handles[p]);
    }
  }

  /** The signal mask does not matter. */
  lemma MaskKept(y: Sys, blocked: bool, hand: Option<Pid>)
    requires Kept(y, hand)
    ensures Kept(y.(blocked := blocked), hand)
  {
    var y' := y.(blocked := blocked);
    forall p | p in y'.handles ensures KeptOk(y', p, y'.handles[p], hand) {
      assert KeptOk(y, p, y.handles[p], hand);
    }
  }

  lemma WaitpidKept(y: Sys, pid: Pid)
    requires SysInv(y) && Kept(y, None)
    ensures var (y', res) := Waitpid(y, pid);
      Kept(y', if res.Got? then Some(pid) else None)
  {
    var (y', res) := Waitpid(y, pid);
    forall p | p in y'.handles
      ensures KeptOk(y', p, y'.handles[p], if res.Got? then Some(pid) else None)
    {
      assert KeptOk(y, p, y.handles[p], None) && HandleOk(y, p, y.handles[p]);
    }
  }

  lemma ReapKept(y: Sys, pid: Pid)
    requires SysInv(y) && Kept(y, None)
    ensures Kept(Reap(y, pid).0, None)
  {
    WaitpidKept(y, pid);
    var (y1, res) := Waitpid(y, pid);
    var y' := Reap(y, pid).0;
    forall p | p in y'.handles ensures KeptOk(y', p, y'.handles[p], None) {
      assert KeptOk(y, p, y.handles[p], None) && HandleOk(y, p, y.handles[p]);
    }
  }

  lemma CollectKept(y: Sys, pid: Pid, res: WaitResult, time: nat)
    requires SysInv(y) && ResultOk(y, pid, res) && !res.StillRunning?
    requires Kept(y, if res.Got? then Some(pid) else None)
    ensures Kept(Collect(y, pid, res, time), None)
  {
    var y' := Collect(y, pid, res, time);
    forall p | p in y'.handles ensures KeptOk(y', p, y'.handles[p], None) {
      assert KeptOk(y, p, y.handles[p], if res.Got? then Some(pid) else None) && HandleOk(y, p, y.handles[p]);
    }
  }

  lemma ProbeKept(y: Sys, p: Probe, c: Choice)
    requires SysInv(y) && MainInv(y, InProbe(p)) && Kept(y, ProbeHand(p))
    ensures var (y', p') := ProbeStep(y, p, c); Kept(y', ProbeHand(p'))
  {
    match p.pc {
      case PWait => if !c.fail { WaitpidKept(y, p.pid); }
      case PCollect(res) => if !res.StillRunning? { CollectKept(y, p.pid, res, c.time); }
      case _ =>
    }
  }

  lemma SignalKept(y: Sys, g: Signal, c: Choice)
    requires SysInv(y) && MainInv(y, InSignal(g)) && Kept(y, None)
    ensures Kept(SignalStep(y, g, c).0, None)
  {
    match g.pc {
      case SWait(_) => if !c.fail { ReapKept(y, g.pid); }
      case SCollect(_, res) => if res.NoChild? { CollectKept(y, g.pid, res, c.time); }
      case _ =>
    }
  }

  lemma KillReadKept(y: Sys, k: Kill, c: Choice)
    requires SysInv(y) && KillInv(y, k) && Kept(y, KillHand(k))
    requires k.pc.KProbe? || k.pc.KProbed? || k.pc.KReap? || k.pc.KCollect?
    ensures var (y', k') := KillStep(y, k, c); Kept(y', KillHand(k'))
  {
    match k.pc {
      case KProbe => if c.fail { MaskKept(y, false, None); } else { ReapKept(y, k.pid); }
      case KProbed(res) => if res.NoChild? { CollectKept(y, k.pid, res, c.time); }
      case KReap => WaitpidKept(y, k.pid);
      case KCollect(res) => CollectKept(y, k.pid, res, c.time);
    }
  }

  lemma KillKept(y: Sys, k: Kill, c: Choice)
    requires SysInv(y) && KillInv(y, k) && Kept(y, KillHand(k))
    ensures var (y', k') := KillStep(y, k, c); Kept(y', KillHand(k'))
  {
    match k.pc {
      case KWaiting(w) => if !w.pc.Done? && !w.pc.Thrown? { WaitKept(y, w, c, None); }
      case KEnter => MaskKept(y, true, None);
      case KTerm => MaskKept(y, false, None);
      case KKill => MaskKept(y, false, None);
      case KExit(_) => MaskKept(y, false, None);
      case KCheck =>
      case KDone(_) =>
      case KThrown =>
      case _ => KillReadKept(y, k, c);
    }
  }

  lemma ForkKept(y: Sys, pid: Pid)
    requires SysInv(y) && Kept(y, None) && pid !in y.children
    ensures Kept(y.(children := y.children[pid := Running]), None)
  {
    var y' := y.(children := y.children[pid := Running]);
    forall p | p in y'.handles ensures KeptOk(y', p, y'.handles[p], None) {
      assert KeptOk(y, p, y.handles[p], None);
    }
  }

  lemma AddKept(y: Sys, e: Exec, c: Choice)
    requires MainInv(y, InExec(e)) && Kept(y, None) && e.pc.EAdd?
    ensures Kept(ExecStep(y, e, c).0, None)
  {
    var y' := ExecStep(y, e, c).0;
    forall p | p in y'.handles ensures KeptOk(y', p, y'.handles[p], None) {
      if p in y.handles { assert KeptOk(y, p, y.handles[p], None); }
    }
  }

  lemma ExecKept(y: Sys, e: Exec, c: Choice)
    requires SysInv(y) && MainInv(y, InExec(e)) && Kept(y, None)
    ensures Kept(ExecStep(y, e, c).0, None)
  {
    match e.pc {
      case EEnter => MaskKept(y, true, None);
      case EFork => if c.fail || e.pid in y.children { MaskKept(y, false, None); } else { ForkKept(y, e.pid); }
      case EAdd => AddKept(y, e, c);
      case EUnblock => MaskKept(y, false, None);
      case EReap => ReapKept(y, e.pid);
      case _ =>
    }
  }

  lemma ClearKept(y: Sys, pid: Pid, hand: Option<Pid>)
    requires Kept(y, hand)
    ensures Kept(y.(handles := y.handles - {pid}), hand)
  {
    var y' := y.(handles := y.handles - {pid});
    forall p | p in y'.handles ensures KeptOk(y', p, y'.handles[p], hand) {
      assert KeptOk(y, p, y.handles[p], hand);
    }
  }

  lemma FinalOtherKept(y: Sys, f: Final, c: Choice)
    requires Kept(y, None) && !f.pc.FKill?
    ensures Kept(FinalStep(y, f, c).0, None)
  {
    match f.pc {
      case FEnter => MaskKept(y, true, None);
      case FUnblock => MaskKept(y, false, None);
      case FClear => ClearKept(y, f.pid, None);
      case _ =>
    }
  }

  lemma FinalKept(y: Sys, f: Final, c: Choice)
    requires SysInv(y) && MainInv(y, InFinal(f)) && Kept(y, Hand(InFinal(f)))
    ensures var (y', f') := FinalStep(y, f, c); Kept(y', Hand(InFinal(f')))
  {
    if !f.pc.FKill? { FinalOtherKept(y, f, c); }
    else if !f.pc.kill.pc.KDone? && !f.pc.kill.pc.KThrown? { KillKept(y, f.pc.kill, c); }
  }

  lemma MainKept(y: Sys, main: Main, c: Choice)
    requires SysInv(y) && MainInv(y, main) && Kept(y, Hand(main))
    ensures var (y', main') := MainStepOf(y, main, c); Kept(y', Hand(main'))
  {
    match main {
      case Idle(_) =>
      case InWait(w) => WaitKept(y, w, c, None);
      case InProbe(p) => ProbeKept(y, p, c);
      case InSignal(g) => SignalKept(y, g, c);
      case InKill(k) => KillKept(y, k, c);
      case InFinal(f) => FinalKept(y, f, c);
      case InExec(e) => ExecKept(y, e, c);
    }
  }

  lemma HandlerKept(y: Sys, pid: Pid, time: nat)
    requires SysInv(y) && Kept(y, None)
    ensures Kept(HandleNode(y, pid, time), None)
  {
    WaitpidKept(y, pid);
    var (y1, res) := Waitpid(y, pid);
    if !res.StillRunning? {
      var y' := Store(y1, pid, res, time);
      forall p | p in y'.handles ensures KeptOk(y', p, y'.handles[p], None) {
        assert KeptOk(y1, p, y1.handles[p], if res.Got? then Some(pid) else None) && HandleOk(y, p, y.handles[p]);
      }
    }
  }

  // ----- Whole runs -----

  /** A child exits, or somebody else waits for it. */
  lemma ChildKeeps(s: State, a: Action)
    requires Inv(s) && Enabled(s, a) && (a.ChildExits? || a.Stolen?)
    ensures var y' := Apply(s, a).sys;
      && SysInv(y') && Interferes(s.sys, y', true) && y'.handles == s.sys.handles
      && Due(y', if s.handler.Some? then s.handler.value else []) && Kept(y', Hand(s.main))
  {
    var y, y' := s.sys, Apply(s, a).sys;
    forall p | p in y'.handles
      ensures HandleOk(y', p, y'.handles[p]) && KeptOk(y', p, y'.handles[p], Hand(s.main))
    {
      assert HandleOk(y, p, y.handles[p]) && KeptOk(y, p, y.handles[p], Hand(s.main));
    }
  }

  lemma SignalKeeps(s: State, a: Action)
    requires Inv(s) && Enabled(s, a) && (a.Spurious? || a.Lost? || a.Deliver?)
    ensures Inv(Apply(s, a)) && Apply(s, a).sys.handles == s.sys.handles
  {
    var y, y' := s.sys, Apply(s, a).sys;
    forall p | p in y'.handles
      ensures HandleOk(y', p, y'.handles[p]) && KeptOk(y', p, y'.handles[p], Hand(s.main))
    {
      assert HandleOk(y, p, y.handles[p]) && KeptOk(y, p, y.handles[p], Hand(s.main));
    }
    MainStable(y, y', s.main, if s.handler.Some? then false else y.blocked);
  }

  lemma OutsideKeeps(s: State, a: Action)
    requires Inv(s) && Enabled(s, a)
    requires a.ChildExits? || a.Stolen? || a.Spurious? || a.Lost? || a.Deliver?
    ensures Inv(Apply(s, a)) && Apply(s, a).sys.handles == s.sys.handles
  {
    if a.ChildExits? || a.Stolen? {
      ChildKeeps(s, a);
      MainStable(s.sys, Apply(s, a).sys, s.main, if s.handler.Some? then false else s.sys.blocked);
    } else {
      SignalKeeps(s, a);
    }
  }

  lemma HandlerActionKeeps(s: State, time: nat)
    requires Inv(s) && Enabled(s, HandlerStep(time))
    ensures Inv(Apply(s, HandlerStep(time))) && Evolves(s.sys, Apply(s, HandlerStep(time)).sys)
  {
    if s.handler.value != [] {
      HandleNodeKeeps(s.sys, s.handler.value, time);
      HandleNodeLeavesMain(s.sys, s.handler.value, time, s.main);
      HandlerKept(s.sys, s.handler.value[0], time);
    }
  }

  lemma CallKeeps(s: State, a: Action)
    requires Inv(s) && Enabled(s, a) && (a.Call? || a.Return?)
    ensures Inv(Apply(s, a)) && Apply(s, a).sys == s.sys
  {
  }

  /** Every step, of whichever kind, keeps the invariant, and stores a status
      only where there is none and with SIGCHLD blocked. */
  lemma ApplyKeeps(s: State, a: Action)
    requires Inv(s) && Enabled(s, a)
    ensures Inv(Apply(s, a)) && Evolves(s.sys, Apply(s, a).sys)
  {
    match a {
      case HandlerStep(time) => HandlerActionKeeps(s, time);
      case MainStep(c) => MainStepKeeps(s.sys, s.main, c); MainKept(s.sys, s.main, c);
      case Call(_) => CallKeeps(s, a);
      case Return => CallKeeps(s, a);
      case _ => OutsideKeeps(s, a);
    }
  }

  /** A run: every action is possible when its turn comes. */
  ghost predicate Run(s: State, actions: seq<Action>)
    decreases |actions|, 0
  {
    actions == [] ||
    var n := |actions| - 1;
    Run(s, actions[..n]) && Enabled(After(s, actions[..n]), actions[n])
  }

  ghost function After(s: State, actions: seq<Action>): State
    requires Run(s, actions)
    decreases |actions|, 1
  {
    if actions == [] then s else
    var n := |actions| - 1;
    Apply(After(s, actions[..n]), actions[n])
  }

  lemma {:induction false} RunKeeps(s: State, actions: seq<Action>)
    requires Inv(s) && Run(s, actions)
    ensures Inv(After(s, actions))
    decreases |actions|
  {
    if actions != [] {
      var n := |actions| - 1;
      RunKeeps(s, actions[..n]);
      ApplyKeeps(After(s, actions[..n]), actions[n]);
    }
  }

  lemma InitInv(s: State)
    requires Init(s)
    ensures Inv(s)
  {
  }

  /** In every interleaving a handle has no status yet, and then the handler
      looks after the child; or it has the status of the child, except that it
      is NA exactly if somebody had read that status and had not stored it. */
  lemma StatusIsRight(s: State, actions: seq<Action>, pid: Pid)
    requires Init(s) && Run(s, actions) && pid in After(s, actions).sys.handles
    ensures var y := After(s, actions).sys;
      var h := y.handles[pid];
      && pid in y.children
      && if h.collected
         then
           && y.children[pid].Reaped?
           && (pid in y.dropped ==> h.exitcode == NA)
           && (pid !in y.dropped ==>
                 match y.children[pid].status
                 case Exited(code) => h.exitcode == Code(code)
                 case Signaled(sig) => h.exitcode == Code(-sig))
         else h.exitcode == NA && pid in y.list
  {
    InitInv(s);
    RunKeeps(s, actions);
    var y := After(s, actions).sys;
    assert HandleOk(y, pid, y.handles[pid]) && KeptOk(y, pid, y.handles[pid], Hand(After(s, actions).main));
  }

  predicate IsZombie(y: Sys, pid: Pid) { pid in y.children && y.children[pid].Zombie? }

  predicate KillDrops(y: Sys, k: Kill, c: Choice) { k.pc.KProbe? && !c.fail && IsZombie(y, k.pid) }

  /** Does the main code now read a status that it does not store? That takes
      a child that has exited, and a call that looks for one: signal after it
      sent the signal, kill before it does, or exec if it failed. */
  predicate Drops(y: Sys, main: Main, c: Choice) {
    match main
    case InSignal(g) => g.pc.SWait? && !c.fail && IsZombie(y, g.pid)
    case InKill(k) => KillDrops(y, k, c)
    case InFinal(f) => f.pc.FKill? && KillDrops(y, f.pc.kill, c)
    case InExec(e) => e.pc.EReap? && IsZombie(y, e.pid)
    case _ => false
  }

  lemma KillDropsOnly(y: Sys, k: Kill, c: Choice)
    requires !KillDrops(y, k, c)
    ensures KillStep(y, k, c).0.dropped == y.dropped
  {
    if k.pc.KWaiting? { WaitPipesOnly(y, k.pc.wait, c); }
  }

  lemma MainDropsOnly(y: Sys, main: Main, c: Choice)
    requires !Drops(y, main, c)
    ensures MainStepOf(y, main, c).0.dropped == y.dropped
  {
    match main {
      case InWait(w) => WaitPipesOnly(y, w, c);
      case InKill(k) => KillDropsOnly(y, k, c);
      case InFinal(f) => if f.pc.FKill? { KillDropsOnly(y, f.pc.kill, c); }
      case _ =>
    }
  }

  /** The status of a zombie was not dropped before. */
  lemma DroppedIsNew(y: Sys, pid: Pid, hand: Option<Pid>)
    requires Kept(y, hand) && IsZombie(y, pid)
    ensures pid !in y.dropped && Reap(y, pid).0.dropped != y.dropped
  {
    assert pid in Reap(y, pid).0.dropped;
  }

  lemma MainDrops(y: Sys, main: Main, c: Choice)
    requires Kept(y, Hand(main)) && Drops(y, main, c)
    ensures MainStepOf(y, main, c).0.dropped != y.dropped
  {
    match main {
      case InSignal(g) => DroppedIsNew(y, g.pid, Hand(main));
      case InKill(k) => DroppedIsNew(y, k.pid, Hand(main));
      case InFinal(f) => DroppedIsNew(y, f.pc.kill.pid, Hand(main));
      case InExec(e) => DroppedIsNew(y, e.pid, Hand(main));
      case _ =>
    }
  }

  /** A status is dropped exactly when somebody else waits for our child, or
      signal, the first look of kill, or a failed exec finds that it has
      exited. */
  lemma WhoDrops(s: State, a: Action)
    requires Inv(s) && Enabled(s, a)
    ensures Apply(s, a).sys.dropped != s.sys.dropped
      <==> a.Stolen? || (a.MainStep? && Drops(s.sys, s.main, a.choice))
  {
    match a {
      case MainStep(c) =>
        if Drops(s.sys, s.main, c) { MainDrops(s.sys, s.main, c); } else { MainDropsOnly(s.sys, s.main, c); }
      case Stolen(pid) =>
        DroppedIsNew(s.sys, pid, Hand(s.main));
        assert pid in Apply(s, a).sys.dropped;
      case _ =>
    }
  }

  /** A child whose handle is gone, or never was. */
  predicate NoHandle(s: State, pid: Pid) {
    && pid in s.sys.children && pid !in s.sys.handles
    && !(s.main.InExec? && s.main.exec.pc.EAdd? && s.main.exec.pid == pid)
  }

  predicate SameDomains(y: Sys, y': Sys) {
    y'.children.Keys == y.children.Keys && y'.handles.Keys == y.handles.Keys
  }

  lemma KillReapDomains(y: Sys, k: Kill, c: Choice)
    requires k.pc.KProbe? || k.pc.KProbed? || k.pc.KReap? || k.pc.KCollect?
    ensures SameDomains(y, KillStep(y, k, c).0)
  {
  }

  lemma KillOtherDomains(y: Sys, k: Kill, c: Choice)
    requires !k.pc.KWaiting? && !k.pc.KProbe? && !k.pc.KProbed? && !k.pc.KReap? && !k.pc.KCollect?
    ensures SameDomains(y, KillStep(y, k, c).0)
  {
  }

  lemma KillDomains(y: Sys, k: Kill, c: Choice)
    ensures SameDomains(y, KillStep(y, k, c).0)
  {
    if k.pc.KProbe? || k.pc.KProbed? || k.pc.KReap? || k.pc.KCollect? { KillReapDomains(y, k, c); }
    else if !k.pc.KWaiting? { KillOtherDomains(y, k, c); }
    else if !k.pc.wait.pc.Done? && !k.pc.wait.pc.Thrown? { WaitPipesOnly(y, k.pc.wait, c); }
  }

  lemma ProbeDomains(y: Sys, p: Probe, c: Choice)
    ensures SameDomains(y, ProbeStep(y, p, c).0)
  {
  }

  lemma SignalDomains(y: Sys, g: Signal, c: Choice)
    ensures SameDomains(y, SignalStep(y, g, c).0)
  {
  }

  lemma FinalDomains(y: Sys, f: Final, c: Choice)
    ensures var y' := FinalStep(y, f, c).0;
      SameDomains(y, y') || y' == y.(handles := y.handles - {f.pid})
  {
    if f.pc.FKill? { KillDomains(y, f.pc.kill, c); }
  }

  /** Handles come and go only with exec and the finalizer. */
  lemma MainDomains(y: Sys, main: Main, c: Choice)
    requires !main.InExec?
    ensures var y' := MainStepOf(y, main, c).0;
      SameDomains(y, y') || (main.InFinal? && y' == y.(handles := y.handles - {main.final.pid}))
  {
    match main {
      case Idle(_) =>
      case InWait(w) => WaitPipesOnly(y, w, c);
      case InProbe(p) => ProbeDomains(y, p, c);
      case InSignal(g) => SignalDomains(y, g, c);
      case InKill(k) => KillDomains(y, k, c);
      case InFinal(f) => FinalDomains(y, f, c);
    }
  }

  lemma ExecKeepsNoHandle(s: State, c: Choice, pid: Pid)
    requires Enabled(s, MainStep(c)) && NoHandle(s, pid) && s.main.InExec?
    ensures NoHandle(Apply(s, MainStep(c)), pid)
  {
  }

  lemma MainKeepsNoHandle(s: State, c: Choice, pid: Pid)
    requires Enabled(s, MainStep(c)) && NoHandle(s, pid)
    ensures NoHandle(Apply(s, MainStep(c)), pid)
  {
    if s.main.InExec? { ExecKeepsNoHandle(s, c, pid); } else { MainDomains(s.sys, s.main, c); }
  }

  lemma NoHandleStays(s: State, a: Action, pid: Pid)
    requires Enabled(s, a) && NoHandle(s, pid)
    ensures NoHandle(Apply(s, a), pid)
  {
    if a.MainStep? { MainKeepsNoHandle(s, a.choice, pid); }
  }

  lemma MainKeepsHandle(s: State, c: Choice, pid: Pid)
    requires Enabled(s, MainStep(c)) && pid in s.sys.handles && pid in s.sys.children
    ensures var s' := Apply(s, MainStep(c)); pid in s'.sys.handles || NoHandle(s', pid)
  {
    if !s.main.InExec? { MainDomains(s.sys, s.main, c); }
  }

  lemma HandleStays(s: State, a: Action, pid: Pid)
    requires Inv(s) && Enabled(s, a) && pid in s.sys.handles
    ensures pid in Apply(s, a).sys.handles || NoHandle(Apply(s, a), pid)
  {
    assert HandleOk(s.sys, pid, s.sys.handles[pid]);
    if a.MainStep? { MainKeepsHandle(s, a.choice, pid); }
  }

  lemma {:induction false} StatusStays(s: State, actions: seq<Action>, pid: Pid)
    requires Inv(s) && Run(s, actions) && pid in s.sys.handles && s.sys.handles[pid].collected
    ensures var s' := After(s, actions);
      NoHandle(s', pid) || (pid in s'.sys.handles && SameStatus(s.sys.handles[pid], s'.sys.handles[pid]))
    decreases |actions|
  {
    if actions != [] {
      var n := |actions| - 1;
      var s1 := After(s, actions[..n]);
      StatusStays(s, actions[..n], pid);
      RunKeeps(s, actions[..n]);
      ApplyKeeps(s1, actions[n]);
      if NoHandle(s1, pid) { NoHandleStays(s1, actions[n], pid); } else { HandleStays(s1, actions[n], pid); }
    }
  }

  /** Once there is a status, it never changes, whatever runs after that. */
  lemma StatusIsFinal(s: State, before: seq<Action>, after: seq<Action>, pid: Pid)
    requires Init(s) && Run(s, before) && Run(After(s, before), after)
    requires var y := After(s, before).sys; pid in y.handles && y.handles[pid].collected
    requires pid in After(After(s, before), after).sys.handles
    ensures SameStatus(After(s, before).sys.handles[pid], After(After(s, before), after).sys.handles[pid])
  {
    InitInv(s);
    RunKeeps(s, before);
    StatusStays(After(s, before), after, pid);
  }

  function KillOf(main: Main): Option<Kill> {
    match main
    case InKill(k) => Some(k)
    case InFinal(f) => if f.pc.FKill? then Some(f.pc.kill) else None
    case _ => None
  }

  /** The wait that the main code is in: a call of it, or the one inside kill,
      which may itself be inside the finalizer. */
  function WaitOf(main: Main): Option<Wait> {
    if main.InWait? then Some(main.wait)
    else if KillOf(main).Some? && KillOf(main).value.pc.KWaiting? then Some(KillOf(main).value.pc.wait)
    else None
  }

  /** When wait returns TRUE there is no handle, or it has its status, or the
      process is gone. When it returns, the signal mask is what it was. */
  lemma WaitIsRight(s: State, actions: seq<Action>)
    requires Init(s) && Run(s, actions)
    requires var wait := WaitOf(After(s, actions).main); wait.Some? && wait.value.pc.Done?
    ensures var s' := After(s, actions);
      var w := WaitOf(s'.main).value;
      && (w.pc.ret ==> Over(s'.sys, w.pid))
      && (s'.handler.None? ==> s'.sys.blocked == w.entry)
      && (!s'.main.InWait? ==> s'.handler.None? && s'.sys.blocked)
  {
    InitInv(s);
    RunKeeps(s, actions);
  }

  /** No wakeup is lost: while wait polls, a status that has come in is seen at
      the next poll, and only that. */
  lemma NoLostWakeup(s: State, actions: seq<Action>, c: Choice)
    requires Init(s) && Run(s, actions) && !c.fail
    requires var wait := WaitOf(After(s, actions).main); wait.Some? && wait.value.pc.Poll?
    ensures var s' := After(s, actions);
      var pid := WaitOf(s'.main).value.pid;
      var next := WaitOf(MainStepOf(s'.sys, s'.main, c).1);
      && pid in s'.sys.handles
      && next.Some? && next.value.pid == pid
      && (next.value.pc == Cleanup(true) <==> s'.sys.handles[pid].collected)
  {
    InitInv(s);
    RunKeeps(s, actions);
  }

  /** No child is forgotten: as long as the handler was not replaced, when no
      signal is pending and no handler runs, whoever has no status yet is
      still running. */
  lemma NoChildForgotten(s: State, actions: seq<Action>, pid: Pid)
    requires Init(s) && Run(s, actions)
    requires var s' := After(s, actions);
      s'.sys.intact && !s'.sys.pending && s'.handler.None? && pid in s'.sys.handles
    ensures var y := After(s, actions).sys;
      pid in y.children && (y.handles[pid].collected || y.children[pid].Running?)
  {
    InitInv(s);
    RunKeeps(s, actions);
    var y := After(s, actions).sys;
    assert HandleOk(y, pid, y.handles[pid]);
  }

  lemma KilledBySignal(y: Sys, pid: Pid)
    requires SysInv(y) && KilledOk(y, pid)
    ensures pid in y.children && y.children[pid] in {Reaped(Signaled(SIGTERM)), Reaped(Signaled(SIGKILL))}
  {
    assert HandleOk(y, pid, y.handles[pid]);
  }

  /** When kill returns TRUE, the child died of one of the two signals. When
      it returns, SIGCHLD is not blocked. */
  lemma KillIsRight(s: State, actions: seq<Action>)
    requires Init(s) && Run(s, actions)
    requires var kill := KillOf(After(s, actions).main); kill.Some? && kill.value.pc.KDone?
    ensures var s' := After(s, actions);
      var k := KillOf(s'.main).value;
      && (k.pc.killed ==>
            && k.pid in s'.sys.children
            && s'.sys.children[k.pid] in {Reaped(Signaled(15)), Reaped(Signaled(9))})
      && (s'.handler.None? ==> !s'.sys.blocked)
  {
    InitInv(s);
    RunKeeps(s, actions);
    var s' := After(s, actions);
    var k := KillOf(s'.main).value;
    if k.pc.killed {
      KilledBySignal(s'.sys, k.pid);
    }
  }

  /** When is_alive returns FALSE, there is no handle, or it has its status. It
      returns TRUE exactly if it finds the child running. Then SIGCHLD is not
      blocked. */
  lemma AliveIsRight(s: State, actions: seq<Action>, c: Choice, d: Choice)
    requires Init(s) && Run(s, actions) && After(s, actions).main.InProbe? && !c.fail
    ensures var s' := After(s, actions);
      var p := s'.main.probe;
      && (p.pc.PDone? && !p.pc.alive ==> p.pid !in s'.sys.handles || s'.sys.handles[p.pid].collected)
      && (p.pc.PDone? && s'.handler.None? ==> !s'.sys.blocked)
      && (p.pc.PWait? ==>
            var (y', p') := ProbeStep(s'.sys, p, c);
            ProbeStep(y', p', d).1.pc == PExit(p.pid in s'.sys.children && s'.sys.children[p.pid].Running?))
  {
    InitInv(s);
    RunKeeps(s, actions);
  }

  // ----- A status may be lost -----

  lemma RunStep(s: State, actions: seq<Action>, a: Action)
    requires Run(s, actions) && Enabled(After(s, actions), a)
    ensures Run(s, actions + [a]) && After(s, actions + [a]) == Apply(After(s, actions), a)
  {
    assert (actions + [a])[..|actions|] == actions;
  }

  ghost predicate Reaches(s: State, s': State) {
    exists actions :: Run(s, actions) && After(s, actions) == s'
  }

  lemma ReachesStep(s: State, s1: State, a: Action) returns (s2: State)
    requires Reaches(s, s1) && Enabled(s1, a)
    ensures s2 == Apply(s1, a) && Reaches(s, s2)
  {
    var actions :| Run(s, actions) && After(s, actions) == s1;
    RunStep(s, actions, a);
    s2 := Apply(s1, a);
  }

  const GO := MainStep(Choice(false, false, 0, 0))

  /** A child that runs, and one that was reaped by signal. */
  const RUNNING := Sys(map[1 := Running], false, false, true, [1], map[1 := Handle(false, NA, 0, None)], map[], {})
  const REAPED := RUNNING.(children := map[1 := Reaped(Exited(0))], pending := true, dropped := {1})

  lemma ForkChild(s: State) returns (s': State)
    requires Init(s)
    ensures Reaches(s, s')
    ensures s' == State(RUNNING.(blocked := true, list := [], handles := map[]), InExec(Exec(1, EAdd)), None)
  {
    assert Run(s, []) && After(s, []) == s;
    s' := ReachesStep(s, s, Call(InExec(Exec(1, EEnter))));
    s' := ReachesStep(s, s', GO);
    s' := ReachesStep(s, s', GO);
  }

  lemma StartChild(s: State) returns (s': State)
    requires Init(s)
    ensures Reaches(s, s') && s' == State(RUNNING, Idle(false), None)
  {
    s' := ForkChild(s);
    s' := ReachesStep(s, s', GO);
    assert [1] + [] == [1];
    s' := ReachesStep(s, s', GO);
    s' := ReachesStep(s, s', GO);
    s' := ReachesStep(s, s', Return);
  }

  lemma SendSignal(s: State, s0: State) returns (s': State)
    requires Reaches(s, s0) && s0 == State(RUNNING, Idle(false), None)
    ensures Reaches(s, s') && s' == State(RUNNING.(blocked := true), InSignal(Signal(1, SSend)), None)
  {
    s' := ReachesStep(s, s0, Call(InSignal(Signal(1, SEnter))));
    s' := ReachesStep(s, s', GO);
    s' := ReachesStep(s, s', GO);
  }

  /** The child exits just before it is sent a signal. */
  lemma SignalReaps(s: State, s0: State) returns (s': State)
    requires Reaches(s, s0) && s0 == State(RUNNING.(blocked := true), InSignal(Signal(1, SSend)), None)
    ensures Reaches(s, s') && s' == State(REAPED, InSignal(Signal(1, SDone(true))), None)
  {
    s' := ReachesStep(s, s0, ChildExits(1, Exited(0)));
    s' := ReachesStep(s, s', GO);
    s' := ReachesStep(s, s', GO);
    assert s' == State(REAPED.(blocked := true), InSignal(Signal(1, SCollect(true, Got(Exited(0))))), None);
    s' := ReachesStep(s, s', GO);
    s' := ReachesStep(s, s', GO);
  }

  /** So a signal that is sent to a child which has just exited loses the
      status of the child, although nobody else was waiting for it. */
  lemma SignalLosesStatus(s: State) returns (s': State)
    requires Init(s)
    ensures Reaches(s, s') && s'.sys.children == map[1 := Reaped(Exited(0))]
    ensures 1 in s'.sys.handles && s'.sys.handles[1].collected && s'.sys.handles[1].exitcode == NA
  {
    s' := StartChild(s);
    s' := SendSignal(s, s');
    s' := SignalReaps(s, s');
    s' := ReachesStep(s, s', Deliver);
    s' := ReachesStep(s, s', HandlerStep(0));
  }
}
