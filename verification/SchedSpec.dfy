/** Processes and the four queues they move between, as a state machine on one core: every
    system call, timer interrupt and pick is one step. */
module SchedSpec {
  import opened Seqs

  const NONE: int := -1

  datatype QName = NoQ | RunQ | ExitQ | TicksQ | WaitQ
  datatype PState = Runnable | Blocked | Exited

  /** `wq` is the queue last blocked on, `inWait` whether the process is inside `sys_wait`. */
  datatype Proc = Proc(parent: int, children: int, state: PState, wq: QName, inWait: bool)

  /** Queue contents, front first. */
  datatype Queues = Queues(run: seq<int>, exit: seq<int>, ticks: seq<int>, wait: seq<int>) {
    function Get(n: QName): seq<int> {
      match n case NoQ => [] case RunQ => run case ExitQ => exit case TicksQ => ticks case WaitQ => wait
    }
    function Set(n: QName, xs: seq<int>): Queues {
      match n
      case NoQ => this
      case RunQ => this.(run := xs)
      case ExitQ => this.(exit := xs)
      case TicksQ => this.(ticks := xs)
      case WaitQ => this.(wait := xs)
    }
  }

  /** `running` is the process on the core; `nextPid` names the next one made. */
  datatype Sys = Sys(procs: map<int, Proc>, qs: Queues, running: int, nextPid: int)

  // ----- what holds in every reachable state

  /** Process `p` may stand in queue `n`. */
  ghost predicate Fits(s: Sys, p: int, n: QName) {
    && p in s.procs
    && match n
       case NoQ => false
       case RunQ => s.procs[p].state == Runnable && p != s.running
       case ExitQ => s.procs[p].state == Exited
       case TicksQ => s.procs[p].state == Blocked && s.procs[p].wq == TicksQ
       case WaitQ => s.procs[p].state == Blocked && s.procs[p].wq == WaitQ
  }

  ghost predicate QueueOk(s: Sys, n: QName) {
    Distinct(s.qs.Get(n)) && forall p :: p in s.qs.Get(n) ==> Fits(s, p, n)
  }

  /** The queue a process must stand in, `NoQ` for the one that is running. */
  function Place(s: Sys, p: int): QName
    requires p in s.procs
  {
    match s.procs[p].state
    case Runnable => if p == s.running then NoQ else RunQ
    case Exited => ExitQ
    case Blocked => s.procs[p].wq
  }

  ghost predicate ProcOk(s: Sys, p: int)
    requires p in s.procs
  {
    && 0 <= p < s.nextPid && s.procs[p].parent < s.nextPid && s.procs[p].parent != p
    && (s.procs[p].state == Blocked ==> s.procs[p].wq == TicksQ || s.procs[p].wq == WaitQ)
    && (Place(s, p) != NoQ ==> p in s.qs.Get(Place(s, p)))
    && (s.procs[p].state == Blocked ==> (s.procs[p].inWait <==> s.procs[p].wq == WaitQ))
    && s.procs[p].children == |Kids(s.procs, p)|
  }

  ghost function Kids(procs: map<int, Proc>, p: int): set<int> {
    set c | c in procs && procs[c].parent == p
  }

  ghost predicate Zombie(s: Sys, p: int, z: int) {
    z in s.procs && s.procs[z].parent == p && s.procs[z].state == Exited
  }

  /** No process waits while an exited child of it is there; one that was woken has such a child. */
  ghost predicate WakeOk(s: Sys, p: int)
    requires p in s.procs
  {
    && (s.procs[p].inWait && s.procs[p].state == Blocked ==>
          s.procs[p].children > 0 && forall z :: !Zombie(s, p, z))
    && (s.procs[p].inWait && s.procs[p].state != Blocked ==>
          s.procs[p].state == Runnable && exists z :: Zombie(s, p, z))
  }

  ghost predicate Inv(s: Sys) {
    && (s.running != NONE ==> s.running in s.procs && s.procs[s.running].state == Runnable)
    && NONE < s.nextPid
    && (forall n :: QueueOk(s, n))
    && (forall p :: p in s.procs ==> ProcOk(s, p))
    && (forall p :: p in s.procs ==> WakeOk(s, p))
  }

  // ----- the steps

  /** How a fork ends: with a child; with the child thrown away while pages were being shared; or
      before there was a child to give an identity to. */
  datatype ForkEnd = Made | Dropped | NotMade

  datatype Step = Pick | Fork(end: ForkEnd) | Wait | Exit | Sleep | Timer

  function Pushed(qs: Queues, n: QName, p: int): Queues {
    qs.Set(n, [p] + qs.Get(n))
  }

  /** Moves a process from queue `n` to the front of the run queue. */
  function Woken(s: Sys, n: QName, p: int): Sys
    requires p in s.procs
  {
    s.(procs := s.procs[p := s.procs[p].(state := Runnable)],
       qs := Pushed(s.qs.Set(n, Minus(s.qs.Get(n), p)), RunQ, p))
  }

  /** The running process goes to queue `n`, and the core is free. */
  function Stopped(s: Sys, n: QName, st: PState): Sys
    requires s.running in s.procs
  {
    var p := s.running;
    Sys(s.procs[p := s.procs[p].(state := st, wq := n)], Pushed(s.qs, n, p), NONE, s.nextPid)
  }

  /** The first exited child of `p` in the exit queue. */
  function FirstZombie(s: Sys, xs: seq<int>, p: int): (z: int)
    ensures z == NONE || (z in xs && z in s.procs && s.procs[z].parent == p)
  {
    if xs == [] then NONE
    else if xs[0] in s.procs && s.procs[xs[0]].parent == p then xs[0]
    else FirstZombie(s, xs[1..], p)
  }

  function Reaped(s: Sys, z: int): Sys
    requires s.running in s.procs
  {
    var p := s.running;
    s.(procs := s.procs[p := s.procs[p].(children := s.procs[p].children - 1, inWait := false)] - {z},
       qs := s.qs.Set(ExitQ, Minus(s.qs.exit, z)))
  }

  predicate Waiting(s: Sys, p: int) {
    p in s.procs && s.procs[p].state == Blocked && s.procs[p].wq == WaitQ
  }

  function AllWoken(procs: map<int, Proc>, xs: seq<int>): map<int, Proc> {
    map p | p in procs :: if p in xs then procs[p].(state := Runnable) else procs[p]
  }

  function Backward(xs: seq<int>): seq<int> {
    if xs == [] then [] else Backward(xs[1..]) + [xs[0]]
  }

  /** The timer wakes every sleeper and puts the running process, if any, behind the others. */
  function Ticked(s: Sys): Sys {
    var t := s.(procs := AllWoken(s.procs, s.qs.ticks),
                qs := s.qs.(ticks := [], run := Backward(s.qs.ticks) + s.qs.run));
    if s.running == NONE then t else t.(qs := Pushed(t.qs, RunQ, s.running), running := NONE)
  }

  /** A process inside `sys_wait` runs with interrupts off until that call is done. */
  predicate Enabled(s: Sys, step: Step) {
    match step
    case Pick => s.running == NONE && s.qs.run != []
    case Timer => s.running == NONE || (s.running in s.procs && !s.procs[s.running].inWait)
    case Wait => s.running in s.procs
    case _ => s.running in s.procs && !s.procs[s.running].inWait
  }

  function Next(s: Sys, step: Step): Sys
    requires Enabled(s, step)
  {
    match step
    case Pick => s.(running := s.qs.run[|s.qs.run| - 1], qs := s.qs.(run := s.qs.run[..|s.qs.run| - 1]))
    case Fork(end) =>
      if end == NotMade then s
      else if end == Dropped then s.(nextPid := s.nextPid + 1)
      else
        var p, c := s.running, s.nextPid;
        Sys(s.procs[p := s.procs[p].(children := s.procs[p].children + 1)][c := Proc(p, 0, Runnable, NoQ, false)],
            Pushed(s.qs, RunQ, c), p, c + 1)
    case Wait =>
      var p := s.running;
      if !s.procs[p].inWait && s.procs[p].children == 0 then s
      else
        var z := FirstZombie(s, s.qs.exit, p);
        if z != NONE then Reaped(s, z)
        else Stopped(s.(procs := s.procs[p := s.procs[p].(inWait := true)]), WaitQ, Blocked)
    case Exit =>
      var parent := s.procs[s.running].parent;
      Stopped(if Waiting(s, parent) then Woken(s, WaitQ, parent) else s, ExitQ, Exited)
    case Sleep => Stopped(s, TicksQ, Blocked)
    case Timer => Ticked(s)
  }
}
