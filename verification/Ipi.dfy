/** The inter-processor-interrupt handshake of mp.c as a state machine: any number of CPUs run
    `__on_cpu` and the `ipi` handler, interleaved one memory access at a time.

    The real state is the lock word, `ipi_done`, each CPU's pending bit for the vector, its
    position in the code and whether it takes interrupts. The fields `serial`, `ack` and `lost`
    only observe the run: they number the requests, say which handler stored `ipi_done` last,
    and count sends that found the vector already pending. */
module Ipi {
  import opened Values

  datatype Request = Request(caller: nat, serial: nat)

  /** Where a CPU is in `__on_cpu`; Idle is outside of it. */
  datatype CallerPc =
    | Idle
    | Locking(target: nat)
    | Clearing(target: nat)
    | Sending(target: nat)
    | Waiting(target: nat, req: Request)
    | Unlocking(req: Request)

  /** Where a CPU is in the handler. */
  datatype HandlerPc = Outside | Storing(req: Request) | Acking

  datatype Cpu = Cpu(caller: CallerPc, handler: HandlerPc, pending: Option<Request>, accepts: bool)

  datatype Ack = Ack(cpu: nat, req: Request)

  datatype State = State(cpus: seq<Cpu>, lock: bool, done: bool, serial: nat, ack: Option<Ack>, lost: nat)

  datatype Event =
    | Call(cpu: nat, target: nat)   // start a call
    | Run(cpu: nat)                 // one access of the code the CPU is in
    | Interrupt(cpu: nat)           // deliver the pending vector
    | Sti(cpu: nat)                 // start taking interrupts

  // ----- steps

  function Init(n: nat): State {
    State(seq(n, _ => Cpu(Idle, Outside, None, false)), false, false, 0, None, 0)
  }

  function WithCpu(s: State, i: nat, c: Cpu): State
    requires i < |s.cpus|
  {
    s.(cpus := s.cpus[i := c])
  }

  function CallerStep(s: State, i: nat): (s2: State)
    requires i < |s.cpus|
    ensures |s2.cpus| == |s.cpus|
  {
    var c := s.cpus[i];
    match c.caller
    case Idle => s
    case Locking(t) =>
      // test-and-set; a held lock means another round of the spin loop
      if s.lock then s else WithCpu(s, i, c.(caller := Clearing(t))).(lock := true)
    case Clearing(t) => WithCpu(s, i, c.(caller := Sending(t))).(done := false)
    case Sending(t) =>
      if t >= |s.cpus| then s
      else
        var r := Request(i, s.serial);
        var s1 := WithCpu(s, i, c.(caller := Waiting(t, r)));
        var s2 := s1.(serial := s.serial + 1, lost := s.lost + if s1.cpus[t].pending.Some? then 1 else 0);
        WithCpu(s2, t, s1.cpus[t].(pending := Some(r)))
    case Waiting(t, r) => if s.done then WithCpu(s, i, c.(caller := Unlocking(r))) else s
    case Unlocking(_) => WithCpu(s, i, c.(caller := Idle)).(lock := false)
  }

  function HandlerStep(s: State, i: nat): (s2: State)
    requires i < |s.cpus|
    ensures |s2.cpus| == |s.cpus|
  {
    var c := s.cpus[i];
    match c.handler
    case Outside => s
    case Storing(r) => WithCpu(s, i, c.(handler := Acking)).(done := true, ack := Some(Ack(i, r)))
    case Acking => WithCpu(s, i, c.(handler := Outside))
  }

  function Step(s: State, e: Event): (s2: State)
    ensures |s2.cpus| == |s.cpus|
  {
    if e.cpu >= |s.cpus| then s
    else
      var c := s.cpus[e.cpu];
      match e
      case Call(i, t) =>
        if c.caller.Idle? && c.handler.Outside? && t < |s.cpus| then WithCpu(s, i, c.(caller := Locking(t))) else s
      case Run(i) => if c.handler.Outside? then CallerStep(s, i) else HandlerStep(s, i)
      case Interrupt(i) =>
        if c.pending.Some? && c.handler.Outside? && c.accepts
        then WithCpu(s, i, c.(pending := None, handler := Storing(c.pending.value))) else s
      case Sti(i) => WithCpu(s, i, c.(accepts := true))
  }

  function RunAll(s: State, es: seq<Event>): (s2: State)
    ensures |s2.cpus| == |s.cpus|
    decreases |es|
  {
    if es == [] then s else Step(RunAll(s, es[..|es| - 1]), es[|es| - 1])
  }

  // ----- the invariant

  predicate Inside(pc: CallerPc) {
    pc.Clearing? || pc.Sending? || pc.Waiting? || pc.Unlocking?
  }

  /** The interrupt for request r has been sent to CPU t and its handler has not stored `ipi_done`. */
  predicate Outstanding(s: State, t: nat, r: Request) {
    t < |s.cpus| && (s.cpus[t].pending == Some(r) || s.cpus[t].handler == Storing(r))
  }

  /** The lock word is set exactly while one CPU is between taking and releasing it. */
  ghost predicate LockOk(s: State) {
    && (s.lock <==> exists i :: 0 <= i < |s.cpus| && Inside(s.cpus[i].caller))
    && (forall i, j :: 0 <= i < |s.cpus| && 0 <= j < |s.cpus| && Inside(s.cpus[i].caller) && Inside(s.cpus[j].caller)
          ==> i == j)
  }

  ghost predicate TargetsOk(s: State) {
    forall i :: 0 <= i < |s.cpus| ==>
      match s.cpus[i].caller
      case Locking(t) => t < |s.cpus|
      case Clearing(t) => t < |s.cpus|
      case Sending(t) => t < |s.cpus|
      case Waiting(t, _) => t < |s.cpus|
      case _ => true
  }

  /** An outstanding interrupt belongs to the caller that waits for it, and is in one place. */
  ghost predicate OutstandingOk(s: State) {
    && (forall t, r :: Outstanding(s, t, r) ==>
          !s.done && r.caller < |s.cpus| && s.cpus[r.caller].caller == Waiting(t, r))
    && (forall t :: 0 <= t < |s.cpus| ==> !(s.cpus[t].pending.Some? && s.cpus[t].handler.Storing?))
  }

  /** What the CPU holding the lock knows. */
  ghost predicate HolderOk(s: State) {
    forall i :: 0 <= i < |s.cpus| ==>
      match s.cpus[i].caller
      case Sending(_) => !s.done
      case Waiting(t, r) =>
        && r.caller == i && r.serial < s.serial
        && (if s.done then s.ack == Some(Ack(t, r)) else Outstanding(s, t, r))
      case Unlocking(r) => r.caller == i && s.ack.Some? && s.ack.value.req == r
      case _ => true
  }

  ghost predicate Inv(s: State) {
    && LockOk(s) && TargetsOk(s) && OutstandingOk(s) && HolderOk(s)
    && s.lost == 0 && (s.ack.Some? ==> s.ack.value.req.serial < s.serial)
  }

  lemma InitInv(n: nat)
    ensures Inv(Init(n))
  {}

  // ----- every step keeps it

  lemma CallInv(s: State, i: nat, t: nat)
    requires Inv(s)
    ensures Inv(Step(s, Call(i, t)))
  {
    var s2 := Step(s, Call(i, t));
    if s2 != s {
      SameOutside(s, s2, i);
      assert forall u, r :: Outstanding(s2, u, r) ==> Outstanding(s, u, r);
      assert forall u, r :: Outstanding(s, u, r) ==> Outstanding(s2, u, r);
    }
  }

  /** All CPUs but one are as before. */
  ghost predicate OnlyCpu(s: State, s2: State, i: nat) {
    |s.cpus| == |s2.cpus| && forall j :: 0 <= j < |s.cpus| && j != i ==> s2.cpus[j] == s.cpus[j]
  }

  /** A change of one caller between places outside the lock keeps the lock invariant. */
  lemma SameOutside(s: State, s2: State, i: nat)
    requires LockOk(s) && OnlyCpu(s, s2, i) && i < |s.cpus| && s2.lock == s.lock
    requires Inside(s2.cpus[i].caller) == Inside(s.cpus[i].caller)
    ensures LockOk(s2)
  {
    if s.lock {
      var k :| 0 <= k < |s.cpus| && Inside(s.cpus[k].caller);
      assert Inside(s2.cpus[k].caller);
    }
  }

  /** While the lock is held by i, no other CPU is inside. */
  lemma OthersOutside(s: State, i: nat, j: nat)
    requires LockOk(s) && i < |s.cpus| && j < |s.cpus| && Inside(s.cpus[i].caller) && j != i
    ensures !Inside(s.cpus[j].caller)
  {}

  lemma AcquireInv(s: State, i: nat)
    requires Inv(s) && i < |s.cpus| && s.cpus[i].caller.Locking? && !s.lock
    ensures Inv(CallerStep(s, i))
  {
    var s2 := CallerStep(s, i);
    assert Inside(s2.cpus[i].caller);
    forall j | 0 <= j < |s.cpus| ensures !Inside(s.cpus[j].caller) {}
    assert forall u, r :: Outstanding(s2, u, r) <==> Outstanding(s, u, r);
  }

  lemma ClearInv(s: State, i: nat)
    requires Inv(s) && i < |s.cpus| && s.cpus[i].caller.Clearing?
    ensures Inv(CallerStep(s, i))
  {
    var s2 := CallerStep(s, i);
    SameOutside(s, s2, i);
    assert forall u, r :: Outstanding(s2, u, r) ==> Outstanding(s, u, r);
    forall j | 0 <= j < |s.cpus| && j != i ensures !Inside(s2.cpus[j].caller) { OthersOutside(s, i, j); }
  }

  lemma NothingOutstanding(s: State, i: nat, t: nat, r: Request)
    requires Inv(s) && i < |s.cpus| && Inside(s.cpus[i].caller) && !s.cpus[i].caller.Waiting?
    ensures !Outstanding(s, t, r)
  {}

  lemma SendInv(s: State, i: nat)
    requires Inv(s) && i < |s.cpus| && s.cpus[i].caller.Sending?
    ensures Inv(CallerStep(s, i))
  {
    var s2 := CallerStep(s, i);
    var t := s.cpus[i].caller.target;
    var r := Request(i, s.serial);
    forall u, q ensures !Outstanding(s, u, q) { NothingOutstanding(s, i, u, q); }
    assert s.cpus[t].pending.None? by {
      if s.cpus[t].pending.Some? { assert Outstanding(s, t, s.cpus[t].pending.value); }
    }
    assert !s.cpus[t].handler.Storing? by {
      if s.cpus[t].handler.Storing? { assert Outstanding(s, t, s.cpus[t].handler.req); }
    }
    forall u, q | Outstanding(s2, u, q) ensures u == t && q == r {
      assert u != t ==> !Outstanding(s, u, q);
    }
    SendLock(s, s2, i);
    forall j | 0 <= j < |s.cpus| && j != i ensures s2.cpus[j].caller == s.cpus[j].caller && !Inside(s2.cpus[j].caller) {
      OthersOutside(s, i, j);
    }
    assert s2.cpus[i].caller == Waiting(t, r) && Outstanding(s2, t, r);
  }

  lemma SendLock(s: State, s2: State, i: nat)
    requires LockOk(s) && |s.cpus| == |s2.cpus| && i < |s.cpus| && s2.lock == s.lock
    requires forall j :: 0 <= j < |s.cpus| ==> Inside(s2.cpus[j].caller) == Inside(s.cpus[j].caller)
    ensures LockOk(s2)
  {
    if s.lock {
      var k :| 0 <= k < |s.cpus| && Inside(s.cpus[k].caller);
      assert Inside(s2.cpus[k].caller);
    }
  }

  lemma LeaveInv(s: State, i: nat)
    requires Inv(s) && i < |s.cpus| && s.cpus[i].caller.Waiting? && s.done
    ensures Inv(CallerStep(s, i))
  {
    var s2 := CallerStep(s, i);
    SameOutside(s, s2, i);
    assert forall u, r :: Outstanding(s2, u, r) ==> Outstanding(s, u, r);
    forall j | 0 <= j < |s.cpus| && j != i ensures !Inside(s2.cpus[j].caller) { OthersOutside(s, i, j); }
  }

  lemma UnlockInv(s: State, i: nat)
    requires Inv(s) && i < |s.cpus| && s.cpus[i].caller.Unlocking?
    ensures Inv(CallerStep(s, i))
  {
    var s2 := CallerStep(s, i);
    forall j | 0 <= j < |s.cpus| ensures !Inside(s2.cpus[j].caller) {
      if j != i { OthersOutside(s, i, j); }
    }
    forall u, r ensures !Outstanding(s2, u, r) {
      NothingOutstanding(s, i, u, r);
    }
  }

  lemma StoreInv(s: State, i: nat)
    requires Inv(s) && i < |s.cpus| && s.cpus[i].handler.Storing?
    ensures Inv(HandlerStep(s, i))
  {
    var s2 := HandlerStep(s, i);
    var r := s.cpus[i].handler.req;
    assert Outstanding(s, i, r);
    var h := r.caller;
    SameOutside(s, s2, i);
    forall u, q ensures !Outstanding(s2, u, q) {
      if Outstanding(s, u, q) { OneOutstanding(s, i, r, u, q); }
    }
    forall j | 0 <= j < |s.cpus| && j != h ensures !Inside(s2.cpus[j].caller) { OthersOutside(s, h, j); }
    assert s2.cpus[h].caller == Waiting(i, r);
  }

  lemma AckInv(s: State, i: nat)
    requires Inv(s) && i < |s.cpus| && s.cpus[i].handler.Acking?
    ensures Inv(HandlerStep(s, i))
  {
    var s2 := HandlerStep(s, i);
    SameOutside(s, s2, i);
    assert forall u, r :: Outstanding(s2, u, r) <==> Outstanding(s, u, r);
  }

  lemma InterruptInv(s: State, i: nat)
    requires Inv(s)
    ensures Inv(Step(s, Interrupt(i)))
  {
    var s2 := Step(s, Interrupt(i));
    if s2 != s {
      SameOutside(s, s2, i);
      assert forall u, r :: Outstanding(s2, u, r) <==> Outstanding(s, u, r);
    }
  }

  lemma StiInv(s: State, i: nat)
    requires Inv(s)
    ensures Inv(Step(s, Sti(i)))
  {
    var s2 := Step(s, Sti(i));
    if i < |s.cpus| {
      SameOutside(s, s2, i);
      assert forall u, r :: Outstanding(s2, u, r) <==> Outstanding(s, u, r);
    }
  }

  lemma StepInv(s: State, e: Event)
    requires Inv(s)
    ensures Inv(Step(s, e))
  {
    match e
    case Call(i, t) => CallInv(s, i, t);
    case Interrupt(i) => InterruptInv(s, i);
    case Sti(i) => StiInv(s, i);
    case Run(i) =>
      if i < |s.cpus| {
        if s.cpus[i].handler.Storing? {
          StoreInv(s, i);
        } else if s.cpus[i].handler.Acking? {
          AckInv(s, i);
        } else {
          match s.cpus[i].caller
          case Idle =>
          case Locking(_) => if !s.lock { AcquireInv(s, i); }
          case Clearing(_) => ClearInv(s, i);
          case Sending(_) => SendInv(s, i);
          case Waiting(_, _) => if s.done { LeaveInv(s, i); }
          case Unlocking(_) => UnlockInv(s, i);
        }
      }
  }

  /** The invariant holds in every reachable state, whatever the interleaving. */
  lemma {:induction false} Safety(n: nat, es: seq<Event>)
    ensures Inv(RunAll(Init(n), es))
    decreases |es|
  {
    if es == [] {
      InitInv(n);
    } else {
      Safety(n, es[..|es| - 1]);
      StepInv(RunAll(Init(n), es[..|es| - 1]), es[|es| - 1]);
    }
  }

  // ----- what it means

  /** At most one interrupt is sent but not acknowledged. */
  lemma OneOutstanding(s: State, t: nat, r: Request, u: nat, q: Request)
    requires LockOk(s) && OutstandingOk(s) && Outstanding(s, t, r) && Outstanding(s, u, q)
    ensures t == u && r == q
    ensures !(s.cpus[t].pending.Some? && s.cpus[t].handler.Storing?)
  {
    assert Inside(s.cpus[r.caller].caller) && Inside(s.cpus[q.caller].caller);
  }

  /** In every run, no two interrupts are ever outstanding and no send is lost in a pending bit. */
  lemma NoInterruptLost(n: nat, es: seq<Event>, t: nat, r: Request, u: nat, q: Request)
    ensures var s := RunAll(Init(n), es);
            && s.lost == 0
            && (Outstanding(s, t, r) && Outstanding(s, u, q) ==> t == u && r == q)
  {
    Safety(n, es);
    var s := RunAll(Init(n), es);
    if Outstanding(s, t, r) && Outstanding(s, u, q) { OneOutstanding(s, t, r, u, q); }
  }

  /** In every run, a caller leaves its wait loop only when the last store to `ipi_done = 1` was
      made by the handler of its own request on its own target, and that request is answered. */
  lemma LeavesOnlyWhenAnswered(n: nat, es: seq<Event>, i: nat)
    ensures var s := RunAll(Init(n), es);
            i < n && s.cpus[i].caller.Waiting? && Step(s, Run(i)).cpus[i].caller.Unlocking? ==>
              var t, r := s.cpus[i].caller.target, s.cpus[i].caller.req;
              s.ack == Some(Ack(t, r)) && r.caller == i && forall u, q :: !Outstanding(s, u, q)
  {
    Safety(n, es);
  }

  /** Event k of the run from s is CPU t's acknowledgement at the end of its handler. */
  predicate Acknowledges(s: State, es: seq<Event>, k: nat, t: nat)
    requires k < |es|
  {
    var s1 := RunAll(s, es[..k]);
    es[k] == Run(t) && t < |s1.cpus| && s1.cpus[t].handler.Acking?
  }

  /** A handler that has been entered is not entered again before it has acknowledged: until then
      the CPU stays in it and the same vector has no effect. */
  lemma {:induction false} HandlerUninterrupted(s: State, es: seq<Event>, t: nat)
    requires t < |s.cpus| && !s.cpus[t].handler.Outside?
    requires forall k :: 0 <= k < |es| ==> !Acknowledges(s, es, k, t)
    ensures var s2 := RunAll(s, es); !s2.cpus[t].handler.Outside? && Step(s2, Interrupt(t)) == s2
    decreases |es|
  {
    if es != [] {
      var k := |es| - 1;
      forall j | 0 <= j < k ensures !Acknowledges(s, es[..k], j, t) {
        assert es[..k][..j] == es[..j] && !Acknowledges(s, es, j, t);
      }
      HandlerUninterrupted(s, es[..k], t);
      assert !Acknowledges(s, es, k, t);
      HandlerLeaves(RunAll(s, es[..k]), es[k], t);
    }
  }

  /** A CPU leaves its handler only by acknowledging, and stores `ipi_done` before that. */
  lemma HandlerLeaves(s: State, e: Event, t: nat)
    requires t < |s.cpus| && !s.cpus[t].handler.Outside?
    ensures var h, h2 := s.cpus[t].handler, Step(s, e).cpus[t].handler;
            && (h2.Outside? ==> e == Run(t) && h.Acking?)
            && (h.Storing? && h2 != h ==> h2.Acking? && Step(s, e).done)
  {}

  // ----- progress

  /** A step of the handshake that is neither a spin nor the environment's doing. */
  predicate IsProgress(s: State, e: Event) {
    (e.Run? || e.Interrupt?) && Step(s, e) != s
  }

  predicate Unfinished(s: State, i: nat) {
    i < |s.cpus| && !s.cpus[i].caller.Idle?
  }

  /** The only way to be stuck: the target of the waiting caller takes no interrupts, and no
      CPU is in a handler. */
  ghost predicate Stuck(s: State, i: nat) {
    && i < |s.cpus| && s.cpus[i].caller.Waiting? && !s.done
    && s.cpus[i].caller.target < |s.cpus| && !s.cpus[s.cpus[i].caller.target].accepts
    && (forall j :: 0 <= j < |s.cpus| ==> s.cpus[j].handler.Outside?)
  }

  ghost predicate CanProgress(s: State) {
    exists e :: IsProgress(s, e)
  }

  lemma HandlerProgress(s: State, i: nat)
    requires i < |s.cpus| && !s.cpus[i].handler.Outside?
    ensures CanProgress(s)
  {
    assert Step(s, Run(i)).cpus[i].handler != s.cpus[i].handler;
    assert IsProgress(s, Run(i));
  }

  /** The CPU holding the lock, its target or a handler can move, unless the state is Stuck. */
  lemma HolderProgress(s: State, i: nat)
    requires Inv(s) && i < |s.cpus| && Inside(s.cpus[i].caller) && !Stuck(s, i)
    ensures CanProgress(s)
  {
    if j :| 0 <= j < |s.cpus| && !s.cpus[j].handler.Outside? {
      HandlerProgress(s, j);
    } else if s.cpus[i].caller.Waiting? && !s.done {
      var t, r := s.cpus[i].caller.target, s.cpus[i].caller.req;
      assert Outstanding(s, t, r) && s.cpus[t].pending == Some(r);
      assert Step(s, Interrupt(t)).cpus[t].handler == Storing(r);
      assert IsProgress(s, Interrupt(t));
    } else {
      assert Step(s, Run(i)).cpus[i].caller != s.cpus[i].caller;
      assert IsProgress(s, Run(i));
    }
  }

  lemma StuckStays(s: State, i: nat, e: Event)
    requires Inv(s) && Stuck(s, i)
    ensures !IsProgress(s, e)
  {
    var t, r := s.cpus[i].caller.target, s.cpus[i].caller.req;
    assert Outstanding(s, t, r);
    if e.cpu < |s.cpus| && e.cpu != i { OthersOutside(s, i, e.cpu); }
    assert s.lock;
    if e.Interrupt? && e.cpu < |s.cpus| && s.cpus[e.cpu].pending.Some? {
      assert Outstanding(s, e.cpu, s.cpus[e.cpu].pending.value);
      OneOutstanding(s, t, r, e.cpu, s.cpus[e.cpu].pending.value);
    }
  }

  /** With a call unfinished, the handshake can move unless a waiting caller's target takes no
      interrupts, and then it cannot move at all. */
  lemma DeadlockIff(s: State, i: nat)
    requires Inv(s) && Unfinished(s, i)
    ensures CanProgress(s) <==> !exists h :: Stuck(s, h)
  {
    if h :| Stuck(s, h) {
      forall e ensures !IsProgress(s, e) { StuckStays(s, h, e); }
    } else if h :| 0 <= h < |s.cpus| && Inside(s.cpus[h].caller) {
      HolderProgress(s, h);
    } else if !s.cpus[i].handler.Outside? {
      HandlerProgress(s, i);
    } else {
      assert !s.lock && s.cpus[i].caller.Locking?;
      assert Step(s, Run(i)).cpus[i].caller.Clearing?;
      assert IsProgress(s, Run(i));
    }
  }

  // ----- what a caller has to know before the call

  /** The CPU that a call in progress is for. */
  function TargetOf(pc: CallerPc): Option<nat> {
    match pc
    case Locking(t) => Some(t)
    case Clearing(t) => Some(t)
    case Sending(t) => Some(t)
    case Waiting(t, _) => Some(t)
    case _ => None
  }

  /** Every call in progress is for a CPU that takes interrupts. */
  ghost predicate Ready(s: State) {
    forall i {:trigger s.cpus[i].caller} :: 0 <= i < |s.cpus| && TargetOf(s.cpus[i].caller).Some? ==>
      var t := TargetOf(s.cpus[i].caller).value; t < |s.cpus| && s.cpus[t].accepts
  }

  /** Each call of the run is made when its target already takes interrupts. */
  ghost predicate CallsReady(n: nat, es: seq<Event>) {
    forall k :: 0 <= k < |es| && es[k].Call? && es[k].target < n ==>
      RunAll(Init(n), es[..k]).cpus[es[k].target].accepts
  }

  /** No step takes interrupts away, and only a call picks a target. */
  lemma StepTargets(s: State, e: Event)
    ensures var s2 := Step(s, e);
            && (forall i :: 0 <= i < |s.cpus| && s.cpus[i].accepts ==> s2.cpus[i].accepts)
            && (forall i {:trigger s2.cpus[i].caller} :: 0 <= i < |s.cpus| ==>
                  || TargetOf(s2.cpus[i].caller).None? || TargetOf(s2.cpus[i].caller) == TargetOf(s.cpus[i].caller)
                  || (e == Call(i, TargetOf(s2.cpus[i].caller).value) && TargetOf(s2.cpus[i].caller).value < |s.cpus|))
  {}

  lemma {:induction false} ReadyRun(n: nat, es: seq<Event>)
    requires CallsReady(n, es)
    ensures Ready(RunAll(Init(n), es))
    decreases |es|
  {
    hide Step;
    if es != [] {
      var k := |es| - 1;
      forall j | 0 <= j < k && es[..k][j].Call? && es[..k][j].target < n
        ensures RunAll(Init(n), es[..k][..j]).cpus[es[..k][j].target].accepts
      {
        assert es[..k][..j] == es[..j];
      }
      ReadyRun(n, es[..k]);
      StepTargets(RunAll(Init(n), es[..k]), es[k]);
    }
  }

  lemma ReadyIsNotStuck(s: State, h: nat)
    requires Ready(s)
    ensures !Stuck(s, h)
  {}

  /** If every call is made to a CPU that already takes interrupts, the handshake never
      deadlocks: in every state of every such run an unfinished call can move on. */
  lemma NeverDeadlocks(n: nat, es: seq<Event>, i: nat)
    requires CallsReady(n, es) && Unfinished(RunAll(Init(n), es), i)
    ensures CanProgress(RunAll(Init(n), es))
  {
    var s := RunAll(Init(n), es);
    hide Inv, Ready, Stuck, CanProgress, CallsReady, RunAll;
    Safety(n, es);
    ReadyRun(n, es);
    forall h: nat ensures !Stuck(s, h) {
      ReadyIsNotStuck(s, h);
    }
    DeadlockIff(s, i);
  }

  /** The handshake is at rest: the lock is free and no handler is running. */
  ghost predicate Quiet(s: State) {
    !s.lock && forall j :: 0 <= j < |s.cpus| ==> s.cpus[j].handler.Outside?
  }

  /** The condition is needed: with the handshake at rest, the caller's own four steps end in a
      deadlock if and only if the target does not take interrupts. */
  lemma CallSticksIff(s: State, i: nat, t: nat)
    requires Quiet(s) && i < |s.cpus| && t < |s.cpus| && s.cpus[i].caller.Idle?
    ensures Stuck(RunAll(s, [Call(i, t), Run(i), Run(i), Run(i)]), i) <==> !s.cpus[t].accepts
  {
    FourSteps(s, Call(i, t), Run(i), Run(i), Run(i));
    hide RunAll, Stuck;
    var s3 := Step(Step(Step(s, Call(i, t)), Run(i)), Run(i));
    assert s3.cpus == s.cpus[i := s.cpus[i].(caller := Sending(t))] && !s3.done;
    SendSticksIff(s3, i, t);
  }

  lemma SendSticksIff(s: State, i: nat, t: nat)
    requires i < |s.cpus| && t < |s.cpus| && s.cpus[i].caller == Sending(t) && !s.done
    requires forall j :: 0 <= j < |s.cpus| ==> s.cpus[j].handler.Outside?
    ensures Stuck(Step(s, Run(i)), i) <==> !s.cpus[t].accepts
  {}

  lemma FourSteps(s: State, a: Event, b: Event, c: Event, d: Event)
    ensures RunAll(s, [a, b, c, d]) == Step(Step(Step(Step(s, a), b), c), d)
  {
    hide Step;
    assert [a, b, c, d][..3] == [a, b, c] && [a, b, c][..2] == [a, b];
    assert [a, b][..1] == [a] && [a][..0] == [];
    assert RunAll(s, [a]) == Step(s, a);
    assert RunAll(s, [a, b]) == Step(Step(s, a), b);
    assert RunAll(s, [a, b, c]) == Step(Step(Step(s, a), b), c);
  }

  /** Two CPUs after reset: a call to the one that has not executed `sti` deadlocks. */
  lemma DeadlockReached()
    ensures Stuck(RunAll(Init(2), [Call(0, 1), Run(0), Run(0), Run(0)]), 0)
  {
    CallSticksIff(Init(2), 0, 1);
  }

  // ----- every progress step brings the calls closer to their end

  function CallerWork(pc: CallerPc): nat {
    match pc
    case Idle => 0
    case Locking(_) => 8
    case Clearing(_) => 7
    case Sending(_) => 6
    case Waiting(_, _) => 2
    case Unlocking(_) => 1
  }

  function CpuWork(c: Cpu): nat {
    CallerWork(c.caller) + (if c.pending.Some? then 3 else 0)
    + (match c.handler case Outside => 0 case Storing(_) => 2 case Acking => 1)
  }

  function Work(cs: seq<Cpu>): nat {
    if cs == [] then 0 else CpuWork(cs[0]) + Work(cs[1..])
  }

  lemma {:induction false} WorkUpdate(cs: seq<Cpu>, i: nat, c: Cpu)
    requires i < |cs|
    ensures Work(cs[i := c]) == Work(cs) - CpuWork(cs[i]) + CpuWork(c)
  {
    if i == 0 {
      assert cs[0 := c][1..] == cs[1..];
    } else {
      assert cs[i := c][1..] == cs[1..][i - 1 := c];
      WorkUpdate(cs[1..], i - 1, c);
    }
  }

  lemma SendWork(s: State, i: nat)
    requires Inv(s) && i < |s.cpus| && s.cpus[i].caller.Sending?
    ensures Work(CallerStep(s, i).cpus) < Work(s.cpus)
  {
    var t := s.cpus[i].caller.target;
    var r := Request(i, s.serial);
    assert s.cpus[t].pending.None? by {
      if s.cpus[t].pending.Some? { NothingOutstanding(s, i, t, s.cpus[t].pending.value); }
    }
    var cs := s.cpus[i := s.cpus[i].(caller := Waiting(t, r))];
    WorkUpdate(s.cpus, i, cs[i]);
    WorkUpdate(cs, t, cs[t].(pending := Some(r)));
  }

  lemma ProgressWorks(s: State, e: Event)
    requires Inv(s) && IsProgress(s, e)
    ensures Work(Step(s, e).cpus) < Work(s.cpus)
  {
    hide Inv;
    var i := e.cpu;
    if e.Run? && s.cpus[i].handler.Outside? && s.cpus[i].caller.Sending? {
      hide Work;
      SendWork(s, i);
    } else {
      OneCpuWorks(s, e);
      hide Step, Work, CpuWork;
      WorkUpdate(s.cpus, i, Step(s, e).cpus[i]);
    }
  }

  /** Every progress step but a send changes one CPU, which has less left to do. */
  lemma OneCpuWorks(s: State, e: Event)
    requires IsProgress(s, e)
    requires !(e.Run? && s.cpus[e.cpu].handler.Outside? && s.cpus[e.cpu].caller.Sending?)
    ensures Step(s, e).cpus == s.cpus[e.cpu := Step(s, e).cpus[e.cpu]]
    ensures CpuWork(Step(s, e).cpus[e.cpu]) < CpuWork(s.cpus[e.cpu])
  {}

  /** Each event of the run is a progress step. */
  ghost predicate AllProgress(s: State, es: seq<Event>) {
    forall k :: 0 <= k < |es| ==> IsProgress(RunAll(s, es[..k]), es[k])
  }

  lemma {:induction false} RunInv(s: State, es: seq<Event>)
    requires Inv(s)
    ensures Inv(RunAll(s, es))
    decreases |es|
  {
    if es != [] {
      RunInv(s, es[..|es| - 1]);
      StepInv(RunAll(s, es[..|es| - 1]), es[|es| - 1]);
    }
  }

  lemma {:induction false} RunWorks(s: State, es: seq<Event>)
    requires Inv(s) && AllProgress(s, es)
    ensures Work(RunAll(s, es).cpus) + |es| <= Work(s.cpus)
    decreases |es|
  {
    hide Inv, Step, IsProgress;
    if es != [] {
      var k := |es| - 1;
      forall j | 0 <= j < k ensures IsProgress(RunAll(s, es[..k][..j]), es[..k][j]) {
        assert es[..k][..j] == es[..j];
      }
      RunWorks(s, es[..k]);
      RunInv(s, es[..k]);
      ProgressWorks(RunAll(s, es[..k]), es[k]);
    }
  }

  /** From any reachable state the calls already begun take at most Work steps that are not
      spins, and when no such step is left, every call has returned and the lock is free --
      or a waiting caller's target takes no interrupts. */
  lemma CallsComplete(n: nat, start: seq<Event>, es: seq<Event>)
    requires AllProgress(RunAll(Init(n), start), es)
    ensures var s := RunAll(Init(n), start); var s2 := RunAll(s, es);
            && |es| <= Work(s.cpus)
            && (!CanProgress(s2) ==> (!s2.lock && forall i :: 0 <= i < n ==> s2.cpus[i].caller.Idle?)
                                     || exists h :: Stuck(s2, h))
  {
    var s := RunAll(Init(n), start);
    var s2 := RunAll(s, es);
    Safety(n, start);
    RunWorks(s, es);
    RunInv(s, es);
    if !CanProgress(s2) {
      if i :| Unfinished(s2, i) {
        DeadlockIff(s2, i);
      } else {
        forall i | 0 <= i < n ensures s2.cpus[i].caller.Idle? { assert !Unfinished(s2, i); }
      }
    }
  }

  lemma {:induction false} ReadyStays(s: State, es: seq<Event>)
    requires Ready(s) && forall k :: 0 <= k < |es| ==> !es[k].Call?
    ensures Ready(RunAll(s, es))
    decreases |es|
  {
    hide Step;
    if es != [] {
      ReadyStays(s, es[..|es| - 1]);
      StepTargets(RunAll(s, es[..|es| - 1]), es[|es| - 1]);
    }
  }

  /** So if every call was made to a CPU that already took interrupts, a bounded number of steps
      that are not spins brings all calls to their end. */
  lemma ReadyCallsComplete(n: nat, start: seq<Event>, es: seq<Event>)
    requires CallsReady(n, start) && AllProgress(RunAll(Init(n), start), es)
    ensures var s := RunAll(Init(n), start); var s2 := RunAll(s, es);
            && |es| <= Work(s.cpus)
            && (!CanProgress(s2) ==> !s2.lock && forall i :: 0 <= i < n ==> s2.cpus[i].caller.Idle?)
  {
    var s := RunAll(Init(n), start);
    forall k | 0 <= k < |es| ensures !es[k].Call? {
      assert IsProgress(RunAll(s, es[..k]), es[k]);
    }
    CallsComplete(n, start, es);
    hide RunAll, Ready, Stuck, AllProgress, CanProgress, Work, CallsReady;
    ReadyRun(n, start);
    ReadyStays(s, es);
    forall h: nat ensures !Stuck(RunAll(s, es), h) {
      ReadyIsNotStuck(RunAll(s, es), h);
    }
  }
}
