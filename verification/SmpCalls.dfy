/** The boot of the processors and the interrupt handshake as one machine: the BSP calls
    `on_cpu` from the benchmarks while the processors it has started may still be on their way to
    `sti`, because `startothers` returns as soon as they have stored their flag.

    A step is a step of the boot, of the handshake, or of both at once: an AP that comes to rest
    starts to take interrupts, an interrupt takes it from rest into the handler, and sending an
    interrupt and acknowledging one are accesses through the shared `apic_ops`. */
module SmpCalls {
  import opened Values
  import B = SmpBoot
  import I = Ipi

  datatype State = State(boot: B.State, calls: I.State)

  datatype Event =
    | Boot(cpu: nat)         // a step of `main` before the benchmarks, of the trampoline or of `mpenter`
    | Call(target: nat)      // the BSP starts a call
    | Run(cpu: nat)          // a step of the BSP's call or of an AP's handler
    | Interrupt(cpu: nat)    // deliver the pending vector

  predicate AtWork(p: B.Pc) {
    p.Working? || p.Resting? || p.InHandler?
  }

  predicate Fits(c: B.Config, s: State) {
    B.ValidConfig(c) && B.Shape(c, s.boot) && |s.calls.cpus| == |c.ids|
  }

  function Init(c: B.Config): (s: State)
    requires B.ValidConfig(c)
    ensures Fits(c, s)
  {
    State(B.Init(c), I.Init(|c.ids|))
  }

  function Step(c: B.Config, s: State, e: Event): (s2: State)
    requires Fits(c, s)
    ensures Fits(c, s2)
  {
    var pcs := s.boot.pc;
    match e
    case Boot(k) =>
      if k < |pcs| && !AtWork(pcs[k]) then
        var b := B.Step(c, s.boot, k);
        State(b, if b.pc[k].Resting? then I.Step(s.calls, I.Sti(k)) else s.calls)
      else s
    case Call(t) =>
      if pcs[c.bsp].Working? && t < |pcs| && t != c.bsp
      then s.(calls := I.Step(s.calls, I.Call(c.bsp, t))) else s
    case Run(k) =>
      if k < |pcs| && (pcs[k].Working? || pcs[k].InHandler?) then
        var apic := s.calls.cpus[k].caller.Sending? || s.calls.cpus[k].handler.Acking?;
        State(if apic then B.Step(c, s.boot, k) else s.boot, I.Step(s.calls, I.Run(k)))
      else s
    case Interrupt(k) =>
      if k < |pcs| && pcs[k].Resting? && I.Step(s.calls, I.Interrupt(k)) != s.calls
      then State(B.Step(c, s.boot, k), I.Step(s.calls, I.Interrupt(k))) else s
  }

  function RunAll(c: B.Config, s: State, es: seq<Event>): (s2: State)
    requires Fits(c, s)
    ensures Fits(c, s2)
    decreases |es|
  {
    if es == [] then s else Step(c, RunAll(c, s, es[..|es| - 1]), es[|es| - 1])
  }

  // ----- the invariant

  predicate AtRest(p: B.Pc) {
    p.Resting? || p.InHandler?
  }

  /** An AP takes interrupts exactly once it rests, is in the handler exactly while the boot
      machine has it there, and makes no calls. */
  predicate ApCoupled(p: B.Pc, u: I.Cpu) {
    && (u.accepts <==> AtRest(p)) && (u.handler.Outside? <==> !p.InHandler?) && u.caller.Idle?
  }

  /** The BSP takes no interrupts and calls only other CPUs, and only from the benchmarks. */
  predicate BspCoupled(c: B.Config, p: B.Pc, u: I.Cpu) {
    && !u.accepts && u.handler.Outside? && (u.caller.Idle? || p.Working?)
    && (I.TargetOf(u.caller).Some? ==> I.TargetOf(u.caller).value < |c.ids| && I.TargetOf(u.caller).value != c.bsp)
  }

  predicate Coupled(c: B.Config, s: State, k: nat)
    requires Fits(c, s) && k < |c.ids|
  {
    if k == c.bsp then BspCoupled(c, s.boot.pc[k], s.calls.cpus[k]) else ApCoupled(s.boot.pc[k], s.calls.cpus[k])
  }

  ghost predicate Inv(c: B.Config, s: State) {
    && Fits(c, s) && B.Inv(c, s.boot) && I.Inv(s.calls)
    && forall k :: 0 <= k < |c.ids| ==> Coupled(c, s, k)
  }

  lemma InitInv(c: B.Config)
    requires B.ValidConfig(c)
    ensures Inv(c, Init(c))
  {
    B.InitInv(c);
    I.InitInv(|c.ids|);
  }

  /** What a step of the boot does to the other CPUs: at most it takes an AP out of reset. */
  lemma BootLeavesOthers(c: B.Config, s: B.State, k: nat, j: nat)
    requires B.ValidConfig(c) && B.Inv(c, s) && k < |c.ids| && j < |c.ids| && j != k
    ensures var p, p2 := s.pc[j], B.Step(c, s, k).pc[j];
            p2 == p || (!AtWork(p) && !AtWork(p2))
  {
    B.OnlyBspSends(c, s, k);
    hide B.Lookup;
    if s.pc[k].SendInit? || s.pc[k].SendStartup? {
      if j != c.bsp { assert B.ApOk(c, s, j) && B.Follows(s.pc[c.bsp], j, s.pc[j]); }
    } else {
      B.OneCpuMoves(c, s, k);
    }
  }

  lemma BootMoves(c: B.Config, s: B.State, k: nat)
    requires B.ValidConfig(c) && B.Inv(c, s) && B.Ordered(c) && k < |c.ids| && !AtWork(s.pc[k])
    ensures var p2 := B.Step(c, s, k).pc[k];
            if k == c.bsp then !AtRest(p2) else !p2.Working? && !p2.InHandler?
  {
    hide B.Lookup;
    if k != c.bsp { assert B.ApOk(c, s, k); }
  }

  lemma BootInv(c: B.Config, s: State, k: nat)
    requires Inv(c, s) && B.Ordered(c)
    ensures Inv(c, Step(c, s, Boot(k)))
  {
    var s2 := Step(c, s, Boot(k));
    if k < |c.ids| && !AtWork(s.boot.pc[k]) {
      B.StepInv(c, s.boot, k);
      I.StiInv(s.calls, k);
      BootMoves(c, s.boot, k);
      forall j | 0 <= j < |c.ids| ensures Coupled(c, s2, j) {
        assert Coupled(c, s, j);
        if j != k { BootLeavesOthers(c, s.boot, k, j); }
        hide B.Step, B.Inv, I.Inv;
      }
    }
  }

  lemma CallInv(c: B.Config, s: State, t: nat)
    requires Inv(c, s)
    ensures Inv(c, Step(c, s, Call(t)))
  {
    hide B.Inv, I.Inv, B.Step;
    I.CallInv(s.calls, c.bsp, t);
    var s2 := Step(c, s, Call(t));
    forall j | 0 <= j < |c.ids| ensures Coupled(c, s2, j) { assert Coupled(c, s, j); }
  }

  /** At work, the BSP stays there and an AP goes between rest and handler. */
  lemma WorkMoves(c: B.Config, s: B.State, k: nat)
    requires B.ValidConfig(c) && B.Inv(c, s) && k < |c.ids| && AtWork(s.pc[k])
    ensures B.Step(c, s, k).pc == s.pc[k := match s.pc[k]
                                            case Resting => B.InHandler
                                            case InHandler => B.Resting
                                            case _ => s.pc[k]]
    ensures s.pc[k].Working? ==> k == c.bsp && B.Step(c, s, k) == s
    ensures k == c.bsp ==> s.pc[k].Working?
  {
    if k != c.bsp { assert B.ApOk(c, s, k); }
  }

  lemma InterruptInv(c: B.Config, s: State, k: nat)
    requires Inv(c, s) && B.Ordered(c)
    ensures Inv(c, Step(c, s, Interrupt(k)))
  {
    var s2 := Step(c, s, Interrupt(k));
    if k < |c.ids| && s.boot.pc[k].Resting? {
      B.StepInv(c, s.boot, k);
      I.InterruptInv(s.calls, k);
      WorkMoves(c, s.boot, k);
      hide B.Inv, I.Inv, B.Step;
      forall j | 0 <= j < |c.ids| ensures Coupled(c, s2, j) { assert Coupled(c, s, j); }
    }
  }

  /** What a run step of the handshake does to each CPU. */
  lemma CallMoves(s: I.State, k: nat, j: nat)
    requires k < |s.cpus| && j < |s.cpus|
    ensures var u, u2 := s.cpus[j], I.Step(s, I.Run(k)).cpus[j];
            && u2.accepts == u.accepts
            && (I.TargetOf(u2.caller).Some? ==> I.TargetOf(u2.caller) == I.TargetOf(u.caller))
            && (j != k || !u.handler.Outside? ==> u2.caller == u.caller)
            && (j != k || u.handler.Outside? ==> u2.handler == u.handler)
            && (u.caller.Idle? ==> u2.caller.Idle?)
            && (j == k && !u.handler.Outside? ==> (u2.handler.Outside? <==> u.handler.Acking?))
  {
    hide I.TargetOf;
    if s.cpus[k].handler.Outside? {
      CallerMoves(s, k, j);
    } else {
      assert I.Step(s, I.Run(k)) == I.HandlerStep(s, k);
    }
  }

  lemma CallerMoves(s: I.State, k: nat, j: nat)
    requires k < |s.cpus| && j < |s.cpus|
    ensures var u, u2 := s.cpus[j], I.CallerStep(s, k).cpus[j];
            && u2.accepts == u.accepts && u2.handler == u.handler
            && (I.TargetOf(u2.caller).Some? ==> I.TargetOf(u2.caller) == I.TargetOf(u.caller))
            && (j != k ==> u2.caller == u.caller) && (u.caller.Idle? ==> u2.caller.Idle?)
  {}

  lemma RunInv(c: B.Config, s: State, k: nat)
    requires Inv(c, s) && B.Ordered(c)
    ensures Inv(c, Step(c, s, Run(k)))
  {
    var s2 := Step(c, s, Run(k));
    if k < |c.ids| && (s.boot.pc[k].Working? || s.boot.pc[k].InHandler?) {
      B.StepInv(c, s.boot, k);
      I.StepInv(s.calls, I.Run(k));
      WorkMoves(c, s.boot, k);
      assert Coupled(c, s, k);
      forall j | 0 <= j < |c.ids| ensures Coupled(c, s2, j) {
        hide B.Inv, I.Inv, B.Step, I.Step;
        assert Coupled(c, s, j);
        CallMoves(s.calls, k, j);
      }
    }
  }

  lemma StepInv(c: B.Config, s: State, e: Event)
    requires Inv(c, s) && B.Ordered(c)
    ensures Inv(c, Step(c, s, e))
  {
    hide Inv, Step;
    match e
    case Boot(k) => BootInv(c, s, k);
    case Call(t) => CallInv(c, s, t);
    case Run(k) => RunInv(c, s, k);
    case Interrupt(k) => InterruptInv(c, s, k);
  }

  /** In every run of the whole system both invariants hold and the two halves agree; in
      particular no APIC is accessed in the wrong mode and no interrupt is lost. */
  lemma {:induction false} Safety(c: B.Config, es: seq<Event>)
    requires B.ValidConfig(c) && B.Ordered(c)
    ensures Inv(c, RunAll(c, Init(c), es))
    ensures var s := RunAll(c, Init(c), es); !s.boot.faulted && s.calls.lost == 0
    decreases |es|
  {
    if es == [] {
      InitInv(c);
    } else {
      Safety(c, es[..|es| - 1]);
      StepInv(c, RunAll(c, Init(c), es[..|es| - 1]), es[|es| - 1]);
    }
    assert Inv(c, RunAll(c, Init(c), es));
  }

  // ----- every call returns

  /** A step that is neither a spin nor a new call. */
  predicate IsProgress(c: B.Config, s: State, e: Event)
    requires Fits(c, s)
  {
    !e.Call? && Step(c, s, e) != s
  }

  ghost predicate CanProgress(c: B.Config, s: State)
    requires Fits(c, s)
  {
    exists e :: IsProgress(c, s, e)
  }

  /** A step of the handshake that is possible is possible here. */
  lemma HandshakeMoves(c: B.Config, s: State, e: I.Event)
    requires Inv(c, s) && I.IsProgress(s.calls, e)
    ensures CanProgress(c, s)
  {
    var k := e.cpu;
    assert k < |c.ids| && Coupled(c, s, k);
    var u := s.calls.cpus[k];
    assert e.Run? && u.handler.Outside? ==> !u.caller.Idle?;
    hide B.Step, B.Inv, I.Inv;
    if e.Run? {
      assert Step(c, s, Run(k)).calls != s.calls;
      assert IsProgress(c, s, Run(k));
    } else {
      assert Step(c, s, Interrupt(k)).calls != s.calls;
      assert IsProgress(c, s, Interrupt(k));
    }
  }

  lemma BootStepMoves(c: B.Config, s: State, k: nat)
    requires Inv(c, s) && B.IsProgress(c, s.boot, k)
    ensures CanProgress(c, s)
  {
    assert !s.boot.pc[k].Working? by {
      if s.boot.pc[k].Working? { WorkMoves(c, s.boot, k); }
    }
    assert Step(c, s, Boot(k)).boot != s.boot;
    assert IsProgress(c, s, Boot(k));
  }

  /** A call whose target does not take interrupts yet waits for an AP that can still move. */
  lemma StuckMoves(c: B.Config, s: State, h: nat)
    requires Inv(c, s) && B.Ordered(c) && I.Stuck(s.calls, h)
    ensures CanProgress(c, s)
  {
    assert Coupled(c, s, h);
    var t := s.calls.cpus[h].caller.target;
    assert Coupled(c, s, t);
    assert B.Follows(s.boot.pc[c.bsp], t, s.boot.pc[t]);
    B.ApProgress(c, s.boot, t);
    BootStepMoves(c, s, t);
  }

  /** Until the boot is over and the call has returned, the system can move. */
  lemma NeverDeadlocks(c: B.Config, s: State)
    requires Inv(c, s) && B.Ordered(c)
    ensures CanProgress(c, s) || (B.Finished(c, s.boot) && s.calls.cpus[c.bsp].caller.Idle? && I.Quiet(s.calls))
  {
    hide B.Step, I.Step, B.Inv;
    if I.Unfinished(s.calls, c.bsp) {
      I.DeadlockIff(s.calls, c.bsp);
      if h :| I.Stuck(s.calls, h) {
        StuckMoves(c, s, h);
      } else {
        var e :| I.IsProgress(s.calls, e);
        HandshakeMoves(c, s, e);
      }
    } else if j :| 0 <= j < |c.ids| && !s.calls.cpus[j].handler.Outside? {
      I.HandlerProgress(s.calls, j);
      var e :| I.IsProgress(s.calls, e);
      HandshakeMoves(c, s, e);
    } else {
      forall j | 0 <= j < |c.ids| ensures s.calls.cpus[j].caller.Idle? { assert Coupled(c, s, j); }
      B.InvMoves(c, s.boot);
      if k :| B.IsProgress(c, s.boot, k) { BootStepMoves(c, s, k); }
    }
  }

  function Work(c: B.Config, s: State): nat {
    B.Work(|c.ids|, s.boot.pc) + I.Work(s.calls.cpus)
  }

  lemma StiWorks(s: I.State, k: nat)
    ensures I.Work(I.Step(s, I.Sti(k)).cpus) == I.Work(s.cpus)
  {
    if k < |s.cpus| { I.WorkUpdate(s.cpus, k, s.cpus[k].(accepts := true)); }
  }

  /** Every progress step of the whole brings its end closer. */
  lemma ProgressWorks(c: B.Config, s: State, e: Event)
    requires Inv(c, s) && B.Ordered(c) && IsProgress(c, s, e)
    ensures Work(c, Step(c, s, e)) < Work(c, s)
  {
    hide B.Work, I.Work, I.Step, B.Inv, I.Inv;
    B.StepWorks(c, s.boot, e.cpu);
    match e
    case Boot(k) =>
      StiWorks(s.calls, k);
      assert Step(c, s, e).boot != s.boot ==> B.IsProgress(c, s.boot, k);
    case Run(k) =>
      WorkMoves(c, s.boot, k);
      assert Coupled(c, s, k);
      if !s.calls.cpus[k].handler.Outside? { HandlerMoves(s.calls, k); }
      HandshakeWorks(c, s, I.Run(k));
    case Interrupt(k) =>
      HandshakeWorks(c, s, I.Interrupt(k));
  }

  lemma HandlerMoves(s: I.State, k: nat)
    requires k < |s.cpus| && !s.cpus[k].handler.Outside?
    ensures I.Step(s, I.Run(k)) != s
  {
    assert I.Step(s, I.Run(k)).cpus[k].handler != s.cpus[k].handler;
  }

  lemma HandshakeWorks(c: B.Config, s: State, e: I.Event)
    requires Inv(c, s) && (e.Run? || e.Interrupt?) && I.Step(s.calls, e) != s.calls
    ensures I.Work(I.Step(s.calls, e).cpus) < I.Work(s.calls.cpus)
  {
    I.ProgressWorks(s.calls, e);
  }

  function ProgressSteps(c: B.Config, s: State, es: seq<Event>): nat
    requires Fits(c, s)
    decreases |es|
  {
    if es == [] then 0
    else
      var before, e := es[..|es| - 1], es[|es| - 1];
      ProgressSteps(c, s, before) + if IsProgress(c, RunAll(c, s, before), e) then 1 else 0
  }

  lemma {:induction false} RunWorks(c: B.Config, s: State, es: seq<Event>)
    requires Inv(c, s) && B.Ordered(c) && forall k :: 0 <= k < |es| ==> !es[k].Call?
    ensures Inv(c, RunAll(c, s, es))
    ensures ProgressSteps(c, s, es) + Work(c, RunAll(c, s, es)) <= Work(c, s)
    decreases |es|
  {
    assert Fits(c, s);
    hide Inv, Step, Work;
    if es != [] {
      var before, e := es[..|es| - 1], es[|es| - 1];
      RunWorks(c, s, before);
      StepInv(c, RunAll(c, s, before), e);
      if IsProgress(c, RunAll(c, s, before), e) {
        ProgressWorks(c, RunAll(c, s, before), e);
      }
    }
  }

  /** From every state of every run, whatever is scheduled next, the steps that are not spins are
      bounded, and where none is left the boot is over, the call of the BSP has returned, the lock
      is free and no handler runs: a call to a CPU that has been started returns, although that
      CPU may not take interrupts yet when it is called. */
  lemma CallsReturn(c: B.Config, start: seq<Event>, es: seq<Event>)
    requires B.ValidConfig(c) && B.Ordered(c) && forall k :: 0 <= k < |es| ==> !es[k].Call?
    ensures var s := RunAll(c, Init(c), start); var s2 := RunAll(c, s, es);
            && ProgressSteps(c, s, es) <= Work(c, s)
            && (!CanProgress(c, s2) ==>
                  B.Finished(c, s2.boot) && s2.calls.cpus[c.bsp].caller.Idle? && I.Quiet(s2.calls))
  {
    hide Inv, Step, Work, CanProgress;
    var s := RunAll(c, Init(c), start);
    Safety(c, start);
    RunWorks(c, s, es);
    NeverDeadlocks(c, RunAll(c, s, es));
  }

  // ----- a call that comes before `sti`

  /** Two CPUs with x2APIC. */
  const TWO := B.Config([0, 1], 0, true, true)

  function Repeat(e: Event, n: nat): seq<Event> {
    if n == 0 then [] else Repeat(e, n - 1) + [e]
  }

  /** The BSP starts the AP, the AP stores its flag, the BSP goes on to the benchmarks and calls the
      AP, which has not switched its APIC yet. */
  function Early(): seq<Event> {
    Repeat(Boot(0), 6) + Repeat(Boot(1), 6) + Repeat(Boot(0), 4) + [Call(1)] + Repeat(Run(0), 3)
  }

  lemma {:induction false} RunOn(c: B.Config, s: State, es: seq<Event>, fs: seq<Event>)
    requires Fits(c, s)
    ensures RunAll(c, s, es + fs) == RunAll(c, RunAll(c, s, es), fs)
    decreases |fs|
  {
    hide Step;
    if fs == [] {
      assert es + fs == es;
    } else {
      assert (es + fs)[..|es + fs| - 1] == es + fs[..|fs| - 1];
      RunOn(c, s, es, fs[..|fs| - 1]);
    }
  }

  lemma RepeatStep(c: B.Config, s: State, e: Event, n: nat)
    requires Fits(c, s) && n > 0
    ensures RunAll(c, s, Repeat(e, n)) == Step(c, RunAll(c, s, Repeat(e, n - 1)), e)
  {
    hide Step;
    assert Repeat(e, n)[..|Repeat(e, n)| - 1] == Repeat(e, n - 1);
  }

  /** The boot state of the two CPUs with the BSP's table of modes and the AP's stack. */
  function Two(bsp: B.Pc, ap: B.Pc, mode: B.Mode, started: bool, stack: Option<int>): B.State {
    B.State([bsp, ap], [mode, B.XApic], if bsp.Working? then B.X2Apic else B.XApic, [false, started],
            if stack.None? then 0xa0000 else 0x9f000, [None, stack], false)
  }

  function Starting(bsp: B.Pc, ap: B.Pc): B.State { Two(bsp, ap, B.XApic, false, None) }
  function Marking(ap: B.Pc): B.State { Two(B.WaitStarted(1), ap, B.XApic, false, Some(0xa0000)) }
  function GoingOn(bsp: B.Pc, mode: B.Mode): B.State { Two(bsp, B.SetMode, mode, true, Some(0xa0000)) }

  lemma FirstSelf()
    ensures B.Lookup([0, 1], 0) == 0 && B.Lookup([0, 1], 1) == 1
  {
    B.LookupSelf(TWO, 0);
    B.LookupSelf(TWO, 1);
  }

  lemma StartOfRun(c: B.Config, s: State, e: Event)
    requires Fits(c, s)
    ensures RunAll(c, s, Repeat(e, 0)) == s
  {}

  lemma BootOnly(s: State, k: nat)
    requires Fits(TWO, s) && k < 2 && !AtWork(s.boot.pc[k]) && !B.Step(TWO, s.boot, k).pc[k].Resting?
    ensures Step(TWO, s, Boot(k)) == s.(boot := B.Step(TWO, s.boot, k))
  {
    hide B.Step, B.Lookup;
  }

  lemma BspStartsSteps()
    ensures B.Step(TWO, Starting(B.EnableApic, B.Down), 0) == Starting(B.Scan(0), B.Down)
    ensures B.Step(TWO, Starting(B.Scan(0), B.Down), 0) == Starting(B.Scan(1), B.Down)
    ensures B.Step(TWO, Starting(B.Scan(1), B.Down), 0) == Starting(B.SendInit(1), B.Down)
    ensures B.Step(TWO, Starting(B.SendInit(1), B.Down), 0) == Starting(B.SendStartup(1, 0), B.WaitSipi)
    ensures B.Step(TWO, Starting(B.SendStartup(1, 0), B.WaitSipi), 0) == Starting(B.SendStartup(1, 1), B.ClaimStack)
    ensures B.Step(TWO, Starting(B.SendStartup(1, 1), B.ClaimStack), 0) == Starting(B.WaitStarted(1), B.ClaimStack)
  {
    FirstSelf();
    hide B.Lookup, B.ValidConfig;
  }

  lemma BspStarts(s: State)
    requires Fits(TWO, s) && s.boot == Starting(B.EnableApic, B.Down)
    ensures RunAll(TWO, s, Repeat(Boot(0), 6)) == s.(boot := Starting(B.WaitStarted(1), B.ClaimStack))
  {
    BspStartsSteps();
    StartOfRun(TWO, s, Boot(0));
    hide RunAll, Repeat, Step, B.Step;
    RepeatStep(TWO, s, Boot(0), 1);
    BootOnly(s.(boot := Starting(B.EnableApic, B.Down)), 0);
    RepeatStep(TWO, s, Boot(0), 2);
    BootOnly(s.(boot := Starting(B.Scan(0), B.Down)), 0);
    RepeatStep(TWO, s, Boot(0), 3);
    BootOnly(s.(boot := Starting(B.Scan(1), B.Down)), 0);
    RepeatStep(TWO, s, Boot(0), 4);
    BootOnly(s.(boot := Starting(B.SendInit(1), B.Down)), 0);
    RepeatStep(TWO, s, Boot(0), 5);
    BootOnly(s.(boot := Starting(B.SendStartup(1, 0), B.WaitSipi)), 0);
    RepeatStep(TWO, s, Boot(0), 6);
    BootOnly(s.(boot := Starting(B.SendStartup(1, 1), B.ClaimStack)), 0);
  }

  lemma ApMarksSteps()
    ensures B.Step(TWO, Starting(B.WaitStarted(1), B.ClaimStack), 1) == Marking(B.PrintId(0))
    ensures B.Step(TWO, Marking(B.PrintId(0)), 1) == Marking(B.PrintId(1))
    ensures B.Step(TWO, Marking(B.PrintId(1)), 1) == Marking(B.EnableOwnApic)
    ensures B.Step(TWO, Marking(B.EnableOwnApic), 1) == Marking(B.FindSelf)
    ensures B.Step(TWO, Marking(B.FindSelf), 1) == Marking(B.MarkStarted(1))
    ensures B.Step(TWO, Marking(B.MarkStarted(1)), 1) == GoingOn(B.WaitStarted(1), B.XApic)
  {
    FirstSelf();
    hide B.Lookup, B.ValidConfig;
  }

  lemma ApMarks(s: State)
    requires Fits(TWO, s) && s.boot == Starting(B.WaitStarted(1), B.ClaimStack)
    ensures RunAll(TWO, s, Repeat(Boot(1), 6)) == s.(boot := GoingOn(B.WaitStarted(1), B.XApic))
  {
    ApMarksSteps();
    StartOfRun(TWO, s, Boot(1));
    hide RunAll, Repeat, Step, B.Step;
    RepeatStep(TWO, s, Boot(1), 1);
    BootOnly(s.(boot := Starting(B.WaitStarted(1), B.ClaimStack)), 1);
    RepeatStep(TWO, s, Boot(1), 2);
    BootOnly(s.(boot := Marking(B.PrintId(0))), 1);
    RepeatStep(TWO, s, Boot(1), 3);
    BootOnly(s.(boot := Marking(B.PrintId(1))), 1);
    RepeatStep(TWO, s, Boot(1), 4);
    BootOnly(s.(boot := Marking(B.EnableOwnApic)), 1);
    RepeatStep(TWO, s, Boot(1), 5);
    BootOnly(s.(boot := Marking(B.FindSelf)), 1);
    RepeatStep(TWO, s, Boot(1), 6);
    BootOnly(s.(boot := Marking(B.MarkStarted(1))), 1);
  }

  lemma BspGoesOnSteps()
    ensures B.Step(TWO, GoingOn(B.WaitStarted(1), B.XApic), 0) == GoingOn(B.Scan(2), B.XApic)
    ensures B.Step(TWO, GoingOn(B.Scan(2), B.XApic), 0) == GoingOn(B.SetMode, B.XApic)
    ensures B.Step(TWO, GoingOn(B.SetMode, B.XApic), 0) == GoingOn(B.SetOps, B.X2Apic)
    ensures B.Step(TWO, GoingOn(B.SetOps, B.X2Apic), 0) == GoingOn(B.Working, B.X2Apic)
  {
    FirstSelf();
    hide B.Lookup, B.ValidConfig;
  }

  lemma BspGoesOn(s: State)
    requires Fits(TWO, s) && s.boot == GoingOn(B.WaitStarted(1), B.XApic)
    ensures RunAll(TWO, s, Repeat(Boot(0), 4)) == s.(boot := GoingOn(B.Working, B.X2Apic))
  {
    BspGoesOnSteps();
    StartOfRun(TWO, s, Boot(0));
    hide RunAll, Repeat, Step, B.Step;
    RepeatStep(TWO, s, Boot(0), 1);
    BootOnly(s.(boot := GoingOn(B.WaitStarted(1), B.XApic)), 0);
    RepeatStep(TWO, s, Boot(0), 2);
    BootOnly(s.(boot := GoingOn(B.Scan(2), B.XApic)), 0);
    RepeatStep(TWO, s, Boot(0), 3);
    BootOnly(s.(boot := GoingOn(B.SetMode, B.XApic)), 0);
    RepeatStep(TWO, s, Boot(0), 4);
    BootOnly(s.(boot := GoingOn(B.SetOps, B.X2Apic)), 0);
  }

  lemma BspCalls(s: State)
    requires Fits(TWO, s) && s.boot == GoingOn(B.Working, B.X2Apic) && s.calls == I.Init(2)
    ensures I.Stuck(RunAll(TWO, Step(TWO, s, Call(1)), Repeat(Run(0), 3)).calls, 0)
  {
    var s1 := Step(TWO, s, Call(1));
    StartOfRun(TWO, s1, Run(0));
    RepeatStep(TWO, s1, Run(0), 1);
    RepeatStep(TWO, s1, Run(0), 2);
    RepeatStep(TWO, s1, Run(0), 3);
    I.FourSteps(s.calls, I.Call(0, 1), I.Run(0), I.Run(0), I.Run(0));
    I.DeadlockReached();
    hide RunAll, Repeat, I.Step, I.Stuck, I.RunAll;
    var s2 := Step(TWO, s1, Run(0));
    var s3 := Step(TWO, s2, Run(0));
    assert s1.boot == s.boot && s1.calls == I.Step(s.calls, I.Call(0, 1));
    assert s2.boot == s.boot && s2.calls == I.Step(s1.calls, I.Run(0));
    assert s3.boot == s.boot && s3.calls == I.Step(s2.calls, I.Run(0));
  }

  lemma EarlyBoot()
    ensures var s := RunAll(TWO, Init(TWO), Repeat(Boot(0), 6) + Repeat(Boot(1), 6) + Repeat(Boot(0), 4));
            s == State(GoingOn(B.Working, B.X2Apic), I.Init(2))
  {
    var s0, a, b, d := Init(TWO), Repeat(Boot(0), 6), Repeat(Boot(1), 6), Repeat(Boot(0), 4);
    assert s0.boot == Starting(B.EnableApic, B.Down);
    hide Step, RunAll, Repeat, I.Init, Init, B.Init;
    RunOn(TWO, s0, a + b, d);
    RunOn(TWO, s0, a, b);
    BspStarts(s0);
    ApMarks(RunAll(TWO, s0, a));
    BspGoesOn(RunAll(TWO, s0, a + b));
  }

  /** There is a run of the whole system in which the BSP calls a started AP before its `sti`: the
      handshake taken alone is deadlocked there, and yet the system moves on. */
  lemma EarlyCall()
    ensures var s := RunAll(TWO, Init(TWO), Early());
            I.Stuck(s.calls, TWO.bsp) && CanProgress(TWO, s)
  {
    var s0, es, g := Init(TWO), Repeat(Boot(0), 6) + Repeat(Boot(1), 6) + Repeat(Boot(0), 4), Repeat(Run(0), 3);
    EarlyBoot();
    hide Step, RunAll, Repeat, I.Stuck, CanProgress, Init, I.Init, Two, Inv;
    RunOn(TWO, s0, es + [Call(1)], g);
    RunOn(TWO, s0, es, [Call(1)]);
    OneEvent(TWO, RunAll(TWO, s0, es), Call(1));
    BspCalls(RunAll(TWO, s0, es));
    Safety(TWO, Early());
    NeverDeadlocks(TWO, RunAll(TWO, s0, Early()));
    StuckIsNotIdle(RunAll(TWO, s0, Early()).calls);
  }

  lemma StuckIsNotIdle(s: I.State)
    requires |s.cpus| == 2 && I.Stuck(s, 0)
    ensures !s.cpus[0].caller.Idle?
  {}

  lemma OneEvent(c: B.Config, s: State, e: Event)
    requires Fits(c, s)
    ensures RunAll(c, s, [e]) == Step(c, s, e)
  {
    assert [e][..0] == [];
  }
}
