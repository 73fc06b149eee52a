/** The boot of the application processors as a state machine: the bootstrap processor (BSP)
    runs `main` and `startothers`, each other processor (AP) runs the trampoline and `mpenter`,
    and a schedule picks who takes the next step.

    A local APIC answers memory-mapped accesses only in xAPIC mode and register accesses
    through MSRs only in x2APIC mode. `faulted` records an access made in the wrong mode. */
module SmpBoot {
  import opened Values

  const STACK_SIZE := 4096
  const STACK_TOP := 0xa0000

  datatype Mode = XApic | X2Apic

  /** The machine: the APIC ids of the CPU table in order, the table index of the BSP, whether
      the processors support x2APIC, and the order of the last two lines of `mpenter`. */
  datatype Config = Config(ids: seq<nat>, bsp: nat, x2: bool, startedFirst: bool)

  datatype Pc =
    // BSP only
    | EnableApic                 // enable_apic
    | Scan(i: nat)               // head of the loop of startothers
    | SendInit(i: nat)           // lapicstartap: INIT
    | SendStartup(i: nat, round: nat)
    | WaitStarted(i: nat)
    | Working                    // harness_main
    // AP only
    | Down
    | WaitSipi                   // halted by an INIT
    | ClaimStack
    | PrintId(round: nat)        // the two cpuid() arguments of the first printf
    | EnableOwnApic
    | FindSelf                   // mycpu()
    | MarkStarted(entry: nat)    // xchg of cpus[entry].started
    | Resting                    // halted, taking interrupts
    | InHandler                  // about to write EOI
    // both
    | SetMode                    // enable_x2apic: cpuid and wrmsr
    | SetOps                     // enable_x2apic: apic_ops = &x2apic_ops

  datatype State = State(pc: seq<Pc>, mode: seq<Mode>, ops: Mode, started: seq<bool>,
                         stackTop: int, stack: seq<Option<int>>, faulted: bool)

  predicate ValidConfig(c: Config) {
    && c.bsp < |c.ids| <= NCPU
    && forall i, j :: 0 <= i < j < |c.ids| ==> c.ids[i] != c.ids[j]
  }

  // ----- mycpu

  /** The first table entry with this APIC id; the table's length if there is none. */
  function Lookup(ids: seq<nat>, id: nat): (k: nat)
    ensures k <= |ids|
    ensures k < |ids| ==> ids[k] == id
    ensures forall j :: 0 <= j < k ==> ids[j] != id
  {
    if ids == [] || ids[0] == id then 0 else 1 + Lookup(ids[1..], id)
  }

  method MyCpu(ids: seq<nat>, apicid: nat) returns (k: nat)
    ensures k == Lookup(ids, apicid)
  {
    k := 0;
    while k < |ids|
      invariant k <= |ids| && forall j :: 0 <= j < k ==> ids[j] != apicid
    {
      if ids[k] == apicid { return; }
      k := k + 1;
    }
  }

  lemma LookupSelf(c: Config, k: nat)
    requires ValidConfig(c) && k < |c.ids|
    ensures Lookup(c.ids, c.ids[k]) == k
  {}

  // ----- steps

  function Init(c: Config): State
    requires ValidConfig(c)
  {
    var n := |c.ids|;
    State(seq(n, k => if k == c.bsp then EnableApic else Down), seq(n, _ => XApic), XApic, seq(n, _ => false),
          STACK_TOP, seq(n, _ => None), false)
  }

  predicate Shape(c: Config, s: State) {
    |s.pc| == |s.mode| == |s.started| == |s.stack| == |c.ids|
  }

  function Goto(s: State, k: nat, p: Pc): State
    requires k < |s.pc|
  {
    s.(pc := s.pc[k := p])
  }

  /** CPU k makes a memory-mapped access to its local APIC. */
  function Mmio(s: State, k: nat): State
    requires k < |s.mode|
  {
    s.(faulted := s.faulted || s.mode[k] != XApic)
  }

  /** CPU k makes an access through the shared `apic_ops`. */
  function ViaOps(s: State, k: nat): State
    requires k < |s.mode|
  {
    s.(faulted := s.faulted || s.mode[k] != s.ops)
  }

  /** What an AP does after it has enabled its APIC, in the order the config gives. */
  function AfterApic(c: Config): Pc { if c.startedFirst then FindSelf else SetMode }
  function AfterStarted(c: Config): Pc { if c.startedFirst then SetMode else Resting }
  function AfterX2(c: Config, k: nat): Pc {
    if k == c.bsp then Working else if c.startedFirst then Resting else FindSelf
  }

  function Step(c: Config, s: State, k: nat): (s2: State)
    requires ValidConfig(c) && Shape(c, s)
    ensures Shape(c, s2)
  {
    if k >= |c.ids| then s
    else
      match s.pc[k]
      case EnableApic => Goto(Mmio(s, k), k, Scan(0))
      case Scan(i) =>
        if i >= |c.ids| then Goto(s, k, SetMode)
        else Goto(Mmio(s, k), k, if i == Lookup(c.ids, c.ids[k]) then Scan(i + 1) else SendInit(i))
      case SendInit(i) =>
        if i >= |c.ids| then s
        else Goto(Goto(Mmio(s, k), i, WaitSipi), k, SendStartup(i, 0))
      case SendStartup(i, r) =>
        if i >= |c.ids| then s
        else
          var s1 := if s.pc[i] == WaitSipi then Goto(s, i, ClaimStack) else s;   // otherwise ignored
          Goto(Mmio(s1, k), k, if r == 0 then SendStartup(i, 1) else WaitStarted(i))
      case WaitStarted(i) => if i < |c.ids| && s.started[i] then Goto(s, k, Scan(i + 1)) else s
      case Working => ViaOps(s, k)
      case Down => s
      case WaitSipi => s
      case ClaimStack =>
        // xadd: the old value becomes the stack pointer
        Goto(s.(stack := s.stack[k := Some(s.stackTop)], stackTop := s.stackTop - STACK_SIZE), k, PrintId(0))
      case PrintId(r) => Goto(Mmio(s, k), k, if r == 0 then PrintId(1) else EnableOwnApic)
      case EnableOwnApic => Goto(Mmio(s, k), k, AfterApic(c))
      case FindSelf => Goto(Mmio(s, k), k, MarkStarted(Lookup(c.ids, c.ids[k])))
      case MarkStarted(e) =>
        if e >= |c.ids| then s else Goto(s.(started := s.started[e := true]), k, AfterStarted(c))
      case Resting => Goto(s, k, InHandler)
      case InHandler => Goto(ViaOps(s, k), k, Resting)
      case SetMode =>
        if c.x2 then Goto(s.(mode := s.mode[k := X2Apic]), k, SetOps) else Goto(s, k, AfterX2(c, k))
      case SetOps => Goto(s.(ops := X2Apic), k, AfterX2(c, k))
  }

  function Run(c: Config, schedule: seq<nat>): (s: State)
    requires ValidConfig(c)
    ensures Shape(c, s)
    decreases |schedule|
  {
    if schedule == [] then Init(c) else Step(c, Run(c, schedule[..|schedule| - 1]), schedule[|schedule| - 1])
  }

  // ----- the invariant

  /** Between accepting STARTUP and storing its started flag. */
  predicate Booting(p: Pc) {
    p.ClaimStack? || p.PrintId? || p.EnableOwnApic? || p.FindSelf? || p.MarkStarted?
  }

  /** After storing its started flag. */
  predicate Booted(p: Pc) {
    p.SetMode? || p.SetOps? || p.Resting? || p.InHandler?
  }

  /** The table entries before i other than the BSP's: how many stacks their processors took. */
  function Rank(c: Config, i: nat): int {
    if i <= c.bsp then i else i - 1
  }

  function StackOf(c: Config, k: nat): int {
    STACK_TOP - STACK_SIZE * Rank(c, k)
  }

  /** Processor k is in its final APIC mode and, if that is x2APIC, so is the shared table. */
  predicate Switched(c: Config, s: State, k: nat)
    requires Shape(c, s) && k < |c.ids|
  {
    if c.x2 then s.mode[k] == X2Apic && s.ops == X2Apic else s.mode[k] == XApic
  }

  predicate ApOk(c: Config, s: State, k: nat)
    requires Shape(c, s) && k < |c.ids|
  {
    && (s.started[k] <==> Booted(s.pc[k]))
    && (match s.pc[k]
        case Down => s.mode[k] == XApic && s.stack[k] == None
        case WaitSipi => s.mode[k] == XApic && s.stack[k] == None
        case ClaimStack => s.mode[k] == XApic && s.stack[k] == None
        case PrintId(_) => s.mode[k] == XApic && s.stack[k] == Some(StackOf(c, k))
        case EnableOwnApic => s.mode[k] == XApic && s.stack[k] == Some(StackOf(c, k))
        case FindSelf => s.mode[k] == XApic && s.stack[k] == Some(StackOf(c, k))
        case MarkStarted(e) => s.mode[k] == XApic && s.stack[k] == Some(StackOf(c, k)) && e == k
        case SetMode => s.mode[k] == XApic && s.stack[k] == Some(StackOf(c, k))
        case SetOps => c.x2 && s.mode[k] == X2Apic && s.stack[k] == Some(StackOf(c, k))
        case Resting => Switched(c, s, k) && s.stack[k] == Some(StackOf(c, k))
        case InHandler => Switched(c, s, k) && s.stack[k] == Some(StackOf(c, k))
        case _ => false)
  }

  /** How far the AP of entry k is, given where the BSP is. */
  predicate Follows(p: Pc, k: nat, ap: Pc) {
    match p
    case EnableApic => ap.Down?
    case Scan(i) => if k < i then Booted(ap) else ap.Down?
    case SendInit(i) => if k < i then Booted(ap) else ap.Down?
    case SendStartup(i, r) =>
      if k < i then Booted(ap) else if k > i then ap.Down?
      else if r == 0 then ap.WaitSipi? else Booting(ap) || Booted(ap)
    case WaitStarted(i) => if k < i then Booted(ap) else if k > i then ap.Down? else Booting(ap) || Booted(ap)
    case _ => Booted(ap)
  }

  predicate BspOk(c: Config, s: State)
    requires Shape(c, s) && c.bsp < |c.ids|
  {
    && s.stack[c.bsp] == None
    && (match s.pc[c.bsp]
        case EnableApic => s.mode[c.bsp] == XApic && s.stackTop == STACK_TOP
        case Scan(i) => i <= |c.ids| && s.mode[c.bsp] == XApic && s.stackTop == StackOf(c, i)
        case SendInit(i) => i < |c.ids| && i != c.bsp && s.mode[c.bsp] == XApic && s.stackTop == StackOf(c, i)
        case SendStartup(i, r) => i < |c.ids| && i != c.bsp && s.mode[c.bsp] == XApic && StackTopDuring(c, s, i)
        case WaitStarted(i) => i < |c.ids| && i != c.bsp && s.mode[c.bsp] == XApic && StackTopDuring(c, s, i)
        case SetMode => s.mode[c.bsp] == XApic
        case SetOps => c.x2 && s.mode[c.bsp] == X2Apic
        case Working => Switched(c, s, c.bsp)
        case _ => false)
  }

  predicate StackTopDuring(c: Config, s: State, i: nat)
    requires Shape(c, s) && i < |c.ids|
  {
    s.stackTop == if s.stack[i].None? then StackOf(c, i) else StackOf(c, i) - STACK_SIZE
  }

  ghost predicate Inv(c: Config, s: State)
    requires ValidConfig(c)
  {
    && Shape(c, s) && BspOk(c, s) && !s.faulted && (!c.x2 ==> s.ops == XApic)
    && (forall k :: 0 <= k < |c.ids| && k != c.bsp ==> ApOk(c, s, k) && Follows(s.pc[c.bsp], k, s.pc[k]))
  }

  lemma InitInv(c: Config)
    requires ValidConfig(c)
    ensures Inv(c, Init(c))
  {}

  /** The order in which `mpenter` stores the flag matters only if there is an AP. */
  predicate Ordered(c: Config) {
    c.startedFirst || |c.ids| == 1
  }

  lemma BspSends(c: Config, s: State)
    requires ValidConfig(c) && Inv(c, s) && (s.pc[c.bsp].SendInit? || s.pc[c.bsp].SendStartup?)
    ensures Inv(c, Step(c, s, c.bsp))
  {
    var s2 := Step(c, s, c.bsp);
    var i := s.pc[c.bsp].i;
    assert ApOk(c, s, i) && Follows(s.pc[c.bsp], i, s.pc[i]);
    forall k | 0 <= k < |c.ids| && k != c.bsp ensures ApOk(c, s2, k) && Follows(s2.pc[c.bsp], k, s2.pc[k]) {
      assert ApOk(c, s, k) && Follows(s.pc[c.bsp], k, s.pc[k]);
    }
  }

  lemma BspLoops(c: Config, s: State)
    requires ValidConfig(c) && Inv(c, s) && (s.pc[c.bsp].EnableApic? || s.pc[c.bsp].Scan? || s.pc[c.bsp].WaitStarted?)
    ensures Inv(c, Step(c, s, c.bsp))
  {
    LookupSelf(c, c.bsp);
    hide Lookup;
    var s2 := Step(c, s, c.bsp);
    forall k | 0 <= k < |c.ids| && k != c.bsp ensures ApOk(c, s2, k) && Follows(s2.pc[c.bsp], k, s2.pc[k]) {
      assert ApOk(c, s, k) && Follows(s.pc[c.bsp], k, s.pc[k]);
    }
    if s.pc[c.bsp].WaitStarted? { assert ApOk(c, s, s.pc[c.bsp].i); }
  }

  lemma BspStep(c: Config, s: State)
    requires ValidConfig(c) && Inv(c, s)
    ensures Inv(c, Step(c, s, c.bsp))
  {
    var p := s.pc[c.bsp];
    if p.SendInit? || p.SendStartup? {
      BspSends(c, s);
    } else if p.EnableApic? || p.Scan? || p.WaitStarted? {
      BspLoops(c, s);
    } else {
      var s2 := Step(c, s, c.bsp);
      forall k | 0 <= k < |c.ids| && k != c.bsp ensures ApOk(c, s2, k) && Follows(s2.pc[c.bsp], k, s2.pc[k]) {
        assert ApOk(c, s, k) && Follows(s.pc[c.bsp], k, s.pc[k]);
      }
    }
  }

  /** What a step of AP a leaves alone, and what it must re-establish. */
  lemma ApFrame(c: Config, s: State, s2: State, a: nat)
    requires ValidConfig(c) && Inv(c, s) && a < |c.ids| && a != c.bsp && Shape(c, s2)
    requires forall k :: 0 <= k < |c.ids| && k != a ==>
      s2.pc[k] == s.pc[k] && s2.mode[k] == s.mode[k] && s2.stack[k] == s.stack[k] && s2.started[k] == s.started[k]
    requires s2.ops == s.ops || (c.x2 && s2.ops == X2Apic)
    requires BspOk(c, s2) && !s2.faulted && ApOk(c, s2, a) && Follows(s.pc[c.bsp], a, s2.pc[a])
    ensures Inv(c, s2)
  {
    forall k | 0 <= k < |c.ids| && k != c.bsp ensures ApOk(c, s2, k) && Follows(s2.pc[c.bsp], k, s2.pc[k]) {
      assert ApOk(c, s, k) && Follows(s.pc[c.bsp], k, s.pc[k]);
    }
  }

  lemma ApClaims(c: Config, s: State, a: nat)
    requires ValidConfig(c) && Inv(c, s) && a < |c.ids| && a != c.bsp && s.pc[a].ClaimStack?
    ensures Inv(c, Step(c, s, a))
  {
    hide Lookup;
    assert ApOk(c, s, a) && Follows(s.pc[c.bsp], a, s.pc[a]);
    ApFrame(c, s, Step(c, s, a), a);
  }

  lemma ApBoots(c: Config, s: State, a: nat)
    requires ValidConfig(c) && Inv(c, s) && Ordered(c) && a < |c.ids| && a != c.bsp
    requires Booting(s.pc[a]) && !s.pc[a].ClaimStack?
    ensures Inv(c, Step(c, s, a))
  {
    LookupSelf(c, a);
    hide Lookup, StackOf;
    assert ApOk(c, s, a) && Follows(s.pc[c.bsp], a, s.pc[a]);
    ApFrame(c, s, Step(c, s, a), a);
  }

  lemma ApSwitches(c: Config, s: State, a: nat)
    requires ValidConfig(c) && Inv(c, s) && Ordered(c) && a < |c.ids| && a != c.bsp
    requires s.pc[a].SetMode? || s.pc[a].SetOps?
    ensures Inv(c, Step(c, s, a))
  {
    hide Lookup, StackOf;
    assert ApOk(c, s, a) && Follows(s.pc[c.bsp], a, s.pc[a]);
    ApFrame(c, s, Step(c, s, a), a);
  }

  lemma ApRuns(c: Config, s: State, a: nat)
    requires ValidConfig(c) && Inv(c, s) && Ordered(c) && a < |c.ids| && a != c.bsp
    requires s.pc[a].Resting? || s.pc[a].InHandler?
    ensures Inv(c, Step(c, s, a))
  {
    hide Lookup, StackOf;
    assert ApOk(c, s, a) && Follows(s.pc[c.bsp], a, s.pc[a]);
    ApFrame(c, s, Step(c, s, a), a);
  }

  lemma ApStep(c: Config, s: State, a: nat)
    requires ValidConfig(c) && Inv(c, s) && Ordered(c) && a < |c.ids| && a != c.bsp
    ensures Inv(c, Step(c, s, a))
  {
    hide Lookup;
    assert ApOk(c, s, a);
    if s.pc[a].ClaimStack? {
      ApClaims(c, s, a);
    } else if Booting(s.pc[a]) {
      ApBoots(c, s, a);
    } else if s.pc[a].SetMode? || s.pc[a].SetOps? {
      ApSwitches(c, s, a);
    } else if Booted(s.pc[a]) {
      ApRuns(c, s, a);
    }
  }

  /** The invariant holds after every schedule. */
  lemma {:induction false} Safety(c: Config, schedule: seq<nat>)
    requires ValidConfig(c) && Ordered(c)
    ensures Inv(c, Run(c, schedule))
    decreases |schedule|
  {
    if schedule == [] {
      InitInv(c);
    } else {
      var before, k := schedule[..|schedule| - 1], schedule[|schedule| - 1];
      Safety(c, before);
      StepInv(c, Run(c, before), k);
    }
  }

  lemma StepInv(c: Config, s: State, k: nat)
    requires ValidConfig(c) && Ordered(c) && Inv(c, s)
    ensures Inv(c, Step(c, s, k))
  {
    if k == c.bsp {
      BspStep(c, s);
    } else if k < |c.ids| {
      ApStep(c, s, k);
    }
  }

  // ----- what it means

  /** In every run, no local APIC is accessed in a mode it is not in. */
  lemma NoWrongModeAccess(c: Config, schedule: seq<nat>)
    requires ValidConfig(c) && Ordered(c)
    ensures !Run(c, schedule).faulted
  {
    Safety(c, schedule);
  }

  /** In every run, an AP about to store a started flag stores its own. */
  lemma MarksItself(c: Config, schedule: seq<nat>, k: nat)
    requires ValidConfig(c) && Ordered(c) && k < |c.ids| && k != c.bsp
    ensures Run(c, schedule).pc[k].MarkStarted? ==> Run(c, schedule).pc[k].entry == k
  {
    Safety(c, schedule);
    assert ApOk(c, Run(c, schedule), k);
  }

  /** In every run, at most one AP is between STARTUP and its store. */
  lemma OneBootsAtATime(c: Config, schedule: seq<nat>, j: nat, k: nat)
    requires ValidConfig(c) && Ordered(c) && j < |c.ids| && k < |c.ids| && j != c.bsp && k != c.bsp
    requires Booting(Run(c, schedule).pc[j]) && Booting(Run(c, schedule).pc[k])
    ensures j == k
  {
    Safety(c, schedule);
    var s := Run(c, schedule);
    assert Follows(s.pc[c.bsp], j, s.pc[j]) && Follows(s.pc[c.bsp], k, s.pc[k]);
  }

  /** `startothers` has returned. */
  predicate Returned(p: Pc) {
    p.SetMode? || p.SetOps? || p.Working?
  }

  /** In every run, `startothers` returns only when every other processor is started. */
  lemma ReturnsWhenAllStarted(c: Config, schedule: seq<nat>, k: nat)
    requires ValidConfig(c) && Ordered(c) && k < |c.ids| && k != c.bsp
    requires Returned(Run(c, schedule).pc[c.bsp])
    ensures Run(c, schedule).started[k]
  {
    Safety(c, schedule);
    var s := Run(c, schedule);
    assert ApOk(c, s, k) && Follows(s.pc[c.bsp], k, s.pc[k]);
  }

  /** In every run, the stacks taken by different APs do not overlap. */
  lemma StacksApart(c: Config, schedule: seq<nat>, j: nat, k: nat)
    requires ValidConfig(c) && Ordered(c) && j < k < |c.ids|
    ensures var s := Run(c, schedule);
            s.stack[j].Some? && s.stack[k].Some? ==> s.stack[k].value <= s.stack[j].value - 4096
  {
    Safety(c, schedule);
    var s := Run(c, schedule);
    if j != c.bsp { assert ApOk(c, s, j); }
    if k != c.bsp { assert ApOk(c, s, k); }
  }

  /** In every run, each stack lies below the initial top and above the page at address 0 that
      holds the trampoline; every AP that has stored its flag has one, the BSP never. */
  lemma StackBounds(c: Config, schedule: seq<nat>, k: nat)
    requires ValidConfig(c) && Ordered(c) && k < |c.ids|
    ensures var s := Run(c, schedule);
            && (s.stack[k].Some? ==>
                  && s.stack[k].value <= 0xa0000
                  && s.stack[k].value - 4096 >= 0xa0000 - 4096 * (|c.ids| - 1) >= 0x61000)
            && (if k == c.bsp then s.stack[k].None? else s.started[k] ==> s.stack[k].Some?)
  {
    Safety(c, schedule);
    if k != c.bsp { assert ApOk(c, Run(c, schedule), k); }
  }

  // ----- the boot comes to an end

  /** The boot is over: the BSP runs the benchmarks and every AP rests or handles an interrupt. */
  ghost predicate Finished(c: Config, s: State)
    requires ValidConfig(c) && Shape(c, s)
  {
    && s.pc[c.bsp].Working?
    && forall k :: 0 <= k < |c.ids| && k != c.bsp ==> s.pc[k].Resting? || s.pc[k].InHandler?
  }

  /** A step of the boot that is neither a spin nor the handling of a later interrupt. */
  predicate IsProgress(c: Config, s: State, k: nat)
    requires ValidConfig(c) && Shape(c, s)
  {
    k < |c.ids| && !s.pc[k].Resting? && !s.pc[k].InHandler? && Step(c, s, k) != s
  }

  ghost predicate CanProgress(c: Config, s: State)
    requires ValidConfig(c) && Shape(c, s)
  {
    exists k :: IsProgress(c, s, k)
  }

  lemma BspProgress(c: Config, s: State)
    requires ValidConfig(c) && Inv(c, s) && !s.pc[c.bsp].Working?
    requires s.pc[c.bsp].WaitStarted? ==> s.started[s.pc[c.bsp].i]
    ensures IsProgress(c, s, c.bsp)
  {
    hide Lookup;
    assert Step(c, s, c.bsp).pc[c.bsp] != s.pc[c.bsp];
  }

  lemma ApProgress(c: Config, s: State, a: nat)
    requires ValidConfig(c) && Inv(c, s) && a < |c.ids| && a != c.bsp
    requires Booting(s.pc[a]) || s.pc[a].SetMode? || s.pc[a].SetOps?
    requires Ordered(c)
    ensures IsProgress(c, s, a)
  {
    hide Lookup;
    assert ApOk(c, s, a);
    assert Step(c, s, a).pc[a] != s.pc[a];
  }

  lemma InvMoves(c: Config, s: State)
    requires ValidConfig(c) && Inv(c, s) && Ordered(c)
    ensures CanProgress(c, s) || Finished(c, s)
  {
    hide Step, IsProgress;
    var p := s.pc[c.bsp];
    if p.WaitStarted? && !s.started[p.i] {
      assert ApOk(c, s, p.i) && Follows(p, p.i, s.pc[p.i]);
      ApProgress(c, s, p.i);
    } else if !p.Working? {
      BspProgress(c, s);
    } else if k :| 0 <= k < |c.ids| && k != c.bsp && !s.pc[k].Resting? && !s.pc[k].InHandler? {
      assert Follows(p, k, s.pc[k]);
      ApProgress(c, s, k);
    }
  }

  /** In every reachable state somebody can move on until the boot is over. */
  lemma BootNeverDeadlocks(c: Config, schedule: seq<nat>)
    requires ValidConfig(c) && Ordered(c)
    ensures CanProgress(c, Run(c, schedule)) || Finished(c, Run(c, schedule))
  {
    Safety(c, schedule);
    InvMoves(c, Run(c, schedule));
  }

  /** How many steps a CPU of an n-CPU machine still has before it, at most. */
  function PcWork(n: nat, p: Pc): nat {
    match p
    case EnableApic => 5 * n + 5
    case Scan(i) => if i <= n then 5 * (n - i) + 4 else 0
    case SendInit(i) => if i <= n then 5 * (n - i) + 3 else 0
    case SendStartup(i, r) => if i <= n then 5 * (n - i) + (if r == 0 then 2 else 1) else 0
    case WaitStarted(i) => if i <= n then 5 * (n - i) else 0
    case Down => 11
    case WaitSipi => 10
    case ClaimStack => 9
    case PrintId(r) => if r == 0 then 8 else 7
    case EnableOwnApic => 6
    case FindSelf => 5
    case MarkStarted(_) => 4
    case SetMode => 3
    case SetOps => 2
    case Working => 0
    case Resting => 0
    case InHandler => 0
  }

  function Work(n: nat, pcs: seq<Pc>): nat {
    if pcs == [] then 0 else PcWork(n, pcs[0]) + Work(n, pcs[1..])
  }

  lemma {:induction false} WorkUpdate(n: nat, pcs: seq<Pc>, i: nat, p: Pc)
    requires i < |pcs|
    ensures Work(n, pcs[i := p]) == Work(n, pcs) - PcWork(n, pcs[i]) + PcWork(n, p)
  {
    hide PcWork;
    if i == 0 {
      assert pcs[0 := p][1..] == pcs[1..];
    } else {
      assert pcs[i := p][1..] == pcs[1..][i - 1 := p];
      WorkUpdate(n, pcs[1..], i - 1, p);
    }
  }

  lemma SendWorks(c: Config, s: State)
    requires ValidConfig(c) && Inv(c, s) && (s.pc[c.bsp].SendInit? || s.pc[c.bsp].SendStartup?)
    ensures Work(|c.ids|, Step(c, s, c.bsp).pc) < Work(|c.ids|, s.pc)
  {
    hide Work;
    var i, n, s2 := s.pc[c.bsp].i, |c.ids|, Step(c, s, c.bsp);
    assert ApOk(c, s, i) && Follows(s.pc[c.bsp], i, s.pc[i]);
    var pcs := s.pc[i := s2.pc[i]];
    assert s2.pc == pcs[c.bsp := s2.pc[c.bsp]];
    WorkUpdate(n, s.pc, i, s2.pc[i]);
    WorkUpdate(n, pcs, c.bsp, s2.pc[c.bsp]);
  }

  lemma OnlyBspSends(c: Config, s: State, k: nat)
    requires ValidConfig(c) && Inv(c, s) && k < |c.ids|
    ensures s.pc[k].SendInit? || s.pc[k].SendStartup? ==> k == c.bsp
  {
    if k != c.bsp { assert ApOk(c, s, k); }
  }

  /** Every other step moves one CPU at most. */
  lemma OneCpuMoves(c: Config, s: State, k: nat)
    requires ValidConfig(c) && Shape(c, s) && k < |c.ids| && !s.pc[k].SendInit? && !s.pc[k].SendStartup?
    ensures Step(c, s, k).pc == s.pc[k := Step(c, s, k).pc[k]]
  {
    hide Lookup, ValidConfig;
  }

  lemma BspWorks(c: Config, s: State)
    requires ValidConfig(c) && Inv(c, s) && !s.pc[c.bsp].SendInit? && !s.pc[c.bsp].SendStartup?
    ensures var w := PcWork(|c.ids|, Step(c, s, c.bsp).pc[c.bsp]);
            w + (if IsProgress(c, s, c.bsp) then 1 else 0) <= PcWork(|c.ids|, s.pc[c.bsp])
  {
    hide Lookup, ApOk, Follows, StackOf;
  }

  lemma ApWorks(c: Config, s: State, a: nat)
    requires ValidConfig(c) && Inv(c, s) && Ordered(c) && a < |c.ids| && a != c.bsp
    ensures var w := PcWork(|c.ids|, Step(c, s, a).pc[a]);
            w + (if IsProgress(c, s, a) then 1 else 0) <= PcWork(|c.ids|, s.pc[a])
  {
    hide Lookup, BspOk, Follows, StackOf;
    assert ApOk(c, s, a);
  }

  lemma StepWorks(c: Config, s: State, k: nat)
    requires ValidConfig(c) && Inv(c, s) && Ordered(c)
    ensures Work(|c.ids|, Step(c, s, k).pc) + (if IsProgress(c, s, k) then 1 else 0) <= Work(|c.ids|, s.pc)
  {
    if k < |c.ids| {
      OnlyBspSends(c, s, k);
      hide Step, PcWork, Work, IsProgress, Inv;
      if s.pc[k].SendInit? || s.pc[k].SendStartup? {
        SendWorks(c, s);
      } else {
        OneCpuMoves(c, s, k);
        if k == c.bsp {
          BspWorks(c, s);
        } else {
          ApWorks(c, s, k);
        }
        WorkUpdate(|c.ids|, s.pc, k, Step(c, s, k).pc[k]);
      }
    }
  }

  /** How many steps of the schedule were progress. */
  function ProgressSteps(c: Config, schedule: seq<nat>): nat
    requires ValidConfig(c)
    decreases |schedule|
  {
    if schedule == [] then 0
    else
      var before, k := schedule[..|schedule| - 1], schedule[|schedule| - 1];
      ProgressSteps(c, before) + if IsProgress(c, Run(c, before), k) then 1 else 0
  }

  /** In every schedule the steps that are progress are bounded, and as long as the boot is not
      over another one is possible: so a schedule that goes on choosing progress where there is
      some ends with the BSP at the benchmarks and every AP at rest. */
  lemma {:induction false} BootCompletes(c: Config, schedule: seq<nat>)
    requires ValidConfig(c) && Ordered(c)
    ensures ProgressSteps(c, schedule) + Work(|c.ids|, Run(c, schedule).pc) <= Work(|c.ids|, Init(c).pc)
    ensures !CanProgress(c, Run(c, schedule)) ==> Finished(c, Run(c, schedule))
    decreases |schedule|
  {
    BootNeverDeadlocks(c, schedule);
    hide Step, IsProgress, Work, Inv;
    if schedule != [] {
      var before, k := schedule[..|schedule| - 1], schedule[|schedule| - 1];
      BootCompletes(c, before);
      Safety(c, before);
      StepWorks(c, Run(c, before), k);
    }
  }

  // ----- why the flag is stored before the switch to x2APIC

  /** Without x2APIC nobody ever leaves xAPIC mode, in either order. */
  lemma {:induction false} WithoutX2Apic(c: Config, schedule: seq<nat>)
    requires ValidConfig(c) && !c.x2
    ensures AllXApic(c, Run(c, schedule))
    decreases |schedule|
  {
    hide Step, AllXApic;
    if schedule == [] {
      AllXApicFirst(c);
    } else {
      WithoutX2Apic(c, schedule[..|schedule| - 1]);
      AllXApicStep(c, Run(c, schedule[..|schedule| - 1]), schedule[|schedule| - 1]);
    }
  }

  ghost predicate AllXApic(c: Config, s: State)
    requires Shape(c, s)
  {
    !s.faulted && s.ops == XApic && forall k :: 0 <= k < |c.ids| ==> s.mode[k] == XApic && !s.pc[k].SetOps?
  }

  lemma AllXApicFirst(c: Config)
    requires ValidConfig(c)
    ensures AllXApic(c, Init(c))
  {}

  lemma AllXApicStep(c: Config, s: State, k: nat)
    requires ValidConfig(c) && !c.x2 && Shape(c, s) && AllXApic(c, s)
    ensures AllXApic(c, Step(c, s, k))
  {
    hide Lookup, ValidConfig;
  }

  /** The first AP in the table. */
  function FirstAp(c: Config): nat { if c.bsp == 0 then 1 else 0 }

  lemma RunStep(c: Config, schedule: seq<nat>, k: nat)
    requires ValidConfig(c)
    ensures Run(c, schedule + [k]) == Step(c, Run(c, schedule), k)
  {
    assert (schedule + [k])[..|schedule|] == schedule;
  }

  lemma BspStartsFirst(c: Config) returns (es: seq<nat>)
    requires ValidConfig(c) && |c.ids| > 1
    ensures Run(c, es).pc[FirstAp(c)] == ClaimStack
  {
    var a, b := FirstAp(c), c.bsp;
    LookupSelf(c, b);
    es := [];
    RunStep(c, es, b); es := es + [b];
    RunStep(c, es, b); es := es + [b];
    if b == 0 { RunStep(c, es, b); es := es + [b]; }
    assert Run(c, es).pc[b] == SendInit(a);
    RunStep(c, es, b); es := es + [b];
    RunStep(c, es, b); es := es + [b];
  }

  lemma ApBootsAhead(c: Config, es0: seq<nat>) returns (es: seq<nat>)
    requires ValidConfig(c) && |c.ids| > 1 && !c.startedFirst && Run(c, es0).pc[FirstAp(c)] == ClaimStack
    ensures var a := FirstAp(c); es == es0 + [a, a, a, a] && Run(c, es).pc[a] == SetMode
  {
    hide Run, Lookup;
    var a := FirstAp(c);
    es := es0;
    RunStep(c, es, a); es := es + [a];
    assert Run(c, es).pc[a] == PrintId(0);
    RunStep(c, es, a); es := es + [a];
    RunStep(c, es, a); es := es + [a];
    assert Run(c, es).pc[a] == EnableOwnApic;
    RunStep(c, es, a); es := es + [a];
  }

  lemma ApSwitchesAhead(c: Config, es0: seq<nat>) returns (es: seq<nat>)
    requires ValidConfig(c) && |c.ids| > 1 && c.x2 && !c.startedFirst && Run(c, es0).pc[FirstAp(c)] == SetMode
    ensures var a := FirstAp(c); es == es0 + [a, a, a] && Run(c, es).faulted
  {
    hide Run, Lookup;
    var a := FirstAp(c);
    es := es0;
    RunStep(c, es, a); es := es + [a];
    RunStep(c, es, a); es := es + [a];
    assert Run(c, es).pc[a] == FindSelf && Run(c, es).mode[a] == X2Apic;
    RunStep(c, es, a); es := es + [a];
  }

  /** The boot is free of wrong-mode accesses in every schedule exactly when the flag is stored
      before the switch to x2APIC, or there is no x2APIC, or there is no AP: `mycpu` reads the
      APIC id through memory. */
  lemma OrderMatters(c: Config)
    requires ValidConfig(c)
    ensures (forall schedule :: !Run(c, schedule).faulted) <==> (c.startedFirst || !c.x2 || |c.ids| == 1)
  {
    if c.startedFirst || |c.ids| == 1 {
      forall schedule ensures !Run(c, schedule).faulted { NoWrongModeAccess(c, schedule); }
    } else if !c.x2 {
      forall schedule ensures !Run(c, schedule).faulted { WithoutX2Apic(c, schedule); }
    } else {
      var es := BspStartsFirst(c);
      es := ApBootsAhead(c, es);
      es := ApSwitchesAhead(c, es);
      assert Run(c, es).faulted;
    }
  }
}
