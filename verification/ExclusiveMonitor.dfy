/** The LDREX/STREX retry loops as a step system: any number of agents (threads and interrupt
    handlers) on one core, one cell, and the core's local exclusive monitor. Every change of the
    running agent clears the monitor, as exception entry and return do in the Armv8-M architecture. */
module ExclusiveMonitor {
  import opened Bits
  import opened AtomicSpec

  /** Where an agent is inside the loop `do { r = LDREX; ops; } while (STREX fails)`. */
  datatype Pc =
    | Idle
    | AtLoad(op: Op)
    | Loaded(op: Op, seen: nat)
    | Ready(op: Op, seen: nat, reg: nat)
    | AtClrex(op: Op)
    | Returning(op: Op, response: nat)

  datatype State = State(mem: nat, monitor: bool, running: nat, pc: seq<Pc>)

  /** One instruction of the running agent, or a switch to another agent. */
  datatype Action =
    | Begin(op: Op)
    | LoadEx
    | Compute
    | StoreEx
    | ClrEx
    | Ret
    | Plain(v: nat)
    | Switch(to: nat)

  predicate Enabled(s: State, act: Action) {
    && s.running < |s.pc|
    && var p := s.pc[s.running];
       match act
       case Begin(_) => p.Idle?
       case LoadEx => p.AtLoad?
       case Compute => p.Loaded?
       case StoreEx => p.Ready?
       case ClrEx => p.AtClrex?
       case Ret => p.Returning?
       case Plain(_) => p.Idle?
       case Switch(b) => b < |s.pc| && b != s.running
  }

  function Next(s: State, act: Action, w: nat): State
    requires Enabled(s, act)
  {
    var a := s.running;
    var p := s.pc[a];
    match act
    case Begin(op) => s.(pc := s.pc[a := AtLoad(op)])
    case LoadEx => s.(monitor := true, pc := s.pc[a := Loaded(p.op, s.mem)])
    case Compute =>
      s.(pc := s.pc[a := if Stores(p.op, p.seen, w) then Ready(p.op, p.seen, Updated(p.op, p.seen, w))
                         else AtClrex(p.op)])
    case StoreEx =>
      if s.monitor
      then s.(mem := p.reg, monitor := false, pc := s.pc[a := Returning(p.op, Answer(p.op, p.seen))])
      else s.(pc := s.pc[a := AtLoad(p.op)])
    case ClrEx => s.(monitor := false, pc := s.pc[a := Returning(p.op, 0)])
    case Ret => s.(pc := s.pc[a := Idle])
    case Plain(v) => s.(mem := Narrow(v, w))
    case Switch(b) => s.(running := b, monitor := false)
  }

  /** What the step adds to the history. A successful store-exclusive is the effect of its
      operation; a compare-and-set that will fail takes effect at the load that saw the
      other value. */
  function Emit(s: State, act: Action, w: nat): seq<Event>
    requires Enabled(s, act)
  {
    var a := s.running;
    var p := s.pc[a];
    match act
    case Begin(op) => [Invoke(a, op)]
    case LoadEx => if Stores(p.op, s.mem, w) then [] else [Effect(a, p.op, 0)]
    case StoreEx => if s.monitor then [Effect(a, p.op, Answer(p.op, p.seen))] else []
    case Ret => [Return(a, p.op, p.response)]
    case Plain(v) => [Write(a, v)]
    case _ => []
  }

  predicate AllIdle(pc: seq<Pc>) {
    forall a | 0 <= a < |pc| :: pc[a] == Idle
  }

  predicate Initial(s: State, w: nat) {
    && s.mem < Pow2(w) && !s.monitor && s.running < |s.pc|
    && AllIdle(s.pc)
  }

  /** Can `acts` be taken one after another from `s`? */
  predicate Possible(s: State, acts: seq<Action>, w: nat)
    decreases |acts|, 0
  {
    acts != [] ==>
      var prior := acts[..|acts| - 1];
      Possible(s, prior, w) && Enabled(Reached(s, prior, w), acts[|acts| - 1])
  }

  function Reached(s: State, acts: seq<Action>, w: nat): State
    requires Possible(s, acts, w)
    decreases |acts|, 1
  {
    if acts == [] then s
    else Next(Reached(s, acts[..|acts| - 1], w), acts[|acts| - 1], w)
  }

  function History(s: State, acts: seq<Action>, w: nat): seq<Event>
    requires Possible(s, acts, w)
  {
    if acts == [] then []
    else
      var prior := acts[..|acts| - 1];
      History(s, prior, w) + Emit(Reached(s, prior, w), acts[|acts| - 1], w)
  }

  // ---- the invariant

  /** The phase an agent's program counter stands for. */
  function Standing(p: Pc, w: nat): Phase {
    match p
    case Idle => Quiet
    case AtLoad(op) => Invoked(op)
    case Loaded(op, seen) => if Stores(op, seen, w) then Invoked(op) else Effected(op, 0)
    case Ready(op, _, _) => Invoked(op)
    case AtClrex(op) => Effected(op, 0)
    case Returning(op, r) => Effected(op, r)
  }

  /** The monitor guards the running agent's load: while it is set, the value loaded is the cell's. */
  predicate MonitorMeansFresh(s: State) {
    && s.running < |s.pc|
    && (s.monitor ==>
          match s.pc[s.running]
          case Loaded(_, seen) => seen == s.mem
          case Ready(_, seen, _) => seen == s.mem
          case AtClrex(_) => true
          case _ => false)
  }

  predicate RegistersSound(s: State, w: nat) {
    forall a | 0 <= a < |s.pc| && s.pc[a].Ready? ::
      Stores(s.pc[a].op, s.pc[a].seen, w) && s.pc[a].reg == Updated(s.pc[a].op, s.pc[a].seen, w)
  }

  ghost predicate Invariant(x: nat, s: State, events: seq<Event>, w: nat) {
    && MonitorMeansFresh(s)
    && RegistersSound(s, w)
    && s.mem < Pow2(w)
    && Legal(x, events, w)
    && Replay(x, events, w) == s.mem
    && forall a: nat :: PhaseOf(events, a) == if a < |s.pc| then Standing(s.pc[a], w) else Quiet
  }

  /** The monitor, the registers and the width of the cell. */
  lemma {:induction false} StepKeepsRegisters(s: State, act: Action, w: nat)
    requires MonitorMeansFresh(s) && RegistersSound(s, w) && s.mem < Pow2(w) && Enabled(s, act)
    ensures var t := Next(s, act, w);
      MonitorMeansFresh(t) && RegistersSound(t, w) && t.mem < Pow2(w)
  {
  }

  /** The effects logged and the cell. */
  lemma {:induction false} StepKeepsLegal(x: nat, s: State, events: seq<Event>, act: Action, w: nat)
    requires Invariant(x, s, events, w) && Enabled(s, act)
    ensures Legal(x, events + Emit(s, act, w), w)
    ensures Replay(x, events + Emit(s, act, w), w) == Next(s, act, w).mem
  {
    AppendEmitted(s, events, act, w);
  }

  /** The phases. */
  lemma {:induction false} StepKeepsPhases(x: nat, s: State, events: seq<Event>, act: Action, w: nat)
    requires Invariant(x, s, events, w) && Enabled(s, act)
    ensures var out, t := events + Emit(s, act, w), Next(s, act, w);
      forall a: nat :: PhaseOf(out, a) == if a < |t.pc| then Standing(t.pc[a], w) else Quiet
  {
    AppendEmitted(s, events, act, w);
  }

  /** A step emits at most one event. */
  lemma {:induction false} AppendEmitted(s: State, events: seq<Event>, act: Action, w: nat)
    requires Enabled(s, act)
    ensures var out := Emit(s, act, w);
      if out == [] then events + out == events
      else out == [out[0]] && (events + out)[..|events|] == events && |events + out| == |events| + 1
  {
  }

  lemma {:induction false} StepKeepsInvariant(x: nat, s: State, events: seq<Event>, act: Action, w: nat)
    requires Invariant(x, s, events, w) && Enabled(s, act)
    ensures Invariant(x, Next(s, act, w), events + Emit(s, act, w), w)
  {
    StepKeepsRegisters(s, act, w);
    StepKeepsLegal(x, s, events, act, w);
    StepKeepsPhases(x, s, events, act, w);
  }

  lemma {:induction false} RunKeepsInvariant(s: State, acts: seq<Action>, w: nat)
    requires Initial(s, w) && Possible(s, acts, w)
    ensures Invariant(s.mem, Reached(s, acts, w), History(s, acts, w), w)
    decreases |acts|
  {
    if acts != [] {
      var prior := acts[..|acts| - 1];
      RunKeepsInvariant(s, prior, w);
      StepKeepsInvariant(s.mem, Reached(s, prior, w), History(s, prior, w), acts[|acts| - 1], w);
    }
  }

  /** Every run, under any interleaving and preemption, is linearizable: no update is lost,
      none is applied twice, and every answer is the sequential one. */
  lemma {:induction false} EveryRunIsLinearizable(s: State, acts: seq<Action>, w: nat)
    requires Initial(s, w) && Possible(s, acts, w)
    ensures Linearizable(s.mem, History(s, acts, w), Reached(s, acts, w).mem, w)
    ensures MonitorMeansFresh(Reached(s, acts, w))
  {
    RunKeepsInvariant(s, acts, w);
  }

  /** In every run each operation, when it takes effect, does its work on the cell as it is at that moment
      and answers accordingly, and the cell is what these effects and the plain stores made of it. */
  lemma {:induction false} OperationsDo(s: State, acts: seq<Action>, w: nat, k: nat)
    requires Initial(s, w) && Possible(s, acts, w) && k < |History(s, acts, w)|
    ensures var events := History(s, acts, w);
      var y, y' := Replay(s.mem, events[..k], w), Replay(s.mem, events[..k + 1], w);
      && Reached(s, acts, w).mem == Replay(s.mem, events, w)
      && match events[k]
         case Effect(_, op, r) => Does(op, y, y', r, w)
         case Write(_, v) => y' == v % Pow2(w)
         case _ => y' == y
  {
    EveryRunIsLinearizable(s, acts, w);
    EffectsDo(s.mem, History(s, acts, w), k, w);
  }

  /** Every bit of a cell used only through set, clear, toggle and clear-and-set, after any run. */
  lemma {:induction false} BitsAreDecided(s: State, acts: seq<Action>, w: nat, i: nat)
    requires Initial(s, w) && Possible(s, acts, w) && OnlyBits(History(s, acts, w)) && i < w
    ensures Decided(History(s, acts, w), i, Bit(s.mem, i), Bit(Reached(s, acts, w).mem, i))
  {
    EveryRunIsLinearizable(s, acts, w);
    BitsOfHistory(s.mem, History(s, acts, w), w, i);
  }

  // ---- conservation: each call is applied exactly once

  /** Weight of the calls still waiting for their effect. */
  function Pending(pc: seq<Pc>, g: Op -> int, w: nat): int {
    if pc == [] then 0
    else Pending(pc[..|pc| - 1], g, w) + Owed(pc[|pc| - 1], g, w)
  }

  function Owed(p: Pc, g: Op -> int, w: nat): int {
    if Standing(p, w).Invoked? then g(p.op) else 0
  }

  lemma {:induction false} PendingUpdate(pc: seq<Pc>, a: nat, p: Pc, g: Op -> int, w: nat)
    requires a < |pc|
    ensures Pending(pc[a := p], g, w) == Pending(pc, g, w) - Owed(pc[a], g, w) + Owed(p, g, w)
    decreases |pc|
  {
    var n := |pc| - 1;
    if a < n {
      PendingUpdate(pc[..n], a, p, g, w);
      assert pc[a := p][..n] == pc[..n][a := p];
    } else {
      assert pc[a := p][..n] == pc[..n];
    }
  }

  lemma {:induction false} NothingPending(pc: seq<Pc>, g: Op -> int, w: nat)
    requires AllIdle(pc)
    ensures Pending(pc, g, w) == 0
    decreases |pc|
  {
    if pc != [] {
      NothingPending(pc[..|pc| - 1], g, w);
    }
  }

  lemma {:induction false} StepConserves(s: State, events: seq<Event>, act: Action, g: Op -> int, w: nat)
    requires Enabled(s, act)
    ensures var t, out := Next(s, act, w), events + Emit(s, act, w);
      Called(out, g) - Applied(out, g) - Pending(t.pc, g, w)
      == Called(events, g) - Applied(events, g) - Pending(s.pc, g, w)
  {
    var out := Emit(s, act, w);
    if out == [] {
      assert events + out == events;
    } else {
      assert out == [out[0]];
      Snoc(events, out[0]);
    }
    if !act.Plain? && !act.Switch? {
      PendingUpdate(s.pc, s.running, Next(s, act, w).pc[s.running], g, w);
      assert Next(s, act, w).pc == s.pc[s.running := Next(s, act, w).pc[s.running]];
    }
  }

  /** For every weighting of operations, what was called is what was applied plus what is pending. */
  lemma {:induction false} CallsAreAppliedOnce(s: State, acts: seq<Action>, g: Op -> int, w: nat)
    requires Initial(s, w) && Possible(s, acts, w)
    ensures Called(History(s, acts, w), g)
         == Applied(History(s, acts, w), g) + Pending(Reached(s, acts, w).pc, g, w)
    decreases |acts|
  {
    if acts == [] {
      NothingPending(s.pc, g, w);
    } else {
      var prior := acts[..|acts| - 1];
      CallsAreAppliedOnce(s, prior, g, w);
      StepConserves(Reached(s, prior, w), History(s, prior, w), acts[|acts| - 1], g, w);
    }
  }

  /** No lost update: once all agents are idle, a cell used only through atomic additions and
      subtractions holds its first value plus every amount anyone asked for, modulo its range. */
  lemma {:induction false} SumsAreConserved(s: State, acts: seq<Action>, w: nat)
    requires Initial(s, w) && Possible(s, acts, w)
    requires OnlySums(History(s, acts, w))
    requires AllIdle(Reached(s, acts, w).pc)
    ensures Reached(s, acts, w).mem == (s.mem + Called(History(s, acts, w), Delta)) % Pow2(w)
  {
    EveryRunIsLinearizable(s, acts, w);
    IdleCallsApplied(s, acts, Delta, w);
    SumsOf(s.mem, Reached(s, acts, w).mem, History(s, acts, w), w);
  }

  lemma {:induction false} IdleCallsApplied(s: State, acts: seq<Action>, g: Op -> int, w: nat)
    requires Initial(s, w) && Possible(s, acts, w) && AllIdle(Reached(s, acts, w).pc)
    ensures Called(History(s, acts, w), g) == Applied(History(s, acts, w), g)
  {
    CallsAreAppliedOnce(s, acts, g, w);
    NothingPending(Reached(s, acts, w).pc, g, w);
  }

  // ---- no ABA: what happened since the load behind a successful store

  /** A store-exclusive succeeds exactly when it directly follows its agent's own load and
      computation, so no agent, not even by a write that restored the old value, touched the
      cell in between. */
  lemma {:induction false} StoreSucceedsOnlyUndisturbed(s: State, acts: seq<Action>, w: nat)
    requires Initial(s, w) && Possible(s, acts, w)
    requires Enabled(Reached(s, acts, w), StoreEx)
    ensures Reached(s, acts, w).monitor
        <==> |acts| >= 2 && acts[|acts| - 2..] == [LoadEx, Compute]
  {
  }

  // ---- retries are paid for by preemptions

  /** Store-exclusives of agent `a` that failed. */
  function Failures(s: State, acts: seq<Action>, a: nat, w: nat): nat
    requires Possible(s, acts, w)
  {
    if acts == [] then 0
    else
      var prior := acts[..|acts| - 1];
      var t := Reached(s, prior, w);
      Failures(s, prior, a, w) + if acts[|acts| - 1] == StoreEx && t.running == a && !t.monitor then 1 else 0
  }

  /** Times agent `a` lost the core. */
  function Preemptions(s: State, acts: seq<Action>, a: nat, w: nat): nat
    requires Possible(s, acts, w)
  {
    if acts == [] then 0
    else
      var prior := acts[..|acts| - 1];
      Preemptions(s, prior, a, w)
      + if acts[|acts| - 1].Switch? && Reached(s, prior, w).running == a then 1 else 0
  }

  /** Instructions agent `a` executed. */
  function Steps(s: State, acts: seq<Action>, a: nat, w: nat): nat
    requires Possible(s, acts, w)
  {
    if acts == [] then 0
    else
      var prior := acts[..|acts| - 1];
      Steps(s, prior, a, w)
      + if !acts[|acts| - 1].Switch? && Reached(s, prior, w).running == a then 1 else 0
  }

  /** Operations agent `a` returned from. */
  function Returns(s: State, acts: seq<Action>, a: nat, w: nat): nat
    requires Possible(s, acts, w)
  {
    if acts == [] then 0
    else
      var prior := acts[..|acts| - 1];
      Returns(s, prior, a, w) + if acts[|acts| - 1] == Ret && Reached(s, prior, w).running == a then 1 else 0
  }

  /** Has `a` loaded a value whose monitor is already lost, so that its next store must fail? */
  predicate Doomed(s: State, a: nat)
    requires a < |s.pc|
  {
    (s.pc[a].Loaded? || s.pc[a].Ready?) && !(s.running == a && s.monitor)
  }

  lemma {:induction false} AgentsStay(s: State, acts: seq<Action>, w: nat)
    requires Possible(s, acts, w)
    ensures |Reached(s, acts, w).pc| == |s.pc|
    decreases |acts|
  {
    if acts != [] {
      AgentsStay(s, acts[..|acts| - 1], w);
    }
  }

  /** From any state in which `a` holds no load, it fails at most once per preemption. */
  lemma {:induction false} FailuresNeedPreemptions(s: State, acts: seq<Action>, a: nat, w: nat)
    requires Possible(s, acts, w)
    requires a < |s.pc| && !s.pc[a].Loaded? && !s.pc[a].Ready?
    ensures |Reached(s, acts, w).pc| == |s.pc|
    ensures Failures(s, acts, a, w) + (if Doomed(Reached(s, acts, w), a) then 1 else 0)
         <= Preemptions(s, acts, a, w)
    decreases |acts|
  {
    AgentsStay(s, acts, w);
    if acts != [] {
      FailuresNeedPreemptions(s, acts[..|acts| - 1], a, w);
    }
  }

  /** How far into one round of the loop an agent is. */
  function Progress(p: Pc): nat {
    match p
    case Idle => 0
    case AtLoad(_) => 0
    case Loaded(_, _) => 1
    case Ready(_, _, _) => 2
    case AtClrex(_) => 2
    case Returning(_, _) => 3
  }

  /** Each failed round costs three instructions, and nothing else is spent before the return. */
  lemma {:induction false} StepsAreRounds(s: State, acts: seq<Action>, a: nat, w: nat)
    requires Possible(s, acts, w)
    requires a < |s.pc| && s.pc[a].AtLoad?
    requires Returns(s, acts, a, w) == 0
    ensures |Reached(s, acts, w).pc| == |s.pc| && !Reached(s, acts, w).pc[a].Idle?
    ensures Steps(s, acts, a, w) == 3 * Failures(s, acts, a, w) + Progress(Reached(s, acts, w).pc[a])
    decreases |acts|
  {
    if acts != [] {
      StepsAreRounds(s, acts[..|acts| - 1], a, w);
    }
  }

  /** Bounded retry: an operation that has not returned has executed at most three instructions
      per preemption it suffered, plus three. */
  lemma {:induction false} OperationIsBounded(s: State, acts: seq<Action>, a: nat, w: nat)
    requires Possible(s, acts, w)
    requires a < |s.pc| && s.pc[a].AtLoad?
    requires Returns(s, acts, a, w) == 0
    ensures Failures(s, acts, a, w) <= Preemptions(s, acts, a, w)
    ensures Steps(s, acts, a, w) <= 3 * Preemptions(s, acts, a, w) + 3
  {
    FailuresNeedPreemptions(s, acts, a, w);
    StepsAreRounds(s, acts, a, w);
  }

  // ---- the whole core makes progress

  /** Instructions agent state `p` still needs if nothing disturbs it; `held` says whether its load is
      still guarded by the monitor. A lost load costs another round. */
  function Needs(p: Pc, held: bool): nat {
    match p
    case Idle => 0
    case AtLoad(_) => 4
    case Loaded(_, _) => if held then 3 else 6
    case Ready(_, _, _) => if held then 2 else 5
    case AtClrex(_) => 2
    case Returning(_, _) => 1
  }

  /** The agent whose load the monitor guards, or -1. */
  function Guarded(s: State): int { if s.monitor then s.running else -1 }

  function Remaining(pc: seq<Pc>, guarded: int): nat {
    if pc == [] then 0
    else Remaining(pc[..|pc| - 1], guarded) + Needs(pc[|pc| - 1], |pc| - 1 == guarded)
  }

  lemma {:induction false} RemainingUpdate(pc: seq<Pc>, a: nat, p: Pc, g: int, g': int)
    requires a < |pc| && g in {-1, a as int} && g' in {-1, a as int}
    ensures Remaining(pc[a := p], g') == Remaining(pc, g) - Needs(pc[a], a == g) + Needs(p, a == g')
    decreases |pc|
  {
    var n := |pc| - 1;
    if a < n {
      RemainingUpdate(pc[..n], a, p, g, g');
      assert pc[a := p][..n] == pc[..n][a := p];
    } else {
      assert pc[a := p][..n] == pc[..n];
      RemainingBelow(pc[..n], a, g, g');
    }
  }

  lemma {:induction false} RemainingBelow(pc: seq<Pc>, a: nat, g: int, g': int)
    requires |pc| <= a && g in {-1, a as int} && g' in {-1, a as int}
    ensures Remaining(pc, g) == Remaining(pc, g')
    decreases |pc|
  {
    if pc != [] {
      RemainingBelow(pc[..|pc| - 1], a, g, g');
    }
  }

  lemma {:induction false} NothingRemains(pc: seq<Pc>, g: int)
    requires AllIdle(pc)
    ensures Remaining(pc, g) == 0
    decreases |pc|
  {
    if pc != [] {
      NothingRemains(pc[..|pc| - 1], g);
    }
  }

  /** What a step may cost: a call pays for its whole undisturbed run, a switch for one lost round. */
  function Allowance(act: Action): nat {
    match act
    case Begin(_) => 5
    case Plain(_) => 1
    case Switch(_) => 3
    case _ => 0
  }

  function Budget(acts: seq<Action>): nat {
    if acts == [] then 0 else Budget(acts[..|acts| - 1]) + Allowance(acts[|acts| - 1])
  }

  function Instructions(acts: seq<Action>): nat {
    if acts == [] then 0 else Instructions(acts[..|acts| - 1]) + if acts[|acts| - 1].Switch? then 0 else 1
  }

  lemma {:induction false} StepIsPaid(s: State, act: Action, w: nat)
    requires Enabled(s, act) && MonitorMeansFresh(s)
    ensures (if act.Switch? then 0 else 1) + Remaining(Next(s, act, w).pc, Guarded(Next(s, act, w)))
         <= Remaining(s.pc, Guarded(s)) + Allowance(act)
  {
    var t, a := Next(s, act, w), s.running;
    assert t.pc == s.pc[a := t.pc[a]];
    RemainingUpdate(s.pc, a, t.pc[a], Guarded(s), Guarded(t));
  }

  /** System-wide progress: in every run the instructions of all agents together, done and still needed,
      are at most five per call, three per switch and one per plain store. So with no further calls and
      switches every operation ends, whatever was interrupted before. */
  lemma {:induction false} RunIsBounded(s: State, acts: seq<Action>, w: nat)
    requires Initial(s, w) && Possible(s, acts, w)
    ensures Instructions(acts) + Remaining(Reached(s, acts, w).pc, Guarded(Reached(s, acts, w))) <= Budget(acts)
    decreases |acts|
  {
    if acts == [] {
      NothingRemains(s.pc, Guarded(s));
    } else {
      var prior := acts[..|acts| - 1];
      RunIsBounded(s, prior, w);
      EveryRunIsLinearizable(s, prior, w);
      StepIsPaid(Reached(s, prior, w), acts[|acts| - 1], w);
    }
  }
}
