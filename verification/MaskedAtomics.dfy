/** The atomic operations of cores without exclusive accesses: save PRIMASK, mask interrupts,
    read-modify-write, restore PRIMASK. Same agents, same cell, same specification as the
    exclusive-monitor loops; here another agent can run only while PRIMASK is 0. Agents may also
    bracket code with DisableGlobalIRQ/EnableGlobalIRQ, nested to any depth and around atomic
    operations, as long as each restore takes the mask its own disable returned. */
module MaskedAtomics {
  import opened Bits
  import opened AtomicSpec

  datatype Pc =
    | Idle
    | Entering(saved: nat)                             // a section: between the two halves of DisableGlobalIRQ
    | Saving(op: Op)                                   // before __get_PRIMASK
    | Disabling(op: Op, saved: nat)                    // before __disable_irq
    | Reading(op: Op, saved: nat)
    | Writing(op: Op, saved: nat, seen: nat)
    | Restoring(op: Op, saved: nat, response: nat)     // before __set_PRIMASK
    | Returning(op: Op, response: nat)

  datatype State = State(
    mem: nat,
    primask: nat,
    running: nat,
    pc: seq<Pc>,
    sections: seq<seq<nat>>  // per agent, the masks saved by its open sections, outermost first
  )

  datatype Action =
    | Begin(op: Op) | Save | Disable | Read | Modify | Restore | Ret
    | SectionSave | SectionDisable | SectionRestore
    | Plain(v: nat)
    | Switch(to: nat)

  predicate Enabled(s: State, act: Action) {
    && s.running < |s.pc| == |s.sections|
    && var p := s.pc[s.running];
       match act
       case Begin(_) => p.Idle?
       case Save => p.Saving?
       case Disable => p.Disabling?
       case Read => p.Reading?
       case Modify => p.Writing?
       case Restore => p.Restoring?
       case Ret => p.Returning?
       case SectionSave => p.Idle?
       case SectionDisable => p.Entering?
       case SectionRestore => p.Idle? && s.sections[s.running] != []
       case Plain(_) => p.Idle?
       case Switch(b) => b < |s.pc| && b != s.running && s.primask == 0
  }

  function Next(s: State, act: Action, w: nat): State
    requires Enabled(s, act)
  {
    var a := s.running;
    var p := s.pc[a];
    match act
    case Begin(op) => s.(pc := s.pc[a := Saving(op)])
    case Save => s.(pc := s.pc[a := Disabling(p.op, s.primask)])
    case Disable => s.(primask := 1, pc := s.pc[a := Reading(p.op, p.saved)])
    case Read =>
      s.(pc := s.pc[a := if Stores(p.op, s.mem, w) then Writing(p.op, p.saved, s.mem)
                         else Restoring(p.op, p.saved, 0)])
    case Modify =>
      s.(mem := Updated(p.op, p.seen, w), pc := s.pc[a := Restoring(p.op, p.saved, Answer(p.op, p.seen))])
    case Restore => s.(primask := p.saved, pc := s.pc[a := Returning(p.op, p.response)])
    case Ret => s.(pc := s.pc[a := Idle])
    case SectionSave => s.(pc := s.pc[a := Entering(s.primask)])
    case SectionDisable =>
      s.(primask := 1, pc := s.pc[a := Idle], sections := s.sections[a := s.sections[a] + [p.saved]])
    case SectionRestore =>
      var open := s.sections[a];
      s.(primask := open[|open| - 1], sections := s.sections[a := open[..|open| - 1]])
    case Plain(v) => s.(mem := Narrow(v, w))
    case Switch(b) => s.(running := b)
  }

  function Emit(s: State, act: Action, w: nat): seq<Event>
    requires Enabled(s, act)
  {
    var a := s.running;
    var p := s.pc[a];
    match act
    case Begin(op) => [Invoke(a, op)]
    case Read => if Stores(p.op, s.mem, w) then [] else [Effect(a, p.op, 0)]
    case Modify => [Effect(a, p.op, Answer(p.op, p.seen))]
    case Ret => [Return(a, p.op, p.response)]
    case Plain(v) => [Write(a, v)]
    case _ => []
  }

  /** Interrupts may be enabled or already masked by the caller of everything below. */
  predicate Initial(s: State, w: nat) {
    && s.mem < Pow2(w) && s.primask <= 1 && s.running < |s.pc| == |s.sections|
    && forall a | 0 <= a < |s.pc| :: s.pc[a] == Idle && s.sections[a] == []
  }

  predicate Possible(s: State, acts: seq<Action>, w: nat)
    decreases |acts|, 0
  {
    acts != [] ==>
      var prior := acts[..|acts| - 1];
      Possible(s, prior, w) && Enabled(Reached(s, prior, w), acts[|acts| - 1])
  }

  function Reached(s: State, acts: seq<Action>, w: nat): State
    requires Possible(s, acts, w)
    decreases |acts|, 1
  {
    if acts == [] then s
    else Next(Reached(s, acts[..|acts| - 1], w), acts[|acts| - 1], w)
  }

  function History(s: State, acts: seq<Action>, w: nat): seq<Event>
    requires Possible(s, acts, w)
  {
    if acts == [] then []
    else
      var prior := acts[..|acts| - 1];
      History(s, prior, w) + Emit(Reached(s, prior, w), acts[|acts| - 1], w)
  }

  function Standing(p: Pc): Phase {
    match p
    case Idle => Quiet
    case Entering(_) => Quiet
    case Saving(op) => Invoked(op)
    case Disabling(op, _) => Invoked(op)
    case Reading(op, _) => Invoked(op)
    case Writing(op, _, _) => Invoked(op)
    case Restoring(op, _, r) => Effected(op, r)
    case Returning(op, r) => Effected(op, r)
  }

  /** Between masking and restoring. */
  predicate Critical(p: Pc) { p.Reading? || p.Writing? || p.Restoring? }

  /** The mask agent `a` runs under when not inside an atomic operation. */
  function Under(m: nat, s: State, a: nat): nat
    requires a < |s.sections|
  {
    if s.sections[a] == [] then m else 1
  }

  /** `m` is the mask in force before anything ran. Only the running agent can be inside a section or
      a critical region; inside, interrupts are masked; outside, the mask is `m`. Every saved mask is
      the one to go back to: `m` for an outermost section, 1 for an inner one. */
  predicate MaskDiscipline(m: nat, s: State) {
    && s.running < |s.pc| == |s.sections|
    && s.primask == (if Critical(s.pc[s.running]) then 1 else Under(m, s, s.running))
    && forall a | 0 <= a < |s.pc| ::
         && (Critical(s.pc[a]) || s.sections[a] != [] ==> a == s.running)
         && (Critical(s.pc[a]) || s.pc[a].Disabling? || s.pc[a].Entering? ==> s.pc[a].saved == Under(m, s, a))
         && (forall d | 0 <= d < |s.sections[a]| :: s.sections[a][d] == if d == 0 then m else 1)
  }

  /** The history is legal, accounts for the cell, and agrees with every program counter. */
  ghost predicate Recorded(x: nat, s: State, events: seq<Event>, w: nat) {
    && s.running < |s.pc|
    && (s.pc[s.running].Writing? ==> s.pc[s.running].seen == s.mem && Stores(s.pc[s.running].op, s.mem, w))
    && s.mem < Pow2(w)
    && Legal(x, events, w)
    && Replay(x, events, w) == s.mem
    && forall a: nat :: PhaseOf(events, a) == if a < |s.pc| then Standing(s.pc[a]) else Quiet
  }

  ghost predicate Invariant(x: nat, m: nat, s: State, events: seq<Event>, w: nat) {
    MaskDiscipline(m, s) && Recorded(x, s, events, w)
  }

  lemma {:induction false} StepKeepsMask(m: nat, s: State, act: Action, w: nat)
    requires MaskDiscipline(m, s) && Enabled(s, act)
    ensures MaskDiscipline(m, Next(s, act, w))
  {
  }

  /** Steps that record nothing: a switch finds no other agent between its read and its write. */
  lemma {:induction false} SilentStep(x: nat, s: State, events: seq<Event>, act: Action, w: nat)
    requires Recorded(x, s, events, w) && Enabled(s, act) && Emit(s, act, w) == []
    requires act.Switch? ==> !s.pc[act.to].Writing?
    ensures Recorded(x, Next(s, act, w), events, w)
  {
  }

  lemma {:induction false} RecordedStep(x: nat, s: State, events: seq<Event>, act: Action, e: Event, w: nat)
    requires Recorded(x, s, events, w) && Enabled(s, act) && Emit(s, act, w) == [e]
    ensures Recorded(x, Next(s, act, w), events + [e], w)
  {
  }

  lemma {:induction false} StepKeepsInvariant(x: nat, m: nat, s: State, events: seq<Event>, act: Action, w: nat)
    requires Invariant(x, m, s, events, w) && Enabled(s, act)
    ensures Invariant(x, m, Next(s, act, w), events + Emit(s, act, w), w)
  {
    if act.Switch? {
      assert !Critical(s.pc[act.to]);
    }
    StepKeepsMask(m, s, act, w);
    var out := Emit(s, act, w);
    if out == [] {
      assert events + out == events;
      SilentStep(x, s, events, act, w);
    } else {
      assert out == [out[0]];
      RecordedStep(x, s, events, act, out[0], w);
    }
  }

  lemma {:induction false} RunKeepsInvariant(s: State, acts: seq<Action>, w: nat)
    requires Initial(s, w) && Possible(s, acts, w)
    ensures Invariant(s.mem, s.primask, Reached(s, acts, w), History(s, acts, w), w)
    decreases |acts|
  {
    if acts != [] {
      var prior := acts[..|acts| - 1];
      RunKeepsInvariant(s, prior, w);
      StepKeepsInvariant(s.mem, s.primask, Reached(s, prior, w), History(s, prior, w), acts[|acts| - 1], w);
    }
  }

  /** The masking implementation meets the same specification as the exclusive-monitor one. */
  lemma {:induction false} EveryRunIsLinearizable(s: State, acts: seq<Action>, w: nat)
    requires Initial(s, w) && Possible(s, acts, w)
    ensures Linearizable(s.mem, History(s, acts, w), Reached(s, acts, w).mem, w)
  {
    RunKeepsInvariant(s, acts, w);
  }

  /** In every run each operation, when it takes effect, does its work on the cell as it is at that moment
      and answers accordingly, and the cell is what these effects and the plain stores made of it. */
  lemma {:induction false} OperationsDo(s: State, acts: seq<Action>, w: nat, k: nat)
    requires Initial(s, w) && Possible(s, acts, w) && k < |History(s, acts, w)|
    ensures var events := History(s, acts, w);
      var y, y' := Replay(s.mem, events[..k], w), Replay(s.mem, events[..k + 1], w);
      && Reached(s, acts, w).mem == Replay(s.mem, events, w)
      && match events[k]
         case Effect(_, op, r) => Does(op, y, y', r, w)
         case Write(_, v) => y' == v % Pow2(w)
         case _ => y' == y
  {
    EveryRunIsLinearizable(s, acts, w);
    EffectsDo(s.mem, History(s, acts, w), k, w);
  }

  /** Every bit of a cell used only through set, clear, toggle and clear-and-set, after any run. */
  lemma {:induction false} BitsAreDecided(s: State, acts: seq<Action>, w: nat, i: nat)
    requires Initial(s, w) && Possible(s, acts, w) && OnlyBits(History(s, acts, w)) && i < w
    ensures Decided(History(s, acts, w), i, Bit(s.mem, i), Bit(Reached(s, acts, w).mem, i))
  {
    EveryRunIsLinearizable(s, acts, w);
    BitsOfHistory(s.mem, History(s, acts, w), w, i);
  }

  /** In every run interrupts stay masked from the first disable to the outermost restore, which
      puts back the mask the run started with; meanwhile no other agent can be inside. */
  lemma {:induction false} SectionsNest(s: State, acts: seq<Action>, w: nat)
    requires Initial(s, w) && Possible(s, acts, w)
    ensures var t := Reached(s, acts, w);
      && t.running < |t.pc| == |t.sections|
      && (t.sections[t.running] != [] || Critical(t.pc[t.running]) ==> t.primask == 1)
      && (t.sections[t.running] == [] && !Critical(t.pc[t.running]) ==> t.primask == s.primask)
      && forall a | 0 <= a < |t.pc| && a != t.running :: t.sections[a] == [] && !Critical(t.pc[a])
  {
    RunKeepsInvariant(s, acts, w);
  }
}
