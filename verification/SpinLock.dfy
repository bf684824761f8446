/** Mutual exclusion from compare-and-set or test-and-set. The lock is a cell: 0 is free, 1 is taken.
    The argument uses only the linearizable history, so it holds for every implementation of
    the atomic operations that is proved linearizable. */
module SpinLock {
  import opened Bits
  import opened AtomicSpec
  import ExclusiveMonitor
  import MaskedAtomics

  predicate LockOp(op: Op) { op == CompareAndSet(0, 1) || op == TestAndSet(1) }

  /** Did this answer hand the lock to the caller? */
  predicate Won(op: Op, response: nat) {
    if op.CompareAndSet? then response == 1 else response == 0
  }

  /** Agents whose winning operation has taken effect and who have not released since. */
  function Holders(events: seq<Event>): set<nat> {
    if events == [] then {}
    else
      var h := Holders(events[..|events| - 1]);
      match events[|events| - 1]
      case Effect(a, op, r) => if Won(op, r) then h + {a} else h
      case Write(a, _) => h - {a}
      case _ => h
  }

  /** Agents inside the critical section: told that they won, and not yet out. */
  function Inside(events: seq<Event>): set<nat> {
    if events == [] then {}
    else
      var h := Inside(events[..|events| - 1]);
      match events[|events| - 1]
      case Return(a, op, r) => if Won(op, r) then h + {a} else h
      case Write(a, _) => h - {a}
      case _ => h
  }

  /** Clients follow the protocol: they call only the two acquiring operations, and store only 0,
      only when inside. */
  predicate Disciplined(events: seq<Event>) {
    events != [] ==>
      var prior := events[..|events| - 1];
      && Disciplined(prior)
      && match events[|events| - 1]
         case Invoke(a, op) => LockOp(op)
         case Write(a, v) => v == 0 && a in Inside(prior)
         case _ => true
  }

  lemma {:induction false} CallsAreLockOps(events: seq<Event>, a: nat, op: Op)
    requires Disciplined(events) && Invoke(a, op) in events
    ensures LockOp(op)
    decreases |events|
  {
    var prior := events[..|events| - 1];
    if events[|events| - 1] != Invoke(a, op) {
      assert Invoke(a, op) in prior;
      CallsAreLockOps(prior, a, op);
    }
  }

  /** An agent whose answered operation won holds the lock already, before it is told. */
  ghost predicate LockInvariant(events: seq<Event>, w: nat) {
    && |Holders(events)| <= 1
    && Replay(0, events, w) == (if Holders(events) == {} then 0 else 1)
    && Inside(events) <= Holders(events)
    && forall a: nat ::
         match PhaseOf(events, a)
         case Effected(op, r) => LockOp(op) && (Won(op, r) ==> a in Holders(events))
         case _ => true
  }

  lemma {:induction false} LockStep(events: seq<Event>, w: nat)
    requires w >= 1 && events != []
    requires Linearizable(0, events, Replay(0, events, w), w) && Disciplined(events)
    requires LockInvariant(events[..|events| - 1], w)
    ensures LockInvariant(events, w)
  {
    var prior, e := events[..|events| - 1], events[|events| - 1];
    assert Pow2(w) >= 2;
    assert PhaseOf(events, e.agent) != Broken;
    if e.Effect? {
      assert PhaseOf(prior, e.agent) == Invoked(e.op);
      PendingWasCalled(prior, e.agent);
      CallsAreLockOps(prior, e.agent, e.op);
      LockCell(w);
      if Holders(prior) == {} {
        assert Holders(events) == {e.agent};
      }
    } else if e.Write? {
      assert e.agent in Holders(prior);
      OnlyMember(Holders(prior), e.agent);
      assert Holders(events) == {};
      LockCell(w);
    }
  }

  lemma LockCell(w: nat)
    requires w >= 1
    ensures Narrow(0, w) == 0 && Narrow(1, w) == 1
  {
  }

  lemma OnlyMember(s: set<nat>, a: nat)
    requires |s| <= 1 && a in s
    ensures s == {a}
  {
    assert |s - {a}| == |s| - 1;
  }

  lemma {:induction false} LockHistory(events: seq<Event>, w: nat)
    requires w >= 1 && Linearizable(0, events, Replay(0, events, w), w) && Disciplined(events)
    ensures LockInvariant(events, w)
    decreases |events|
  {
    if events != [] {
      var prior := events[..|events| - 1];
      forall a: nat
        ensures PhaseOf(prior, a) != Broken
      {
        assert PhaseOf(events, a) != Broken;
      }
      LockHistory(prior, w);
      LockStep(events, w);
    }
  }

  /** At most one agent is inside in every reachable state of the exclusive-monitor core. */
  lemma {:induction false} MutualExclusionByMonitor(
      s: ExclusiveMonitor.State, acts: seq<ExclusiveMonitor.Action>, w: nat, a: nat, b: nat)
    requires w >= 1 && ExclusiveMonitor.Initial(s, w) && s.mem == 0 && ExclusiveMonitor.Possible(s, acts, w)
    requires Disciplined(ExclusiveMonitor.History(s, acts, w))
    requires a in Inside(ExclusiveMonitor.History(s, acts, w))
    requires b in Inside(ExclusiveMonitor.History(s, acts, w))
    ensures a == b
  {
    ExclusiveMonitor.EveryRunIsLinearizable(s, acts, w);
    var events := ExclusiveMonitor.History(s, acts, w);
    LockHistory(events, w);
    OnlyMember(Holders(events), a);
  }

  /** And in every reachable state of the interrupt-masking core. */
  lemma {:induction false} MutualExclusionByMask(
      s: MaskedAtomics.State, acts: seq<MaskedAtomics.Action>, w: nat, a: nat, b: nat)
    requires w >= 1 && MaskedAtomics.Initial(s, w) && s.mem == 0 && MaskedAtomics.Possible(s, acts, w)
    requires Disciplined(MaskedAtomics.History(s, acts, w))
    requires a in Inside(MaskedAtomics.History(s, acts, w))
    requires b in Inside(MaskedAtomics.History(s, acts, w))
    ensures a == b
  {
    MaskedAtomics.EveryRunIsLinearizable(s, acts, w);
    var events := MaskedAtomics.History(s, acts, w);
    LockHistory(events, w);
    OnlyMember(Holders(events), a);
  }
}
