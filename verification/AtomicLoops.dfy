/** The operations themselves, as methods on a core whose instruction stream can be interrupted: before
    any instruction, unless PRIMASK is set, a handler may run and complete atomic operations of its own
    on the same cell, which leaves the exclusive monitor clear. Both bodies are here: the retry loops
    and the interrupt-masking ones. */
module AtomicLoops {
  import opened Bits
  import opened AtomicSpec

  const SELF: nat := 0
  const HANDLER: nat := 1

  /** What happens just before one instruction. */
  datatype Boundary = Undisturbed | Preempted(ops: seq<Op>)

  /** The events of one agent. */
  function By(events: seq<Event>, a: nat): seq<Event> {
    if events == [] then []
    else
      var e := events[|events| - 1];
      By(events[..|events| - 1], a) + if e.agent == a then [e] else []
  }

  /** The operations of an agent's effects, in order. */
  function OpsBy(events: seq<Event>, a: nat): seq<Op> {
    if events == [] then []
    else
      var e := events[|events| - 1];
      OpsBy(events[..|events| - 1], a) + if e.Effect? && e.agent == a then [e.op] else []
  }

  /** The operations handlers perform at a sequence of boundaries, in order, and how often they run. */
  function Due(past: seq<Boundary>): seq<Op> {
    if past == [] then []
    else
      var here := past[|past| - 1];
      Due(past[..|past| - 1]) + if here.Preempted? then here.ops else []
  }

  function Preempts(past: seq<Boundary>): nat {
    if past == [] then 0
    else Preempts(past[..|past| - 1]) + if past[|past| - 1].Preempted? then 1 else 0
  }

  lemma PassBoundary(past: seq<Boundary>, here: Boundary)
    ensures Due(past + [here]) == Due(past) + if here.Preempted? then here.ops else []
    ensures Preempts(past + [here]) == Preempts(past) + if here.Preempted? then 1 else 0
  {
    assert (past + [here])[..|past + [here]| - 1] == past;
  }

  /** What one more effect adds to a log. */
  lemma RecordEffect(x: nat, log: seq<Event>, a: nat, op: Op, response: nat, w: nat)
    ensures var e := Effect(a, op, response);
      && Legal(x, log + [e], w) == (Legal(x, log, w) && response == Response(op, Replay(x, log, w), w))
      && Replay(x, log + [e], w) == After(op, Replay(x, log, w), w)
      && By(log + [e], SELF) == By(log, SELF) + (if a == SELF then [e] else [])
      && OpsBy(log + [e], HANDLER) == OpsBy(log, HANDLER) + (if a == HANDLER then [op] else [])
  {
    Snoc(log, Effect(a, op, response));
  }

  /** Only effects of this code and of handlers. */
  predicate TwoParties(log: seq<Event>) {
    forall e | e in log :: e.Effect? && (e.agent == SELF || e.agent == HANDLER)
  }

  class Core {
    const w: nat
    var mem: nat
    var monitor: bool
    var primask: nat
    var ahead: seq<Boundary>           // the coming instruction boundaries; undisturbed after its end
    ghost var past: seq<Boundary>      // the boundaries passed
    ghost const script: seq<Boundary>  // both together
    ghost const origin: nat
    ghost var log: seq<Event>          // the effects so far, in order
    ghost var failures: nat            // store-exclusives that failed
    ghost var preempts: nat            // boundaries passed at which handlers ran

    constructor (w: nat, mem: nat, primask: nat, ahead: seq<Boundary>)
      requires mem < Pow2(w)
      ensures Valid() && this.w == w && this.mem == mem && origin == mem && this.primask == primask
      ensures this.ahead == script == ahead && past == [] && log == [] && failures == 0 && preempts == 0
    {
      this.w, this.mem, this.monitor, this.primask, this.ahead := w, mem, false, primask, ahead;
      script, origin, past, log, failures, preempts := ahead, mem, [], [], 0, 0;
    }

    /** The handlers' part of the log is exactly what the boundaries passed made them do. */
    ghost predicate Tracked()
      reads this
    {
      && script == past + ahead && preempts == Preempts(past)
      && TwoParties(log) && OpsBy(log, HANDLER) == Due(past)
    }

    /** The cell is what the log says, and every logged answer is the sequential one. */
    ghost predicate Explained()
      reads this
    {
      mem < Pow2(w) && Legal(origin, log, w) && Replay(origin, log, w) == mem
    }

    ghost predicate Valid()
      reads this
    {
      Tracked() && Explained()
    }

    /** One operation of a handler, effected at once as far as this code can tell. */
    method HandleOne(op: Op)
      requires Explained() && TwoParties(log)
      modifies this`mem, this`log
      ensures Explained() && TwoParties(log) && old(log) <= log
      ensures By(log, SELF) == old(By(log, SELF)) && OpsBy(log, HANDLER) == old(OpsBy(log, HANDLER)) + [op]
    {
      var r := Response(op, mem, w);
      RecordEffect(origin, log, HANDLER, op, r, w);
      log := log + [Effect(HANDLER, op, r)];
      mem := After(op, mem, w);
    }

    method Handle(ops: seq<Op>)
      requires Explained() && TwoParties(log)
      modifies this`mem, this`log
      ensures Explained() && TwoParties(log) && old(log) <= log
      ensures By(log, SELF) == old(By(log, SELF)) && OpsBy(log, HANDLER) == old(OpsBy(log, HANDLER)) + ops
    {
      ghost var before := OpsBy(log, HANDLER);
      assert ops[..0] == [] && before + [] == before;
      for k := 0 to |ops|
        invariant Explained() && TwoParties(log) && old(log) <= log
        invariant By(log, SELF) == old(By(log, SELF)) && OpsBy(log, HANDLER) == before + ops[..k]
      {
        HandleOne(ops[k]);
        assert before + ops[..k] + [ops[k]] == before + ops[..k + 1];
      }
      assert ops[..|ops|] == ops;
    }

    /** Reach the next instruction, letting a handler run first if one is due; masked, it waits. */
    method Advance()
      requires Valid()
      modifies this
      ensures Valid() && old(log) <= log && By(log, SELF) == old(By(log, SELF))
      ensures primask == old(primask) && failures == old(failures)
      ensures |ahead| <= old(|ahead|) && preempts >= old(preempts)
      ensures if old(primask == 0 && ahead != [] && ahead[0].Preempted?)
              then !monitor && preempts == old(preempts) + 1 && |ahead| < old(|ahead|)
              else && mem == old(mem) && log == old(log) && monitor == old(monitor)
                   && preempts == old(preempts)
    {
      if primask != 0 || ahead == [] {
        return;
      }
      var here := ahead[0];
      PassBoundary(past, here);
      assert past + ahead == (past + [here]) + ahead[1..];
      past, ahead := past + [here], ahead[1..];
      if here.Preempted? {
        preempts, monitor := preempts + 1, false;
        Handle(here.ops);
      }
    }

    /** Append this code's effect to the log. */
    ghost method Record(op: Op, response: nat)
      requires Tracked()
      modifies this`log
      ensures Tracked() && log == old(log) + [Effect(SELF, op, response)]
      ensures Legal(origin, log, w)
           == (old(Legal(origin, log, w)) && response == Response(op, Replay(origin, old(log), w), w))
      ensures Replay(origin, log, w) == After(op, Replay(origin, old(log), w), w)
      ensures By(log, SELF) == old(By(log, SELF)) + [Effect(SELF, op, response)]
    {
      RecordEffect(origin, log, SELF, op, response, w);
      log := log + [Effect(SELF, op, response)];
    }

    /** LDREX: read the cell and set the monitor. */
    method LoadExclusive() returns (x: nat)
      requires Valid()
      modifies this
      ensures Valid() && old(log) <= log && By(log, SELF) == old(By(log, SELF))
      ensures monitor && x == mem && primask == old(primask) && failures == old(failures)
      ensures preempts == old(preempts) ==> mem == old(mem) && log == old(log)
      ensures |ahead| <= old(|ahead|) && preempts >= old(preempts)
    {
      Advance();
      x := mem;
      monitor := true;
    }

    /** STREX: store if the monitor is still set, clear it, and say 0 for success and 1 for failure.
        Failure after a load means a handler ran in between. */
    method StoreExclusive(v: nat) returns (status: nat)
      requires Valid() && v < Pow2(w)
      modifies this
      ensures Tracked() && old(log) <= log && By(log, SELF) == old(By(log, SELF)) && !monitor
      ensures primask == old(primask)
      ensures |ahead| <= old(|ahead|)
      ensures status == 0 ==>
        && mem == v && log == old(log) && old(monitor)
        && failures == old(failures) && preempts == old(preempts)
      ensures status != 0 ==>
        status == 1 && Explained() && failures == old(failures) + 1 && preempts >= old(preempts)
      ensures status != 0 && old(monitor) ==> |ahead| < old(|ahead|) && preempts == old(preempts) + 1
    {
      Advance();
      if monitor {
        mem, monitor, status := v, false, 0;
      } else {
        failures, status := failures + 1, 1;
      }
    }

    method ClearExclusive()
      requires Valid()
      modifies this
      ensures Valid() && old(log) <= log && By(log, SELF) == old(By(log, SELF))
      ensures !monitor && primask == old(primask) && failures == old(failures)
      ensures preempts >= old(preempts)
      ensures preempts == old(preempts) ==> mem == old(mem) && log == old(log)
    {
      Advance();
      monitor := false;
    }

    /** The loop behind add, subtract, set, clear, toggle and clear-and-set. The log grows by exactly one
        effect of the operation among the effects the handlers had to have, so none of theirs is lost;
        and it retries at most once per preemption. */
    method Update(op: Op)
      requires Valid() && !op.CompareAndSet? && !op.TestAndSet?
      modifies this
      ensures Valid() && old(log) <= log && !monitor && primask == old(primask)
      ensures By(log, SELF) == old(By(log, SELF)) + [Effect(SELF, op, 0)]
      ensures failures - old(failures) <= preempts - old(preempts)
      // what it does, undisturbed
      ensures preempts == old(preempts) ==> Does(op, old(mem), mem, 0, w)
    {
      ghost var before, was := preempts, mem;
      RunAloneDoes(op, was, w);
      var status: nat := 1;
      while status != 0
        invariant Valid() && old(log) <= log && primask == old(primask)
        invariant preempts >= before && (preempts > before || mem == if status != 0 then was else Updated(op, was, w))
        invariant By(log, SELF) == old(By(log, SELF)) + if status == 0 then [Effect(SELF, op, 0)] else []
        invariant status == 0 ==> !monitor
        invariant failures - old(failures) <= preempts - before
        decreases |ahead|, status != 0
      {
        var val := LoadExclusive();
        val := Updated(op, val, w);
        status := StoreExclusive(val);
        if status == 0 {
          Record(op, 0);
        }
      }
    }

    /** Compare-and-set: true exactly when its effect, placed once in the log, found `expected`. */
    method CompareAndSet(expected: nat, newValue: nat) returns (stored: bool)
      requires Valid() && expected < Pow2(w) && newValue < Pow2(w)
      modifies this
      ensures Valid() && old(log) <= log && !monitor && primask == old(primask)
      ensures By(log, SELF)
           == old(By(log, SELF)) + [Effect(SELF, AtomicSpec.CompareAndSet(expected, newValue), if stored then 1 else 0)]
      ensures failures - old(failures) <= preempts - old(preempts)
      ensures preempts == old(preempts) ==>
        (stored <==> old(mem) == expected) && mem == if stored then newValue else old(mem)
    {
      ghost var op := AtomicSpec.CompareAndSet(expected, newValue);
      DivModUnique(expected, Pow2(w), 0, expected);
      DivModUnique(newValue, Pow2(w), 0, newValue);
      ghost var before, was := preempts, mem;
      while true
        invariant Valid() && old(log) <= log && By(log, SELF) == old(By(log, SELF)) && primask == old(primask)
        invariant preempts >= before && (preempts > before || mem == was)
        invariant failures - old(failures) <= preempts - before
        decreases |ahead|
      {
        var actual := LoadExclusive();
        if actual != expected {
          Record(op, 0);
          ClearExclusive();
          return false;
        }
        var status := StoreExclusive(newValue);
        if status == 0 {
          Record(op, 1);
          return true;
        }
      }
    }

    /** Test-and-set: the value returned is the one its effect replaced. */
    method TestAndSet(newValue: nat) returns (previous: nat)
      requires Valid() && newValue < Pow2(w)
      modifies this
      ensures Valid() && old(log) <= log && !monitor && primask == old(primask)
      ensures By(log, SELF) == old(By(log, SELF)) + [Effect(SELF, AtomicSpec.TestAndSet(newValue), previous)]
      ensures failures - old(failures) <= preempts - old(preempts)
      ensures preempts == old(preempts) ==> previous == old(mem) && mem == newValue
    {
      DivModUnique(newValue, Pow2(w), 0, newValue);
      ghost var before, was := preempts, mem;
      while true
        invariant Valid() && old(log) <= log && By(log, SELF) == old(By(log, SELF)) && primask == old(primask)
        invariant preempts >= before && (preempts > before || mem == was)
        invariant failures - old(failures) <= preempts - before
        decreases |ahead|
      {
        previous := LoadExclusive();
        var status := StoreExclusive(newValue);
        if status == 0 {
          Record(AtomicSpec.TestAndSet(newValue), previous);
          return;
        }
      }
    }

    // ---- the same operations with interrupts masked, for cores without exclusive accesses

    /** Two instructions: read PRIMASK, set it. A handler may still run before either. */
    method DisableGlobalIRQ() returns (mask: nat)
      requires Valid()
      modifies this
      ensures Valid() && old(log) <= log && mask == old(primask) && primask == 1
      ensures By(log, SELF) == old(By(log, SELF))
      ensures preempts >= old(preempts)
      ensures mask != 0 || preempts == old(preempts) ==> log == old(log) && mem == old(mem)
    {
      Advance();
      mask := primask;
      Advance();
      primask := 1;
    }

    method EnableGlobalIRQ(mask: nat)
      requires Valid() && primask != 0
      modifies this
      ensures Valid() && primask == mask && log == old(log) && mem == old(mem) && preempts == old(preempts)
    {
      Advance();
      primask := mask;
    }

    /** The interrupt-masking add, subtract, set, clear, toggle and clear-and-set: one effect, and the
        mask found is put back. Called with interrupts masked, nothing else happens meanwhile. */
    method MaskedUpdate(op: Op)
      requires Valid() && !op.CompareAndSet? && !op.TestAndSet?
      modifies this
      ensures Valid() && old(log) <= log && primask == old(primask)
      ensures By(log, SELF) == old(By(log, SELF)) + [Effect(SELF, op, 0)]
      ensures primask != 0 ==> log == old(log) + [Effect(SELF, op, 0)]
      ensures primask != 0 || preempts == old(preempts) ==> Does(op, old(mem), mem, 0, w)
    {
      var mask := DisableGlobalIRQ();
      Advance();
      var val := mem;
      Advance();
      RunAloneDoes(op, val, w);
      Record(op, 0);
      mem := Updated(op, val, w);
      EnableGlobalIRQ(mask);
    }

    method MaskedCompareAndSet(expected: nat, newValue: nat) returns (stored: bool)
      requires Valid() && expected < Pow2(w) && newValue < Pow2(w)
      modifies this
      ensures Valid() && old(log) <= log && primask == old(primask)
      ensures var e := Effect(SELF, AtomicSpec.CompareAndSet(expected, newValue), if stored then 1 else 0);
        && By(log, SELF) == old(By(log, SELF)) + [e]
        && (primask != 0 ==> log == old(log) + [e])
      ensures primask != 0 || preempts == old(preempts) ==>
        (stored <==> old(mem) == expected) && mem == if stored then newValue else old(mem)
    {
      ghost var op := AtomicSpec.CompareAndSet(expected, newValue);
      DivModUnique(expected, Pow2(w), 0, expected);
      DivModUnique(newValue, Pow2(w), 0, newValue);
      var mask := DisableGlobalIRQ();
      Advance();
      var actual := mem;
      Record(op, if actual == expected then 1 else 0);
      if actual == expected {
        mem := newValue;
        EnableGlobalIRQ(mask);
        return true;
      } else {
        EnableGlobalIRQ(mask);
        return false;
      }
    }

    method MaskedTestAndSet(newValue: nat) returns (previous: nat)
      requires Valid() && newValue < Pow2(w)
      modifies this
      ensures Valid() && old(log) <= log && primask == old(primask)
      ensures var e := Effect(SELF, AtomicSpec.TestAndSet(newValue), previous);
        && By(log, SELF) == old(By(log, SELF)) + [e]
        && (primask != 0 ==> log == old(log) + [e])
      ensures primask != 0 || preempts == old(preempts) ==> previous == old(mem) && mem == newValue
    {
      DivModUnique(newValue, Pow2(w), 0, newValue);
      var mask := DisableGlobalIRQ();
      Advance();
      previous := mem;
      Record(AtomicSpec.TestAndSet(newValue), previous);
      mem := newValue;
      EnableGlobalIRQ(mask);
    }
  }
}
