/** The sequential meaning of the SDK_ATOMIC_LOCAL_* operations on one cell of `w` bits
    (8, 16 or 32 in the source; every width here), and what it means for a concurrent
    history of such operations to be linearizable. Both implementations, the
    exclusive-monitor loops and the interrupt-masking ones, are proved against it. */
module AtomicSpec {
  import opened Bits

  datatype Op =
    | Add(v: nat)
    | Sub(v: nat)
    | SetBits(bits: nat)
    | ClearBits(bits: nat)
    | Toggle(bits: nat)
    | ClearAndSet(clear: nat, set_: nat)
    | CompareAndSet(expected: nat, newValue: nat)
    | TestAndSet(newValue: nat)

  /** The cast to the cell's width that the macros apply to every operand. */
  function Narrow(v: nat, w: nat): nat { v % Pow2(w) }

  /** Does `op`, having read `x`, go on to store? Only a compare-and-set may not. */
  predicate Stores(op: Op, x: nat, w: nat) {
    op.CompareAndSet? ==> x == Narrow(op.expected, w)
  }

  /** The value `op` stores after reading `x`. */
  function Updated(op: Op, x: nat, w: nat): (r: nat)
    ensures r < Pow2(w)
  {
    match op
    case Add(v) => (x + v) % Pow2(w)
    case Sub(v) => (x - v) % Pow2(w)
    case SetBits(b) => Or(x, b, w)
    case ClearBits(b) => AndNot(x, b, w)
    case Toggle(b) => Xor(x, b, w)
    case ClearAndSet(c, s) => Or(AndNot(x, c, w), s, w)
    case CompareAndSet(_, n) => Narrow(n, w)
    case TestAndSet(n) => Narrow(n, w)
  }

  /** What the caller gets back: the old value, the verdict of the comparison, or nothing (0). */
  function Response(op: Op, x: nat, w: nat): nat {
    match op
    case TestAndSet(_) => x
    case CompareAndSet(_, _) => if Stores(op, x, w) then 1 else 0
    case _ => 0
  }

  /** The answer an implementation computes from the value it read, once it has decided to store. */
  function Answer(op: Op, seen: nat): nat {
    match op
    case TestAndSet(_) => seen
    case CompareAndSet(_, _) => 1
    case _ => 0
  }

  /** The cell after `op` runs alone on `x`. */
  function After(op: Op, x: nat, w: nat): nat {
    if Stores(op, x, w) then Updated(op, x, w) else x
  }

  /** What an observer of the core records: calls, the instants at which they take effect,
      returns, and ordinary stores to the cell. */
  datatype Event =
    | Invoke(agent: nat, op: Op)
    | Effect(agent: nat, op: Op, response: nat)
    | Return(agent: nat, op: Op, response: nat)
    | Write(agent: nat, value: nat)

  /** The cell after the effects and stores in `events` happen one at a time, starting from `x`. */
  function Replay(x: nat, events: seq<Event>, w: nat): nat {
    if events == [] then x
    else
      var y := Replay(x, events[..|events| - 1], w);
      match events[|events| - 1]
      case Effect(_, op, _) => After(op, y, w)
      case Write(_, v) => Narrow(v, w)
      case _ => y
  }

  /** Every effect answers what the sequential operation answers at that point. */
  predicate Legal(x: nat, events: seq<Event>, w: nat) {
    events != [] ==>
      var prior := events[..|events| - 1];
      && Legal(x, prior, w)
      && match events[|events| - 1]
         case Effect(_, op, r) => r == Response(op, Replay(x, prior, w), w)
         case _ => true
  }

  /** Where one agent stands, reading only its own events. */
  datatype Phase = Quiet | Invoked(op: Op) | Effected(op: Op, response: nat) | Broken

  /** An agent's events must repeat: one call, one effect of that call inside it, one return
      of that effect's answer; ordinary stores only between calls. Anything else is `Broken`. */
  function PhaseOf(events: seq<Event>, a: nat): Phase {
    if events == [] then Quiet
    else
      var p := PhaseOf(events[..|events| - 1], a);
      var e := events[|events| - 1];
      if e.agent != a then p
      else match e
           case Invoke(_, op) => if p == Quiet then Invoked(op) else Broken
           case Effect(_, op, r) => if p == Invoked(op) then Effected(op, r) else Broken
           case Return(_, op, r) => if p == Effected(op, r) then Quiet else Broken
           case Write(_, _) => if p == Quiet then Quiet else Broken
  }

  /** `events`, from a cell holding `x` to one holding `y`, is equivalent to running the
      operations one at a time, each at an instant between its call and its return. */
  ghost predicate Linearizable(x: nat, events: seq<Event>, y: nat, w: nat) {
    && Legal(x, events, w)
    && Replay(x, events, w) == y
    && forall a: nat :: PhaseOf(events, a) != Broken
  }

  lemma Snoc<T>(xs: seq<T>, x: T)
    ensures (xs + [x])[..|xs + [x]| - 1] == xs && (xs + [x])[|xs + [x]| - 1] == x
  {
  }

  // ---- what the operations do, without the definitions above: arithmetic, single bits, comparison

  predicate Congruent(a: int, b: int, m: nat)
    requires m > 0
  {
    (a - b) % m == 0
  }

  /** `op` takes the cell from `x` to `y` and answers `r`. */
  ghost predicate Does(op: Op, x: nat, y: nat, r: nat, w: nat) {
    && y < Pow2(w)
    && match op
       case Add(v) => Congruent(y, x + v, Pow2(w))
       case Sub(v) => Congruent(y, x - v, Pow2(w))
       case SetBits(b) => forall i: nat | i < w :: Bit(y, i) <==> Bit(x, i) || Bit(b, i)
       case ClearBits(b) => forall i: nat | i < w :: Bit(y, i) <==> Bit(x, i) && !Bit(b, i)
       case Toggle(b) => forall i: nat | i < w :: Bit(y, i) <==> Bit(x, i) != Bit(b, i)
       case ClearAndSet(c, s) => forall i: nat | i < w :: Bit(y, i) <==> (Bit(x, i) && !Bit(c, i)) || Bit(s, i)
       case CompareAndSet(e, n) =>
         && (x == e % Pow2(w) ==> r == 1 && y == n % Pow2(w))
         && (x != e % Pow2(w) ==> r == 0 && y == x)
       case TestAndSet(n) => r == x && y == n % Pow2(w)
  }

  lemma CongruentMod(a: int, m: nat)
    requires m > 0
    ensures Congruent(a % m, a, m)
  {
    var q := a / m;
    assert a == q * m + a % m;
    DivModUnique(a % m - a, m, -q, 0);
  }

  /** The sequential meaning does that. */
  lemma {:induction false} RunAloneDoes(op: Op, x: nat, w: nat)
    requires x < Pow2(w)
    ensures Does(op, x, After(op, x, w), Response(op, x, w), w)
  {
    match op
    case Add(v) => CongruentMod(x + v, Pow2(w));
    case Sub(v) => CongruentMod(x - v, Pow2(w));
    case SetBits(b) => BitwiseBits(Either, x, b, w);
    case ClearBits(b) => BitwiseBits(ButNot, x, b, w);
    case Toggle(b) => BitwiseBits(Differ, x, b, w);
    case ClearAndSet(c, s) =>
      BitwiseBits(ButNot, x, c, w);
      BitwiseBits(Either, AndNot(x, c, w), s, w);
    case CompareAndSet(_, _) =>
    case TestAndSet(_) =>
  }

  lemma {:induction false} BitwiseBits(f: (bool, bool) -> bool, x: nat, y: nat, n: nat)
    ensures forall i: nat | i < n :: Bit(Bitwise(f, x, y, n), i) == f(Bit(x, i), Bit(y, i))
  {
    forall i: nat | i < n
      ensures Bit(Bitwise(f, x, y, n), i) == f(Bit(x, i), Bit(y, i))
    {
      BitwiseAt(f, x, y, n, i);
    }
  }

  lemma {:induction false} ReplayFits(x: nat, events: seq<Event>, w: nat)
    requires x < Pow2(w)
    ensures Replay(x, events, w) < Pow2(w)
    decreases |events|
  {
    if events != [] {
      ReplayFits(x, events[..|events| - 1], w);
    }
  }

  lemma {:induction false} LegalPrefix(x: nat, events: seq<Event>, k: nat, w: nat)
    requires Legal(x, events, w) && k <= |events|
    ensures Legal(x, events[..k], w)
    decreases |events|
  {
    if k < |events| {
      LegalPrefix(x, events[..|events| - 1], k, w);
      assert events[..|events| - 1][..k] == events[..k];
    } else {
      assert events[..k] == events;
    }
  }

  /** In every legal history each effect does what its operation says to the cell as it finds it, and
      answers accordingly; an ordinary store stores its value; calls and returns leave the cell alone. */
  lemma {:induction false} EffectsDo(x: nat, events: seq<Event>, k: nat, w: nat)
    requires x < Pow2(w) && Legal(x, events, w) && k < |events|
    ensures var y, y' := Replay(x, events[..k], w), Replay(x, events[..k + 1], w);
      match events[k]
      case Effect(_, op, r) => Does(op, y, y', r, w)
      case Write(_, v) => y' == v % Pow2(w)
      case _ => y' == y
  {
    var prior, here := events[..k], events[..k + 1];
    assert here[..|here| - 1] == prior && here[|here| - 1] == events[k];
    LegalPrefix(x, events, k + 1, w);
    ReplayFits(x, prior, w);
    if events[k].Effect? {
      RunAloneDoes(events[k].op, Replay(x, prior, w), w);
    }
  }

  // ---- one bit over a whole history

  /** What one event does to bit `i`. */
  datatype Force = Up | Down | Flip | Leave

  function ForceOn(op: Op, i: nat): Force {
    match op
    case SetBits(b) => if Bit(b, i) then Up else Leave
    case ClearBits(b) => if Bit(b, i) then Down else Leave
    case Toggle(b) => if Bit(b, i) then Flip else Leave
    case ClearAndSet(c, s) => if Bit(s, i) then Up else if Bit(c, i) then Down else Leave
    case _ => Leave
  }

  predicate OnlyBits(events: seq<Event>) {
    forall e | e in events ::
      !e.Write? && (e.op.SetBits? || e.op.ClearBits? || e.op.Toggle? || e.op.ClearAndSet?)
  }

  function ForceAt(e: Event, i: nat): Force { if e.Effect? then ForceOn(e.op, i) else Leave }

  /** Is the number of toggles of bit `i` odd? */
  predicate OddFlips(events: seq<Event>, i: nat) {
    events != [] && (OddFlips(events[..|events| - 1], i) != (ForceAt(events[|events| - 1], i) == Flip))
  }

  /** Event `j` is the last that sets or clears bit `i`. */
  ghost predicate LastForce(events: seq<Event>, i: nat, j: nat) {
    && j < |events| && ForceAt(events[j], i) in {Up, Down}
    && forall k | j < k < |events| :: ForceAt(events[k], i) in {Flip, Leave}
  }

  ghost predicate NeverForced(events: seq<Event>, i: nat) {
    forall k | 0 <= k < |events| :: ForceAt(events[k], i) in {Flip, Leave}
  }

  lemma {:induction false} BitOfEffect(x: nat, events: seq<Event>, w: nat, i: nat)
    requires x < Pow2(w) && Legal(x, events, w) && events != [] && OnlyBits(events) && i < w
    ensures var was := Bit(Replay(x, events[..|events| - 1], w), i);
      Bit(Replay(x, events, w), i) == match ForceAt(events[|events| - 1], i)
                                      case Up => true
                                      case Down => false
                                      case Flip => !was
                                      case Leave => was
  {
    var last := |events| - 1;
    assert events[last] in events;
    assert events[..last + 1] == events;
    EffectsDo(x, events, last, w);
  }

  /** Bit `i`, first `start`, ends as the last operation that set or cleared it left it, or as at first,
      turned over once for each toggle since. */
  ghost predicate Decided(events: seq<Event>, i: nat, start: bool, end: bool) {
    && (NeverForced(events, i) ==> end == (start != OddFlips(events, i)))
    && forall j: nat | LastForce(events, i, j) ::
         end == ((ForceAt(events[j], i) == Up) != OddFlips(events[j + 1..], i))
  }

  lemma {:induction false} DecidedAfter(events: seq<Event>, i: nat, start: bool, was: bool, end: bool)
    requires events != [] && Decided(events[..|events| - 1], i, start, was)
    requires end == match ForceAt(events[|events| - 1], i)
                    case Up => true
                    case Down => false
                    case Flip => !was
                    case Leave => was
    ensures Decided(events, i, start, end)
  {
    var last := |events| - 1;
    var prior := events[..last];
    forall j: nat | LastForce(events, i, j)
      ensures end == ((ForceAt(events[j], i) == Up) != OddFlips(events[j + 1..], i))
    {
      var since := events[j + 1..];
      if j < last {
        assert LastForce(prior, i, j);
        assert since[..|since| - 1] == prior[j + 1..] && since[|since| - 1] == events[last];
      } else {
        assert since == [];
      }
    }
  }

  /** So it is after every legal history of set, clear, toggle and clear-and-set. */
  lemma {:induction false} BitsOfHistory(x: nat, events: seq<Event>, w: nat, i: nat)
    requires x < Pow2(w) && Legal(x, events, w) && OnlyBits(events) && i < w
    ensures Decided(events, i, Bit(x, i), Bit(Replay(x, events, w), i))
    decreases |events|
  {
    if events != [] {
      var prior := events[..|events| - 1];
      BitsOfHistory(x, prior, w, i);
      BitOfEffect(x, events, w, i);
      DecidedAfter(events, i, Bit(x, i), Bit(Replay(x, prior, w), i), Bit(Replay(x, events, w), i));
    }
  }

  /** An answer returned is the answer of an earlier effect of the same call. */
  lemma {:induction false} AnswerWasEffected(events: seq<Event>, a: nat)
    requires PhaseOf(events, a).Effected?
    ensures Effect(a, PhaseOf(events, a).op, PhaseOf(events, a).response) in events
    decreases |events|
  {
    var prior, e := events[..|events| - 1], events[|events| - 1];
    assert e in events;
    if e.agent != a {
      AnswerWasEffected(prior, a);
    }
  }

  // ---- conservation: weights of called and of effected operations

  /** Total weight of the operations called in `events`. */
  function Called(events: seq<Event>, g: Op -> int): int {
    if events == [] then 0
    else
      var e := events[|events| - 1];
      Called(events[..|events| - 1], g) + if e.Invoke? then g(e.op) else 0
  }

  /** Total weight of the operations that took effect in `events`. */
  function Applied(events: seq<Event>, g: Op -> int): int {
    if events == [] then 0
    else
      var e := events[|events| - 1];
      Applied(events[..|events| - 1], g) + if e.Effect? then g(e.op) else 0
  }

  /** The amount an addition or subtraction contributes. */
  function Delta(op: Op): int {
    match op
    case Add(v) => v
    case Sub(v) => -(v as int)
    case _ => 0
  }

  predicate OnlySums(events: seq<Event>) {
    forall e | e in events :: !e.Write? && (e.op.Add? || e.op.Sub?)
  }

  lemma ModAbsorb(a: int, b: int, m: int)
    requires m > 0
    ensures (a % m + b) % m == (a + b) % m
  {
    var q, r := (a % m + b) / m, (a % m + b) % m;
    assert a + b == (a / m + q) * m + r by {
      assert a == a / m * m + a % m;
    }
    DivModUnique(a + b, m, a / m + q, r);
  }

  /** Replaying additions and subtractions sums their amounts modulo the cell's range. */
  lemma {:induction false} ReplayOfSums(x: nat, events: seq<Event>, w: nat)
    requires x < Pow2(w) && OnlySums(events)
    ensures Replay(x, events, w) == (x + Applied(events, Delta)) % Pow2(w)
    decreases |events|
  {
    if events == [] {
      DivModUnique(x, Pow2(w), 0, x);
    } else {
      var prior, e := events[..|events| - 1], events[|events| - 1];
      ReplayOfSums(x, prior, w);
      assert e in events;
      if e.Effect? {
        ModAbsorb(x + Applied(prior, Delta), Delta(e.op), Pow2(w));
      }
    }
  }

  lemma {:induction false} SumsOf(x: nat, y: nat, events: seq<Event>, w: nat)
    requires x < Pow2(w) && OnlySums(events) && Called(events, Delta) == Applied(events, Delta)
    requires y == Replay(x, events, w)
    ensures y == (x + Called(events, Delta)) % Pow2(w)
  {
    ReplayOfSums(x, events, w);
  }

  /** An effect in a history that is never broken belongs to a call made earlier by the same agent. */
  lemma {:induction false} PendingWasCalled(events: seq<Event>, a: nat)
    requires PhaseOf(events, a).Invoked?
    ensures Invoke(a, PhaseOf(events, a).op) in events
    decreases |events|
  {
    var prior, e := events[..|events| - 1], events[|events| - 1];
    assert e in events;
    if e.agent != a {
      PendingWasCalled(prior, a);
    }
  }
}
