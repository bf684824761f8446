/** Whole runs of the aligned allocator: clients ask for blocks, store into them and release them, in any
    order, and every live block reads back what its owner stored last. */
module HeapSession {
  import opened Bits
  import opened AlignedHeap

  type Word = x: nat | x < U32

  /** An alignment whose every offset the header can record, or one that is refused. */
  type Alignment = a: nat | a == 0 || SIZE_MAX <= a < U32 || (Countable(a) && OffsetsFit(a))

  datatype Want = Want(size: Word, align: Alignment)

  /** Blocks are named by the number of the request that asked for them. */
  datatype Step =
    | Ask(want: Want)
    | Store(k: nat, i: nat, v: Byte)
    | Release(k: nat)

  /** The requests made, in order. */
  function Asks(steps: seq<Step>): seq<Want> {
    if steps == [] then []
    else
      var prior, s := Asks(steps[..|steps| - 1]), steps[|steps| - 1];
      if s.Ask? then prior + [s.want] else prior
  }

  /** What the owner of block `k` stored last at each offset; stores outside the block are not made. */
  function Image(steps: seq<Step>, k: nat): map<nat, Byte> {
    if steps == [] then map[]
    else
      var before, s := steps[..|steps| - 1], steps[|steps| - 1];
      var prior := Image(before, k);
      if s.Store? && s.k == k && k < |Asks(before)| && s.i < Asks(before)[k].size then prior[s.i := s.v] else prior
  }

  /** Was block `k` released after it had been asked for? */
  predicate Released(steps: seq<Step>, k: nat) {
    steps != [] &&
    var before, s := steps[..|steps| - 1], steps[|steps| - 1];
    Released(before, k) || (s == Release(k) && k < |Asks(before)|)
  }

  /** Every call of malloc that the requests lead to, when malloc's answers to them are `bases`. */
  function AllCalls(wants: seq<Want>, bases: seq<nat>): seq<Request>
    requires |wants| == |bases|
  {
    if wants == [] then []
    else
      var last := |wants| - 1;
      AllCalls(wants[..last], bases[..last]) + Calls(wants[last].size, wants[last].align, bases[last])
  }

  /** The address handed out for a request that malloc answered with `base`. */
  function Handed(want: Want, base: nat): nat { Granted(want.size, want.align, base) }

  /** A request refused outright never reaches malloc; any block handed out lies above its header, and for
      a power of two at the lowest such multiple. */
  ghost predicate Fits(want: Want, base: nat, p: nat) {
    && (p == 0 <==> base == 0)
    && (PaddedSize(want.size, want.align) == None ==> base == 0)
    && (p != 0 ==> want.align >= 1 && base + HEADER <= p < base + HEADER + want.align)
    && (p != 0 && IsPow2(want.align, 32) ==> p == RoundUp(base + HEADER, want.align) && p % want.align == 0)
  }

  /** The handle of one request: what was handed out, and 0 once that has been released. */
  ghost predicate HandleIs(want: Want, base: nat, released: bool, p: nat) {
    && p == (if released then 0 else Handed(want, base))
    && Fits(want, base, Handed(want, base))
  }

  ghost predicate HandlesAre(steps: seq<Step>, bases: seq<nat>, handles: seq<nat>) {
    && |handles| == |bases| == |Asks(steps)|
    && forall k: nat | k < |handles| :: HandleIs(Asks(steps)[k], bases[k], Released(steps, k), handles[k])
  }

  /** And malloc was asked for exactly what the requests come to, after `before`. */
  ghost predicate Booked(before: seq<Request>, asked: seq<Request>, steps: seq<Step>, bases: seq<nat>,
                         handles: seq<nat>) {
    HandlesAre(steps, bases, handles) && asked == before + AllCalls(Asks(steps), bases)
  }

  /** Block `k`, at address `p`, is live in its raw block, has the size asked for and holds its owner's image. */
  ghost predicate Serves(mem: seq<Byte>, live: map<nat, Block>, steps: seq<Step>, bases: seq<nat>, k: nat, p: nat) {
    && k < |Asks(steps)| && k < |bases| && p in live && live[p] == Block(bases[k], Asks(steps)[k].size)
    && forall i | i in Image(steps, k) :: i < live[p].size && p + i < |mem| && mem[p + i] == Image(steps, k)[i]
  }

  /** All blocks not refused and not released are served, and are different blocks. */
  ghost predicate ServesAll(mem: seq<Byte>, live: map<nat, Block>, steps: seq<Step>, bases: seq<nat>,
                            handles: seq<nat>) {
    && |handles| == |bases| == |Asks(steps)|
    && (forall k: nat | k < |handles| && handles[k] != 0 :: Serves(mem, live, steps, bases, k, handles[k]))
    && forall j, k | 0 <= j < k < |handles| && handles[j] != 0 :: handles[j] != handles[k]
  }

  lemma {:induction false} NotReleasedYet(steps: seq<Step>, k: nat)
    requires k >= |Asks(steps)|
    ensures !Released(steps, k)
    decreases |steps|
  {
    if steps != [] {
      NotReleasedYet(steps[..|steps| - 1], k);
    }
  }

  lemma AllCallsSnoc(before: seq<Request>, wants: seq<Want>, bases: seq<nat>, want: Want, base: nat)
    requires |wants| == |bases|
    ensures before + AllCalls(wants, bases) + Calls(want.size, want.align, base)
         == before + AllCalls(wants + [want], bases + [base])
  {
    assert (wants + [want])[..|wants|] == wants && (bases + [base])[..|bases|] == bases;
  }

  /** One step, seen in the books. */
  lemma {:induction false} AskBooked(before: seq<Request>, asked: seq<Request>, steps: seq<Step>, bases: seq<nat>,
                                     handles: seq<nat>, s: Step, base: nat, p: nat)
    requires Booked(before, asked, steps, bases, handles) && s.Ask? && HandleIs(s.want, base, false, p)
    ensures Booked(before, asked + Calls(s.want.size, s.want.align, base), steps + [s], bases + [base], handles + [p])
  {
    NewestNotReleased(steps, s);
    SameHandles(steps, bases, handles, s, base, p);
    StepsSnoc(steps, s);
    AllCallsSnoc(before, Asks(steps), bases, s.want, base);
  }

  lemma {:induction false} NewestNotReleased(steps: seq<Step>, s: Step)
    requires s.Ask?
    ensures !Released(steps + [s], |Asks(steps)|)
  {
    StepsSnoc(steps, s);
    NotReleasedYet(steps, |Asks(steps)|);
  }

  lemma {:induction false} SameHandles(steps: seq<Step>, bases: seq<nat>, handles: seq<nat>, s: Step,
                                       base: nat, p: nat)
    requires HandlesAre(steps, bases, handles) && s.Ask?
    requires HandleIs(s.want, base, Released(steps + [s], |handles|), p)
    ensures HandlesAre(steps + [s], bases + [base], handles + [p])
  {
    StepsSnoc(steps, s);
    var bases', handles' := bases + [base], handles + [p];
    forall k: nat | k < |handles'|
      ensures HandleIs(Asks(steps + [s])[k], bases'[k], Released(steps + [s], k), handles'[k])
    {
      if k < |handles| {
        assert HandleIs(Asks(steps)[k], bases[k], Released(steps, k), handles[k]);
      }
    }
  }

  lemma {:induction false} OtherBooked(before: seq<Request>, asked: seq<Request>, steps: seq<Step>, bases: seq<nat>,
                                       handles: seq<nat>, s: Step)
    requires Booked(before, asked, steps, bases, handles) && !s.Ask?
    ensures Booked(before, asked, steps + [s], bases,
                   if s.Release? && s.k < |handles| then handles[s.k := 0] else handles)
  {
    StepsSnoc(steps, s);
  }

  lemma {:induction false} NoImageYet(steps: seq<Step>, k: nat)
    requires k >= |Asks(steps)|
    ensures Image(steps, k) == map[]
    decreases |steps|
  {
    if steps != [] {
      NoImageYet(steps[..|steps| - 1], k);
    }
  }

  lemma StepsSnoc(steps: seq<Step>, s: Step)
    ensures (steps + [s])[..|steps + [s]| - 1] == steps
  {
  }

  /** A block keeps its bytes through any step that leaves held bytes alone. The blocks held are those of
      a sound heap that contains it: the one before an allocation, the one after a release. */
  lemma {:induction false} StillServes(mem: seq<Byte>, mem': seq<Byte>, live: map<nat, Block>, live': map<nat, Block>,
                                       steps: seq<Step>, bases: seq<nat>, bases': seq<nat>, s: Step, k: nat, p: nat,
                                       m: seq<Byte>, raw: map<nat, nat>, l: map<nat, Block>)
    requires Serves(mem, live, steps, bases, k, p) && bases <= bases' && !(s.Store? && s.k == k)
    requires Sound(m, raw, l) && HeldUnchanged(raw, mem, mem')
    requires p in l && l[p] == live[p] && p in live' && live'[p] == live[p]
    ensures Serves(mem', live', steps + [s], bases', k, p)
  {
    StepsSnoc(steps, s);
    forall i | i in Image(steps, k)
      ensures mem'[p + i] == mem[p + i]
    {
      UserBytesHeld(m, raw, l, p, i);
    }
  }

  /** A held handle names a live block of the size asked for. */
  lemma {:induction false} HandleIsLive(mem: seq<Byte>, live: map<nat, Block>, steps: seq<Step>, bases: seq<nat>,
                                        handles: seq<nat>, k: nat)
    requires ServesAll(mem, live, steps, bases, handles) && k < |handles| && handles[k] != 0
    ensures handles[k] in live && live[handles[k]].size == Asks(steps)[k].size
  {
    assert Serves(mem, live, steps, bases, k, handles[k]);
  }

  /** A store at byte `i` of block `q`, seen by its owner and by the owner of another block. */
  lemma {:induction false} StoreSeen(mem: seq<Byte>, raw: map<nat, nat>, live: map<nat, Block>, steps: seq<Step>,
                                     bases: seq<nat>, s: Step, q: nat, k: nat, p: nat)
    requires Sound(mem, raw, live) && Serves(mem, live, steps, bases, k, p)
    requires s.Store? && q in live && s.i < live[q].size && q + s.i < U32
    requires if k == s.k then p == q else p != q
    ensures Serves(mem[q + s.i := s.v], live, steps + [s], bases, k, p)
  {
    StepsSnoc(steps, s);
    if k != s.k {
      LiveBlocksApart(mem, raw, live, p, q);
    }
  }

  /** Storing updates the owner's image and nobody else's. */
  lemma {:induction false} StoreServes(mem: seq<Byte>, raw: map<nat, nat>, live: map<nat, Block>, steps: seq<Step>,
                                       bases: seq<nat>, handles: seq<nat>, s: Step)
    requires Sound(mem, raw, live) && ServesAll(mem, live, steps, bases, handles)
    requires s.Store? && s.k < |handles| && handles[s.k] != 0 && s.i < Asks(steps)[s.k].size
    ensures handles[s.k] + s.i < U32
    ensures ServesAll(mem[handles[s.k] + s.i := s.v], live, steps + [s], bases, handles)
  {
    var q := handles[s.k];
    HandleIsLive(mem, live, steps, bases, handles, s.k);
    UserBytesHeld(mem, raw, live, q, s.i);
    forall k: nat | k < |handles| && handles[k] != 0
      ensures Serves(mem[q + s.i := s.v], live, steps + [s], bases, k, handles[k])
    {
      StoreSeen(mem, raw, live, steps, bases, s, q, k, handles[k]);
    }
    StepsSnoc(steps, s);
  }

  /** A store or release of a block that is not there changes nothing that is promised. */
  lemma {:induction false} SkipServes(mem: seq<Byte>, live: map<nat, Block>, steps: seq<Step>, bases: seq<nat>,
                                      handles: seq<nat>, s: Step)
    requires ServesAll(mem, live, steps, bases, handles)
    requires s.Release? || (s.Store? && !(s.k < |handles| && handles[s.k] != 0 && s.i < Asks(steps)[s.k].size))
    ensures ServesAll(mem, live, steps + [s], bases, handles)
  {
    StepsSnoc(steps, s);
    forall k: nat | k < |handles| && handles[k] != 0
      ensures Serves(mem, live, steps + [s], bases, k, handles[k])
    {
      assert Serves(mem, live, steps, bases, k, handles[k]);
    }
  }

  lemma {:induction false} AskServes(mem: seq<Byte>, raw: map<nat, nat>, live: map<nat, Block>, mem': seq<Byte>,
                                     live': map<nat, Block>, steps: seq<Step>, bases: seq<nat>, handles: seq<nat>,
                                     s: Step, base: nat, p: nat)
    requires Sound(mem, raw, live) && HeldUnchanged(raw, mem, mem') && s.Ask?
    requires ServesAll(mem, live, steps, bases, handles)
    requires if p == 0 then live' == live
             else p !in live && live' == live[p := Block(base, s.want.size)]
    ensures ServesAll(mem', live', steps + [s], bases + [base], handles + [p])
  {
    StepsSnoc(steps, s);
    var handles', bases' := handles + [p], bases + [base];
    forall k: nat | k < |handles'| && handles'[k] != 0
      ensures Serves(mem', live', steps + [s], bases', k, handles'[k])
      ensures k < |handles| ==> handles[k] in live
    {
      if k < |handles| {
        assert Serves(mem, live, steps, bases, k, handles[k]);
        StillServes(mem, mem', live, live', steps, bases, bases', s, k, handles[k], mem, raw, live);
      } else {
        NoImageYet(steps, k);
      }
    }
  }

  lemma {:induction false} ReleaseServes(mem: seq<Byte>, live: map<nat, Block>, mem': seq<Byte>, raw': map<nat, nat>,
                                         live': map<nat, Block>, steps: seq<Step>, bases: seq<nat>,
                                         handles: seq<nat>, s: Step)
    requires Sound(mem', raw', live') && HeldUnchanged(raw', mem, mem') && ServesAll(mem, live, steps, bases, handles)
    requires s.Release? && s.k < |handles| && handles[s.k] != 0 && live' == live - {handles[s.k]}
    ensures ServesAll(mem', live', steps + [s], bases, handles[s.k := 0])
  {
    StepsSnoc(steps, s);
    var handles' := handles[s.k := 0];
    forall k: nat | k < |handles'| && handles'[k] != 0
      ensures Serves(mem', live', steps + [s], bases, k, handles'[k])
    {
      assert Serves(mem, live, steps, bases, k, handles[k]) && handles[k] != handles[s.k];
      StillServes(mem, mem', live, live', steps, bases, bases, s, k, handles[k], mem', raw', live');
    }
  }

  ghost predicate AllNamed(live: map<nat, Block>, handles: seq<nat>) {
    forall p | p in live :: p in handles
  }

  ghost predicate Serving(heap: Heap, steps: seq<Step>, bases: seq<nat>, handles: seq<nat>)
    reads heap
  {
    heap.Valid() && ServesAll(heap.mem, heap.live, steps, bases, handles) && AllNamed(heap.live, handles)
  }

  /** What malloc's contract gives makes a handle; for these alignments the header can record it. */
  lemma {:induction false} HandedOut(want: Want, base: nat, p: nat)
    requires p == Handed(want, base) && (p == 0 <==> base == 0)
    requires PaddedSize(want.size, want.align) == None ==> base == 0
    requires p != 0 ==>
      var padded := PaddedSize(want.size, want.align);
      padded.Some? && WellPlaced(want.size, want.align, base, p, padded.value)
    ensures HandleIs(want, base, false, p) && (p == 0 || p - base < U16)
  {
    if p != 0 {
      RoomForHeader(want.size, want.align);
    }
  }

  lemma {:induction false} RoomForHeader(size: nat, align: nat)
    requires size < U32 && Countable(align) && PaddedSize(size, align).Some?
    ensures PaddedSize(size, align).value >= align + HEADER
  {
    SizeAlignBounds(size, align);
    PadIs(SizeAlign(size, align), size, align);
  }

  method DoAsk(heap: Heap, ghost past: seq<Step>, want: Want, ghost bases: seq<nat>, handles: seq<nat>)
    returns (p: nat, ghost base: nat)
    requires Serving(heap, past, bases, handles)
    modifies heap
    ensures Serving(heap, past + [Ask(want)], bases + [base], handles + [p])
    ensures HandleIs(want, base, false, p)
    ensures heap.asked == old(heap.asked) + Calls(want.size, want.align, base)
  {
    ghost var mem, raw, live := heap.mem, heap.raw, heap.live;
    p, base := heap.Malloc(want.size, want.align);
    HandedOut(want, base, p);
    AskServes(mem, raw, live, heap.mem, heap.live, past, bases, handles, Ask(want), base, p);
    AskNames(live, heap.live, handles, p);
  }

  /** The write behind a store, given what it serves. */
  method StoreAt(heap: Heap, ghost steps: seq<Step>, ghost bases: seq<nat>, handles: seq<nat>, p: nat, i: nat,
                 v: Byte)
    requires heap.Valid() && p in heap.live && i < heap.live[p].size && p + i < |heap.mem|
    requires ServesAll(heap.mem[p + i := v], heap.live, steps, bases, handles) && AllNamed(heap.live, handles)
    modifies heap`mem
    ensures Serving(heap, steps, bases, handles)
  {
    heap.ClientWrite(p, i, v);
  }

  method DoStore(heap: Heap, ghost past: seq<Step>, s: Step, ghost bases: seq<nat>, handles: seq<nat>)
    requires Serving(heap, past, bases, handles)
    requires s.Store? && s.k < |handles| && handles[s.k] != 0 && s.i < Asks(past)[s.k].size
    modifies heap`mem
    ensures Serving(heap, past + [s], bases, handles)
  {
    ghost var mem := heap.mem;
    var p := handles[s.k];
    HandleIsLive(mem, heap.live, past, bases, handles, s.k);
    StoreServes(mem, heap.raw, heap.live, past, bases, handles, s);
    StoreAt(heap, past + [s], bases, handles, p, s.i, s.v);
  }

  method DoRelease(heap: Heap, ghost past: seq<Step>, s: Step, ghost bases: seq<nat>, handles: seq<nat>)
    requires Serving(heap, past, bases, handles) && s.Release? && s.k < |handles| && handles[s.k] != 0
    modifies heap`mem, heap`raw, heap`live
    ensures Serving(heap, past + [s], bases, handles[s.k := 0])
  {
    ghost var mem, live := heap.mem, heap.live;
    var p := handles[s.k];
    HandleIsLive(mem, live, past, bases, handles, s.k);
    OriginOfLive(mem, heap.raw, live, p);
    heap.Free(p);
    ReleaseServes(mem, live, heap.mem, heap.raw, heap.live, past, bases, handles, s);
    ReleaseNames(live, heap.live, handles, s.k);
  }

  lemma {:induction false} AskNames(live: map<nat, Block>, live': map<nat, Block>, handles: seq<nat>, p: nat)
    requires AllNamed(live, handles) && forall q | q in live' :: q in live || q == p
    ensures AllNamed(live', handles + [p])
  {
  }

  lemma {:induction false} ReleaseNames(live: map<nat, Block>, live': map<nat, Block>, handles: seq<nat>, k: nat)
    requires AllNamed(live, handles) && k < |handles| && live' == live - {handles[k]}
    ensures AllNamed(live', handles[k := 0])
  {
    forall q | q in live'
      ensures q in handles[k := 0]
    {
      var j :| 0 <= j < |handles| && handles[j] == q;
      assert handles[k := 0][j] == q;
    }
  }

  /** A store or a release. A client stores only into blocks it holds, and releases only those. */
  method DoOther(heap: Heap, ghost past: seq<Step>, s: Step, ghost bases: seq<nat>, handles: seq<nat>,
                 wants: seq<Want>)
    returns (handles': seq<nat>)
    requires Serving(heap, past, bases, handles) && wants == Asks(past) && !s.Ask?
    modifies heap`mem, heap`raw, heap`live
    ensures Serving(heap, past + [s], bases, handles')
    ensures handles' == if s.Release? && s.k < |handles| then handles[s.k := 0] else handles
  {
    handles' := handles;
    if s.k >= |handles| || handles[s.k] == 0 || (s.Store? && s.i >= wants[s.k].size) {
      SkipServes(heap.mem, heap.live, past, bases, handles, s);
    } else if s.Store? {
      DoStore(heap, past, s, bases, handles);
    } else {
      DoRelease(heap, past, s, bases, handles);
      handles' := handles[s.k := 0];
    }
  }

  /** One step. */
  method Perform(heap: Heap, ghost before: seq<Request>, ghost past: seq<Step>, s: Step,
                 ghost bases: seq<nat>, handles: seq<nat>, wants: seq<Want>)
    returns (handles': seq<nat>, ghost bases': seq<nat>)
    requires Serving(heap, past, bases, handles) && wants == Asks(past)
    requires Booked(before, heap.asked, past, bases, handles)
    modifies heap
    ensures Serving(heap, past + [s], bases', handles')
    ensures Booked(before, heap.asked, past + [s], bases', handles')
  {
    ghost var asked := heap.asked;
    if s.Ask? {
      var p;
      ghost var base;
      p, base := DoAsk(heap, past, s.want, bases, handles);
      AskBooked(before, asked, past, bases, handles, s, base, p);
      handles', bases' := handles + [p], bases + [base];
    } else {
      handles' := DoOther(heap, past, s, bases, handles, wants);
      bases' := bases;
      OtherBooked(before, asked, past, bases, handles, s);
    }
  }

  /** Any run of requests, stores and releases from an empty heap. Malloc is asked for exactly what the
      requests come to. A handle is 0 exactly if malloc was not asked or had nothing to give, or the block
      has been released. Every other handle is a live block in the raw block that answered its request, has
      the size and alignment asked for and holds its owner's last stores; the blocks are distinct, and there
      are no other live blocks, hence (by the heap's validity) no other raw blocks held. */
  method Serve(heap: Heap, steps: seq<Step>) returns (handles: seq<nat>, ghost bases: seq<nat>)
    requires heap.Valid() && heap.live == map[]
    modifies heap
    ensures Serving(heap, steps, bases, handles)
    ensures Booked(old(heap.asked), heap.asked, steps, bases, handles)
    ensures forall k: nat | k < |handles| :: handles[k] == 0 <==> bases[k] == 0 || Released(steps, k)
    ensures forall k: nat | k < |handles| :: handles[k] != 0 ==> Fits(Asks(steps)[k], bases[k], handles[k])
  {
    handles, bases := [], [];
    var wants: seq<Want> := [];
    for n := 0 to |steps|
      invariant Serving(heap, steps[..n], bases, handles) && wants == Asks(steps[..n])
      invariant Booked(old(heap.asked), heap.asked, steps[..n], bases, handles)
    {
      var s := steps[n];
      assert steps[..n + 1] == steps[..n] + [s];
      StepsSnoc(steps[..n], s);
      handles, bases := Perform(heap, old(heap.asked), steps[..n], s, bases, handles, wants);
      if s.Ask? {
        wants := wants + [s.want];
      }
    }
    assert steps[..|steps|] == steps;
  }
}
