/** The data-logger task: two ring buffers of 12-byte records in the EEPROM, one filled every 30 s and
    one every 10 min, over a bus that may fail in the middle of a record. */
module DataLogger {
  import opened Bits
  import opened EepromSpec
  import opened EepromDriver

  const RECORD: nat := 12
  const PERIOD_MS: nat := 50
  const HIGH_MAX: nat := 120
  const HIGH_START: nat := 0
  const HIGH_MS: nat := 30_000
  const LONG_MAX: nat := 72
  const LONG_START: nat := HIGH_MAX * RECORD
  const LONG_MS: nat := 600_000

  type Record = r: seq<byte> | |r| == RECORD witness seq(RECORD, i => 0)

  /** Address of slot `k` of a partition. */
  function Slot(start: nat, k: nat): nat { start + k * RECORD }

  /** Slot `k` of a partition holds `r`. */
  predicate HoldsRecord(mem: Image, start: nat, k: nat, r: Record) {
    && Slot(start, k) + RECORD <= TOTAL
    && forall b | 0 <= b < RECORD :: mem[Slot(start, k) + b] == r[b]
  }

  // ---- one record and its chunks

  /** The slots, of a partition that starts a page, whose records cross into the next page. */
  predicate Straddles(k: nat) { k % 8 == 2 || k % 8 == 5 }

  /** How much of the record in slot `k` lies before the page's end. */
  function Head(k: nat): nat { if k % 8 == 2 then 8 else if k % 8 == 5 then 4 else RECORD }

  lemma {:induction false} StraddlesIff(start: nat, k: nat)
    requires start % PAGE == 0
    ensures Straddles(k) <==> Slot(start, k) % PAGE + RECORD > PAGE
    ensures Straddles(k) ==> Head(k) == PAGE - Slot(start, k) % PAGE
  {
    var q, m := k / 8, k % 8;
    assert Slot(start, k) == (start / PAGE + 3 * q + 12 * m / PAGE) * PAGE + 12 * m % PAGE;
    DivModUnique(Slot(start, k), PAGE, start / PAGE + 3 * q + 12 * m / PAGE, 12 * m % PAGE);
  }

  /** Two records in eight take two transfers, the others one. */
  lemma {:induction false} RecordChunks(start: nat, k: nat, r: Record)
    requires start % PAGE == 0
    ensures |Chunks(Slot(start, k), r)| == if Straddles(k) then 2 else 1
  {
    StraddlesIff(start, k);
    ChunkCount(Slot(start, k), r);
  }

  /** The memory after `sent` chunks of a record reached the chip. */
  function AfterChunks(mem: Image, at: nat, r: Record, sent: nat): Image
    requires at + RECORD <= TOTAL && sent <= |Chunks(at, r)|
  {
    CarriedIsPrefix(at, r, sent);
    FlatWrite(mem, at, Carried(Chunks(at, r)[..sent]))
  }

  /** What that is for a slot: all of the record, nothing, or what lies before the page's end. */
  lemma {:induction false} SlotAfterChunks(mem: Image, start: nat, k: nat, r: Record, sent: nat)
    requires start % PAGE == 0 && Slot(start, k) + RECORD <= TOTAL && sent <= |Chunks(Slot(start, k), r)|
    ensures var at := Slot(start, k);
      if sent == |Chunks(at, r)| then AfterChunks(mem, at, r, sent) == FlatWrite(mem, at, r)
      else if sent == 0 then AfterChunks(mem, at, r, sent) == mem
      else Straddles(k) && AfterChunks(mem, at, r, sent) == FlatWrite(mem, at, r[..Head(k)])
  {
    StraddlesIff(start, k);
    RecordChunks(start, k, r);
    CarriedIsPrefix(Slot(start, k), r, sent);
  }

  /** An interrupted write leaves the memory as it was, whatever it holds and whenever it stops, exactly
      in the slots that do not cross a page. */
  lemma {:induction false} InterruptionIsHarmlessIff(start: nat, k: nat)
    requires start % PAGE == 0 && Slot(start, k) + RECORD <= TOTAL
    ensures (forall mem: Image, r: Record, sent: nat | sent < |Chunks(Slot(start, k), r)| ::
               AfterChunks(mem, Slot(start, k), r, sent) == mem)
       <==> Slot(start, k) % PAGE + RECORD <= PAGE
    ensures Slot(start, k) % PAGE + RECORD <= PAGE <==> k % 8 !in {2, 5}
  {
    var at := Slot(start, k);
    StraddlesIff(start, k);
    if Straddles(k) {
      var mem: Image, r: Record := seq(TOTAL, i => 0), seq(RECORD, i => 1);
      RecordChunks(start, k, r);
      SlotAfterChunks(mem, start, k, r, 1);
      assert AfterChunks(mem, at, r, 1)[at] != mem[at];
    } else {
      forall mem: Image, r: Record, sent: nat | sent < |Chunks(at, r)|
        ensures AfterChunks(mem, at, r, sent) == mem
      {
        RecordChunks(start, k, r);
        SlotAfterChunks(mem, start, k, r, sent);
      }
    }
  }

  /** The third slot, interrupted between its transfers: eight bytes of the new record, four of the old. */
  lemma {:induction false} HalfARecord(mem: Image, was: Record, r: Record)
    requires HoldsRecord(mem, HIGH_START, 2, was) && was[..8] != r[..8] && was[8..] != r[8..]
    ensures |Chunks(24, r)| == 2
    ensures var mem' := AfterChunks(mem, 24, r, 1);
      && HoldsRecord(mem', HIGH_START, 2, r[..8] + was[8..])
      && !HoldsRecord(mem', HIGH_START, 2, was) && !HoldsRecord(mem', HIGH_START, 2, r)
  {
    assert Slot(HIGH_START, 2) == 24;
    RecordChunks(HIGH_START, 2, r);
    SlotAfterChunks(mem, HIGH_START, 2, r, 1);
    var mem' := AfterChunks(mem, 24, r, 1);
    var half: Record := r[..8] + was[8..];
    assert HoldsRecord(mem', HIGH_START, 2, half);
    if HoldsRecord(mem', HIGH_START, 2, was) {
      SameSlot(mem', HIGH_START, 2, was, half);
    }
    if HoldsRecord(mem', HIGH_START, 2, r) {
      SameSlot(mem', HIGH_START, 2, r, half);
    }
  }

  lemma SameSlot(mem: Image, start: nat, k: nat, r: Record, s: Record)
    requires HoldsRecord(mem, start, k, r) && HoldsRecord(mem, start, k, s)
    ensures r == s
  {
    forall b | 0 <= b < RECORD
      ensures r[b] == s[b]
    {
      assert mem[Slot(start, k) + b] == r[b];
    }
  }

  // ---- the ring of one partition

  /** Has the slot that is written next been left half written since the last complete record, and by which? */
  datatype Damage = Intact | TornBy(record: Record)

  /** The history of one partition: records written, oldest first, and how many attempts failed. */
  datatype Partition = Partition(written: seq<Record>, lost: nat, damage: Damage)

  const EMPTY: Partition := Partition([], 0, Intact)

  /** An attempt to write `r` at `at` that got `sent` chunks to the chip. */
  function Attempted(p: Partition, at: nat, r: Record, sent: nat): Partition {
    if sent == |Chunks(at, r)| then Partition(p.written + [r], p.lost, Intact)
    else Partition(p.written, p.lost + 1, if sent == 0 then p.damage else TornBy(r))
  }

  /** What the slot of record `j`, one of the newest `cap`, holds: the record, unless it is the oldest
      and a newer one was torn over its beginning. */
  function Content(p: Partition, cap: nat, j: nat): Record
    requires cap > 0 && j < |p.written|
  {
    if p.damage.TornBy? && j + cap == |p.written|
    then p.damage.record[..Head(j % cap)] + p.written[j][Head(j % cap)..]
    else p.written[j]
  }

  /** The partition keeps the newest `cap` records, record `j` in slot `j % cap`; only a slot that
      crosses a page can be torn. */
  ghost predicate Ring(mem: Image, start: nat, cap: nat, p: Partition)
    requires cap > 0
  {
    && (p.damage.TornBy? ==> Straddles(|p.written| % cap))
    && forall j: nat | |p.written| - cap <= j < |p.written| :: HoldsRecord(mem, start, j % cap, Content(p, cap, j))
  }

  lemma NearbyDiffer(j: nat, n: nat, cap: nat)
    requires 0 < cap && n - cap < j < n
    ensures j % cap != n % cap
  {
    if j % cap == n % cap {
      assert n - j == (n / cap - j / cap) * cap;
      SmallMultiple(n / cap - j / cap, cap);
    }
  }

  /** A write inside slot `k` leaves every other slot of the partition alone. */
  lemma OtherSlotKept(mem: Image, start: nat, k: nat, data: seq<byte>, i: nat, r: Record)
    requires i != k && |data| <= RECORD && Slot(start, k) + |data| <= TOTAL && HoldsRecord(mem, start, i, r)
    ensures HoldsRecord(FlatWrite(mem, Slot(start, k), data), start, i, r)
  {
  }

  /** The slot written next lies in the partition. */
  lemma NextSlot(start: nat, cap: nat, n: nat)
    requires 0 < cap && start + cap * RECORD <= TOTAL
    ensures n % cap < cap && Slot(start, n % cap) + RECORD <= TOTAL
  {
    SlotInside(start, cap, n % cap);
  }

  lemma SlotInside(start: nat, cap: nat, k: nat)
    requires k < cap && start + cap * RECORD <= TOTAL
    ensures Slot(start, k) + RECORD <= TOTAL
  {
  }

  /** An attempt at the next slot, however much of the record arrived, leaves the ring of the attempt:
      a complete record moves the window on by one, an interrupted one changes nothing or the beginning
      of the oldest record. */
  lemma {:induction false} RingAfterAttempt(mem: Image, start: nat, cap: nat, p: Partition, r: Record, sent: nat)
    requires 0 < cap && start % PAGE == 0 && start + cap * RECORD <= TOTAL && Ring(mem, start, cap, p)
    requires sent <= |Chunks(Slot(start, |p.written| % cap), r)|
    ensures Slot(start, |p.written| % cap) + RECORD <= TOTAL
    ensures var at := Slot(start, |p.written| % cap);
      Ring(AfterChunks(mem, at, r, sent), start, cap, Attempted(p, at, r, sent))
  {
    var n := |p.written|;
    var k := n % cap;
    NextSlot(start, cap, n);
    var at := Slot(start, k);
    SlotAfterChunks(mem, start, k, r, sent);
    if sent == |Chunks(at, r)| {
      RingMovesOn(mem, start, cap, p, k, r);
    } else if sent > 0 {
      RingIsTorn(mem, start, cap, p, k, r);
    } else {
      RingIsAsBefore(mem, start, cap, p);
    }
  }

  /** The beginning of a record written over a slot. */
  lemma SlotWritten(mem: Image, start: nat, k: nat, was: Record, head: nat, r: Record)
    requires head <= RECORD && Slot(start, k) + RECORD <= TOTAL
    requires head < RECORD ==> HoldsRecord(mem, start, k, was)
    ensures HoldsRecord(FlatWrite(mem, Slot(start, k), r[..head]), start, k, r[..head] + was[head..])
  {
  }

  /** A complete record. */
  lemma {:induction false} RingMovesOn(mem: Image, start: nat, cap: nat, p: Partition, k: nat, r: Record)
    requires 0 < cap && Ring(mem, start, cap, p) && k == |p.written| % cap && Slot(start, k) + RECORD <= TOTAL
    ensures Ring(FlatWrite(mem, Slot(start, k), r), start, cap, Partition(p.written + [r], p.lost, Intact))
  {
    var n, p' := |p.written|, Partition(p.written + [r], p.lost, Intact);
    forall j: nat | n + 1 - cap <= j < n + 1
      ensures HoldsRecord(FlatWrite(mem, Slot(start, k), r), start, j % cap, Content(p', cap, j))
    {
      if j < n {
        NearbyDiffer(j, n, cap);
        assert HoldsRecord(mem, start, j % cap, Content(p, cap, j));
        OtherSlotKept(mem, start, k, r, j % cap, p.written[j]);
      } else {
        SlotWritten(mem, start, k, r, RECORD, r);
        assert r[..RECORD] == r && r + r[RECORD..] == r;
      }
    }
  }

  /** A torn one. */
  lemma {:induction false} RingIsTorn(mem: Image, start: nat, cap: nat, p: Partition, k: nat, r: Record)
    requires 0 < cap && Ring(mem, start, cap, p)
    requires k == |p.written| % cap && Straddles(k) && Slot(start, k) + RECORD <= TOTAL
    ensures Ring(FlatWrite(mem, Slot(start, k), r[..Head(k)]), start, cap,
                 Partition(p.written, p.lost + 1, TornBy(r)))
  {
    var n, p' := |p.written|, Partition(p.written, p.lost + 1, TornBy(r));
    var mem' := FlatWrite(mem, Slot(start, k), r[..Head(k)]);
    forall j: nat | n - cap <= j < n
      ensures HoldsRecord(mem', start, j % cap, Content(p', cap, j))
    {
      if n - cap < j {
        NearbyDiffer(j, n, cap);
        assert HoldsRecord(mem, start, j % cap, Content(p, cap, j));
        OtherSlotKept(mem, start, k, r[..Head(k)], j % cap, p.written[j]);
      } else {
        OldestSlot(n, cap);
        assert HoldsRecord(mem, start, k, Content(p, cap, j));
        SlotWritten(mem, start, k, Content(p, cap, j), Head(k), r);
        assert Content(p, cap, j)[Head(k)..] == p.written[j][Head(k)..];
      }
    }
  }

  /** None of one. */
  lemma RingIsAsBefore(mem: Image, start: nat, cap: nat, p: Partition)
    requires 0 < cap && Ring(mem, start, cap, p)
    ensures Ring(mem, start, cap, Partition(p.written, p.lost + 1, p.damage))
  {
    var p' := Partition(p.written, p.lost + 1, p.damage);
    forall j: nat | |p.written| - cap <= j < |p.written|
      ensures HoldsRecord(mem, start, j % cap, Content(p', cap, j))
    {
      assert HoldsRecord(mem, start, j % cap, Content(p, cap, j));
    }
  }

  lemma OldestSlot(n: nat, cap: nat)
    requires 0 < cap <= n
    ensures (n - cap) % cap == n % cap
  {
    DivModUnique(n - cap, cap, n / cap - 1, n % cap);
  }

  /** An attempt outside the partition leaves it alone. */
  lemma RingKept(mem: Image, start: nat, cap: nat, p: Partition, at: nat, r: Record, sent: nat)
    requires 0 < cap && Ring(mem, start, cap, p) && at + RECORD <= TOTAL && sent <= |Chunks(at, r)|
    requires at + RECORD <= start || start + cap * RECORD <= at
    ensures Ring(AfterChunks(mem, at, r, sent), start, cap, p)
  {
    CarriedIsPrefix(at, r, sent);
  }

  /** Reading back: stepping backwards from the index, without knowing how much was ever written, finds
      the newest records in order; all but the oldest of a full ring are certainly whole, and so is that
      one unless its slot crosses a page. */
  lemma {:induction false} NewestFirst(mem: Image, start: nat, cap: nat, p: Partition, k: nat)
    requires 0 < cap && Ring(mem, start, cap, p) && 1 <= k <= |p.written| && k <= cap
    ensures var n := |p.written|;
      && HoldsRecord(mem, start, (n % cap + cap - k) % cap, Content(p, cap, n - k))
      && (k < cap || !Straddles(n % cap) ==> Content(p, cap, n - k) == p.written[n - k])
  {
    var n := |p.written|;
    BackwardIndex(n, cap, k);
    assert HoldsRecord(mem, start, (n - k) % cap, Content(p, cap, n - k));
  }

  lemma BackwardIndex(n: nat, cap: nat, k: nat)
    requires 0 < cap && k <= n && k <= cap
    ensures (n % cap + cap - k) % cap == (n - k) % cap
  {
    var q, r := (n - k) / cap, (n - k) % cap;
    assert n % cap + cap - k == (q + 1 - n / cap) * cap + r by {
      assert n == n / cap * cap + n % cap;
      assert n - k == q * cap + r;
    }
    DivModUnique(n % cap + cap - k, cap, q + 1 - n / cap, r);
  }

  lemma NextRound(n: nat, cap: nat)
    requires cap > 0
    ensures if n % cap + 1 >= cap then (n + 1) % cap == 0 && (n + 1) / cap == n / cap + 1
            else (n + 1) % cap == n % cap + 1 && (n + 1) / cap == n / cap
  {
    var q, r := n / cap, n % cap;
    assert n + 1 == q * cap + r + 1;
    if r + 1 >= cap {
      DivModUnique(n + 1, cap, q + 1, 0);
    } else {
      DivModUnique(n + 1, cap, q, r + 1);
    }
  }

  /** Whole intervals of `ms` in `ticks` passes, and milliseconds since the last of them. */
  function Rounds(ticks: nat, ms: nat): nat requires ms > 0 { ticks * PERIOD_MS / ms }
  function Since(ticks: nat, ms: nat): nat requires ms > 0 { ticks * PERIOD_MS % ms }

  /** For an interval of `k` periods, both count passes. */
  lemma TimerIs(ticks: nat, ms: nat, k: nat)
    requires k > 0 && ms == PERIOD_MS * k
    ensures Rounds(ticks, ms) == ticks / k && Since(ticks, ms) == PERIOD_MS * (ticks % k)
  {
    var q, r := ticks / k, ticks % k;
    assert ticks * PERIOD_MS == q * ms + PERIOD_MS * r by {
      assert ticks == q * k + r;
      assert q * k * PERIOD_MS == q * ms;
    }
    DivModUnique(ticks * PERIOD_MS, ms, q, PERIOD_MS * r);
  }

  /** The software timer: add the period, and at the limit start again. */
  lemma TimerStep(ticks: nat, ms: nat)
    requires ms == HIGH_MS || ms == LONG_MS
    ensures var t := Since(ticks, ms) + PERIOD_MS;
      if t >= ms then Since(ticks + 1, ms) == 0 && Rounds(ticks + 1, ms) == Rounds(ticks, ms) + 1
      else Since(ticks + 1, ms) == t != 0 && Rounds(ticks + 1, ms) == Rounds(ticks, ms)
  {
    var k := if ms == HIGH_MS then 600 else 12_000;
    TimerIs(ticks, ms, k);
    TimerIs(ticks + 1, ms, k);
    NextRound(ticks, k);
  }

  /** The intervals in passes of 50 ms: 30 s are 600 of them and 10 min are 12000. */
  lemma {:induction false} IntervalsAre(ticks: nat)
    ensures Since(ticks, HIGH_MS) == 0 <==> ticks % 600 == 0
    ensures Since(ticks, LONG_MS) == 0 <==> ticks % 12_000 == 0
    ensures Rounds(ticks, HIGH_MS) == ticks / 600 && Rounds(ticks, LONG_MS) == ticks / 12_000
  {
    TimerIs(ticks, HIGH_MS, 600);
    TimerIs(ticks, LONG_MS, 12_000);
  }

  /** A partition and the bus log after a pass: one attempt at `at` if it was due, nothing otherwise. */
  ghost predicate Logged(p: Partition, p': Partition, log: seq<Transfer>, log': seq<Transfer>,
                         due: bool, at: nat, r: Record, sent: nat)
  {
    if due then sent <= |Chunks(at, r)| && p' == Attempted(p, at, r, sent) && log' == log + Attempt(at, r, sent)
    else p' == p && log' == log
  }

  /** One attempt at the next slot of the partition at `start`, seen in its ring and in the other partition's. */
  lemma {:induction false} RingsAfterAttempt(mem: Image, start: nat, cap: nat, p: Partition, start': nat,
                                             cap': nat, q: Partition,
                                             r: Record, sent: nat)
    requires 0 < cap && start % PAGE == 0 && start + cap * RECORD <= TOTAL && Ring(mem, start, cap, p)
    requires 0 < cap' && Ring(mem, start', cap', q)
    requires start + cap * RECORD <= start' || start' + cap' * RECORD <= start
    requires sent <= |Chunks(Slot(start, |p.written| % cap), r)|
    ensures var at := Slot(start, |p.written| % cap);
      && at + RECORD <= TOTAL
      && Ring(AfterChunks(mem, at, r, sent), start, cap, Attempted(p, at, r, sent))
      && Ring(AfterChunks(mem, at, r, sent), start', cap', q)
  {
    NextSlot(start, cap, |p.written|);
    SlotWithin(start, cap, |p.written| % cap);
    RingAfterAttempt(mem, start, cap, p, r, sent);
    RingKept(mem, start', cap', q, Slot(start, |p.written| % cap), r, sent);
  }

  lemma SlotWithin(start: nat, cap: nat, k: nat)
    requires k < cap
    ensures start <= Slot(start, k) && Slot(start, k) + RECORD <= start + cap * RECORD
  {
  }

  /** The index after an attempt. */
  lemma {:induction false} NextIndex(p: Partition, cap: nat, at: nat, r: Record, sent: nat)
    requires cap > 0
    ensures var n, k := |Attempted(p, at, r, sent).written|, |p.written| % cap;
      n % cap == if sent != |Chunks(at, r)| then k else if k + 1 >= cap then 0 else k + 1
  {
    NextRound(|p.written|, cap);
  }

  // ---- sequences of passes

  type Positive = n: nat | n > 0 witness 1

  /** A partition's place, capacity and interval. */
  datatype Area = Area(start: nat, cap: Positive, ms: Positive)

  const HIGH: Area := Area(HIGH_START, HIGH_MAX, HIGH_MS)
  const LONG: Area := Area(LONG_START, LONG_MAX, LONG_MS)

  /** The sample at hand in one pass and, if an attempt was due, how many of its chunks arrived. */
  datatype Try = Try(sample: Record, sent: nat)

  /** Where the next record goes. */
  function NextAt(p: Partition, a: Area): nat { Slot(a.start, |p.written| % a.cap) }

  predicate Due(a: Area, ticks: nat) { Since(ticks, a.ms) == 0 }

  /** A partition's history after the passes that follow pass `ticks`. */
  function AfterTries(p: Partition, a: Area, ticks: nat, tries: seq<Try>): Partition {
    if tries == [] then p
    else
      var prior, t := AfterTries(p, a, ticks, tries[..|tries| - 1]), tries[|tries| - 1];
      if Due(a, ticks + |tries|) then Attempted(prior, NextAt(prior, a), t.sample, t.sent) else prior
  }

  /** What the bus saw of pass `i` for this partition. */
  function TryLog(p: Partition, a: Area, ticks: nat, tries: seq<Try>, i: nat): seq<Transfer>
    requires i < |tries|
  {
    var at, t := NextAt(AfterTries(p, a, ticks, tries[..i]), a), tries[i];
    if Due(a, ticks + i + 1) && t.sent <= |Chunks(at, t.sample)| then Attempt(at, t.sample, t.sent) else []
  }

  /** No attempt got more chunks to the chip than its record has. */
  ghost predicate Feasible(p: Partition, a: Area, ticks: nat, tries: seq<Try>) {
    forall i | 0 <= i < |tries| && Due(a, ticks + i + 1) ::
      tries[i].sent <= |Chunks(NextAt(AfterTries(p, a, ticks, tries[..i]), a), tries[i].sample)|
  }

  /** What the bus saw of all passes, the two partitions in turn. */
  function TriesLog(high: Partition, long: Partition, ticks: nat, highs: seq<Try>, longs: seq<Try>): seq<Transfer>
    requires |highs| == |longs|
  {
    if highs == [] then []
    else
      var last := |highs| - 1;
      TriesLog(high, long, ticks, highs[..last], longs[..last])
      + TryLog(high, HIGH, ticks, highs, last) + TryLog(long, LONG, ticks, longs, last)
  }

  /** An attempt was due in pass `i`, and all chunks of its sample arrived. */
  predicate Whole(p: Partition, a: Area, ticks: nat, tries: seq<Try>, i: nat) {
    && i < |tries| && Due(a, ticks + i + 1)
    && tries[i].sent == |Chunks(NextAt(AfterTries(p, a, ticks, tries[..i]), a), tries[i].sample)|
  }

  /** The passes whose samples were stored, in order. */
  function Stored(p: Partition, a: Area, ticks: nat, tries: seq<Try>): seq<nat> {
    if tries == [] then []
    else
      var last := |tries| - 1;
      Stored(p, a, ticks, tries[..last]) + if Whole(p, a, ticks, tries, last) then [last] else []
  }

  lemma WholeOfPrefix(p: Partition, a: Area, ticks: nat, tries: seq<Try>, n: nat, i: nat)
    requires i < n <= |tries|
    ensures Whole(p, a, ticks, tries[..n], i) <==> Whole(p, a, ticks, tries, i)
  {
    assert tries[..n][..i] == tries[..i];
  }

  /** They are exactly the passes in which all of a due sample arrived, and the history has gained exactly
      their samples, in order. */
  lemma {:induction false} StoredAre(p: Partition, a: Area, ticks: nat, tries: seq<Try>)
    ensures var w, written := Stored(p, a, ticks, tries), AfterTries(p, a, ticks, tries).written;
      && (forall i: nat :: i in w <==> Whole(p, a, ticks, tries, i))
      && (forall j, k | 0 <= j < k < |w| :: w[j] < w[k])
      && |written| == |p.written| + |w| && p.written <= written
      && forall j | 0 <= j < |w| :: w[j] < |tries| && written[|p.written| + j] == tries[w[j]].sample
    decreases |tries|
  {
    if tries != [] {
      var last := |tries| - 1;
      var w := Stored(p, a, ticks, tries[..last]);
      StoredAre(p, a, ticks, tries[..last]);
      forall i: nat
        ensures i in Stored(p, a, ticks, tries) <==> Whole(p, a, ticks, tries, i)
      {
        if i < last {
          WholeOfPrefix(p, a, ticks, tries, last, i);
        }
      }
      forall j | 0 <= j < |w|
        ensures w[j] < last
      {
        assert w[j] in w;
      }
    }
  }

  /** What reading back finds after any passes of a fresh logger: stepping backwards from the index, the
      samples of the passes that stored one, latest first. */
  lemma {:induction false} ReadBack(mem: Image, a: Area, tries: seq<Try>, k: nat)
    requires Ring(mem, a.start, a.cap, AfterTries(EMPTY, a, 0, tries))
    requires 1 <= k <= |Stored(EMPTY, a, 0, tries)| && k <= a.cap
    requires k < a.cap || !Straddles(|Stored(EMPTY, a, 0, tries)| % a.cap)
    ensures var w := Stored(EMPTY, a, 0, tries);
      && w[|w| - k] < |tries|
      && HoldsRecord(mem, a.start, (|w| % a.cap + a.cap - k) % a.cap, tries[w[|w| - k]].sample)
  {
    var w, p := Stored(EMPTY, a, 0, tries), AfterTries(EMPTY, a, 0, tries);
    StoredAre(EMPTY, a, 0, tries);
    NewestHolds(mem, a, p, k, |w|, tries[w[|w| - k]].sample);
  }

  lemma {:induction false} NewestHolds(mem: Image, a: Area, p: Partition, k: nat, n: nat, r: Record)
    requires Ring(mem, a.start, a.cap, p) && n == |p.written| && 1 <= k <= n && k <= a.cap
    requires (k < a.cap || !Straddles(n % a.cap)) && r == p.written[n - k]
    ensures HoldsRecord(mem, a.start, (n % a.cap + a.cap - k) % a.cap, r)
  {
    NewestFirst(mem, a.start, a.cap, p, k);
  }

  /** On a bus that never fails, the samples stored are those of the last pass of each interval. */
  lemma {:induction false} StoredWithoutFailures(a: Area, tries: seq<Try>, k: nat)
    requires k > 0 && a.ms == PERIOD_MS * k
    requires forall i: nat | i < |tries| && Due(a, i + 1) :: Whole(EMPTY, a, 0, tries, i)
    ensures var w := Stored(EMPTY, a, 0, tries);
      |w| == |tries| / k && forall j | 0 <= j < |w| :: w[j] == (j + 1) * k - 1
    decreases |tries|
  {
    if tries != [] {
      var last := |tries| - 1;
      forall i: nat | i < last && Due(a, i + 1)
        ensures Whole(EMPTY, a, 0, tries[..last], i)
      {
        WholeOfPrefix(EMPTY, a, 0, tries, last, i);
      }
      StoredWithoutFailures(a, tries[..last], k);
      DueIs(a, |tries|, k);
      assert Due(a, |tries|) <==> Whole(EMPTY, a, 0, tries, last);
    }
  }

  lemma {:induction false} DueIs(a: Area, n: nat, k: nat)
    requires n > 0 && k > 0 && a.ms == PERIOD_MS * k
    ensures if Due(a, n) then n / k == (n - 1) / k + 1 && n == ((n - 1) / k + 1) * k else n / k == (n - 1) / k
  {
    TimerIs(n, a.ms, k);
    NextRound(n - 1, k);
  }

  /** Attempts, if due, at the first `n` samples. */
  ghost predicate TriesOf(tries: seq<Try>, samples: seq<Record>, n: nat) {
    |tries| == n <= |samples| && forall i | 0 <= i < n :: tries[i].sample == samples[i]
  }

  lemma TriesNext(tries: seq<Try>, samples: seq<Record>, n: nat, t: Try)
    requires n < |samples| && TriesOf(tries, samples, n) && t.sample == samples[n]
    ensures TriesOf(tries + [t], samples, n + 1)
  {
  }

  /** One more pass, in the history and in the log. */
  lemma {:induction false} NextTry(p: Partition, a: Area, ticks: nat, tries: seq<Try>, t: Try,
                                   p': Partition, log: seq<Transfer>, log': seq<Transfer>)
    requires var prior := AfterTries(p, a, ticks, tries);
      Logged(prior, p', log, log', Due(a, ticks + |tries| + 1), NextAt(prior, a), t.sample, t.sent)
    ensures p' == AfterTries(p, a, ticks, tries + [t]) && log' == log + TryLog(p, a, ticks, tries + [t], |tries|)
    ensures Feasible(p, a, ticks, tries) ==> Feasible(p, a, ticks, tries + [t])
  {
    var more := tries + [t];
    assert more[..|tries|] == tries;
    forall i | 0 <= i < |tries|
      ensures more[..i] == tries[..i]
    {
    }
  }

  lemma {:induction false} NextLog(high: Partition, long: Partition, ticks: nat, highs: seq<Try>,
                                   longs: seq<Try>, h: Try, l: Try)
    requires |highs| == |longs|
    ensures TriesLog(high, long, ticks, highs + [h], longs + [l]) == TriesLog(high, long, ticks, highs, longs)
         + TryLog(high, HIGH, ticks, highs + [h], |highs|) + TryLog(long, LONG, ticks, longs + [l], |longs|)
  {
    assert (highs + [h])[..|highs|] == highs && (longs + [l])[..|longs|] == longs;
  }

  /** Both histories and the log at one moment. */
  datatype Moment = Moment(high: Partition, long: Partition, log: seq<Transfer>)

  /** From `from`, after pass `ticks`, these attempts lead to `now`. */
  ghost predicate Ran(from: Moment, ticks: nat, highs: seq<Try>, longs: seq<Try>, now: Moment) {
    && |highs| == |longs|
    && Feasible(from.high, HIGH, ticks, highs) && Feasible(from.long, LONG, ticks, longs)
    && now.high == AfterTries(from.high, HIGH, ticks, highs)
    && now.long == AfterTries(from.long, LONG, ticks, longs)
    && now.log == from.log + TriesLog(from.high, from.long, ticks, highs, longs)
  }

  lemma {:induction false} RanNext(from: Moment, ticks: nat, highs: seq<Try>, longs: seq<Try>, now: Moment,
                                   h: Try, l: Try, mid: seq<Transfer>, next: Moment)
    requires Ran(from, ticks, highs, longs, now)
    requires Logged(now.high, next.high, now.log, mid,
                    Due(HIGH, ticks + |highs| + 1), NextAt(now.high, HIGH), h.sample, h.sent)
    requires Logged(now.long, next.long, mid, next.log,
                    Due(LONG, ticks + |longs| + 1), NextAt(now.long, LONG), l.sample, l.sent)
    ensures Ran(from, ticks, highs + [h], longs + [l], next)
  {
    NextTry(from.high, HIGH, ticks, highs, h, next.high, now.log, mid);
    NextTry(from.long, LONG, ticks, longs, l, next.long, mid, next.log);
    NextLog(from.high, from.long, ticks, highs, longs, h, l);
    Regather(from.log, TriesLog(from.high, from.long, ticks, highs, longs),
             TryLog(from.high, HIGH, ticks, highs + [h], |highs|),
             TryLog(from.long, LONG, ticks, longs + [l], |longs|));
  }

  /** What pass `n` does: every 600th writes a record of 12 bytes into one of 120 slots from byte 0, and every
      12000th one into one of 72 slots from byte 1440. */
  ghost predicate HighTicked(from: Moment, to: Moment, n: nat, t: Try) {
    Logged(from.high, to.high, from.log, to.log, n % 600 == 0, |from.high.written| % 120 * 12, t.sample, t.sent)
  }

  ghost predicate LongTicked(from: Moment, to: Moment, n: nat, t: Try) {
    Logged(from.long, to.long, from.log, to.log,
           n % 12_000 == 0, 1440 + |from.long.written| % 72 * 12, t.sample, t.sent)
  }

  /** First the one, which leaves the other partition alone, then the other; `mid` is the log in between. */
  ghost predicate Ticked(from: Moment, to: Moment, n: nat, mid: seq<Transfer>, h: Try, l: Try) {
    HighTicked(from, Moment(to.high, from.long, mid), n, h) && LongTicked(Moment(to.high, from.long, mid), to, n, l)
  }

  /** The same from what one pass promises. */
  lemma {:induction false} RanTick(from: Moment, ticks: nat, highs: seq<Try>, longs: seq<Try>, now: Moment,
                                   h: Try, l: Try, mid: seq<Transfer>, next: Moment)
    requires Ran(from, ticks, highs, longs, now) && Ticked(now, next, ticks + |highs| + 1, mid, h, l)
    ensures Ran(from, ticks, highs + [h], longs + [l], next)
  {
    IntervalsAre(ticks + |highs| + 1);
    RanNext(from, ticks, highs, longs, now, h, l, mid, next);
  }

  lemma Regather<T>(a: seq<T>, b: seq<T>, c: seq<T>, d: seq<T>)
    ensures a + b + c + d == a + (b + c + d)
  {
  }

  /** The transfers of one attempt lie inside the record's place, and there is at least one. */
  lemma {:induction false} AttemptInside(at: nat, r: Record, sent: nat)
    requires sent <= |Chunks(at, r)|
    ensures Attempt(at, r, sent) != []
    ensures forall t | t in Attempt(at, r, sent) :: t.Sent? && at <= t.at && t.at + |t.bytes| <= at + RECORD
  {
    var chunks := Chunks(at, r);
    ChunkCount(at, r);
    forall k | 0 <= k < |chunks|
      ensures at <= chunks[k].at && chunks[k].at + |chunks[k].bytes| <= at + RECORD
    {
      ChunkAt(at, r, k);
    }
  }

  /** What the bus sees in the pass with number `n`: transfers to the bytes 0 to 1439 for the high-resolution
      partition, exactly if `n` is a multiple of 600, and to the bytes 1440 to 2303 for the long-term one,
      exactly if it is a multiple of 12000. */
  lemma {:induction false} Schedule(high: Partition, long: Partition, ticks: nat, highs: seq<Try>, longs: seq<Try>,
                                    i: nat, n: nat)
    requires i < |highs| == |longs| && n == ticks + i + 1
    requires Feasible(high, HIGH, ticks, highs) && Feasible(long, LONG, ticks, longs)
    ensures TryLog(high, HIGH, ticks, highs, i) != [] <==> n % 600 == 0
    ensures TryLog(long, LONG, ticks, longs, i) != [] <==> n % 12_000 == 0
    ensures forall t | t in TryLog(high, HIGH, ticks, highs, i) :: t.Sent? && t.at + |t.bytes| <= 1440
    ensures forall t | t in TryLog(long, LONG, ticks, longs, i) :: t.Sent? && 1440 <= t.at && t.at + |t.bytes| <= 2304
  {
    IntervalsAre(n);
    if Due(HIGH, n) {
      AttemptInside(NextAt(AfterTries(high, HIGH, ticks, highs[..i]), HIGH), highs[i].sample, highs[i].sent);
    }
    if Due(LONG, n) {
      AttemptInside(NextAt(AfterTries(long, LONG, ticks, longs[..i]), LONG), longs[i].sample, longs[i].sent);
    }
  }

  /** Nothing lost means that every attempt due stored its sample, and no slot is torn. */
  lemma {:induction false} NothingLost(p: Partition, a: Area, ticks: nat, tries: seq<Try>)
    requires p.damage == Intact && AfterTries(p, a, ticks, tries).lost == p.lost
    ensures AfterTries(p, a, ticks, tries).damage == Intact
    ensures forall i: nat | i < |tries| && Due(a, ticks + i + 1) :: Whole(p, a, ticks, tries, i)
    decreases |tries|
  {
    if tries != [] {
      var last := |tries| - 1;
      LostGrows(p, a, ticks, tries[..last]);
      NothingLost(p, a, ticks, tries[..last]);
      forall i: nat | i < last && Due(a, ticks + i + 1)
        ensures Whole(p, a, ticks, tries, i)
      {
        WholeOfPrefix(p, a, ticks, tries, last, i);
      }
    }
  }

  lemma {:induction false} LostGrows(p: Partition, a: Area, ticks: nat, tries: seq<Try>)
    ensures AfterTries(p, a, ticks, tries).lost >= p.lost
    decreases |tries|
  {
    if tries != [] {
      LostGrows(p, a, ticks, tries[..|tries| - 1]);
    }
  }

  /** A partition of a fresh logger that has lost nothing: slot by slot, backwards from the newest, the samples of
      the last passes of the whole intervals, as many as there are slots. */
  lemma {:induction false} LastWindow(mem: Image, a: Area, tries: seq<Try>, k: nat, m: nat)
    requires k > 0 && a.ms == PERIOD_MS * k
    requires var p := AfterTries(EMPTY, a, 0, tries); Ring(mem, a.start, a.cap, p) && p.lost == 0
    requires 1 <= m <= |tries| / k && m <= a.cap
    ensures var r := |tries| / k;
      (r - m + 1) * k - 1 < |tries| && HoldsRecord(mem, a.start, (r - m) % a.cap, tries[(r - m + 1) * k - 1].sample)
  {
    var p, w, r := AfterTries(EMPTY, a, 0, tries), Stored(EMPTY, a, 0, tries), |tries| / k;
    NothingLost(EMPTY, a, 0, tries);
    StoredAre(EMPTY, a, 0, tries);
    StoredWithoutFailures(a, tries, k);
    assert |p.written| == r && p.written[r - m] == tries[w[r - m]].sample;
    assert HoldsRecord(mem, a.start, (r - m) % a.cap, Content(p, a.cap, r - m));
  }

  /** What the memory holds of the high-resolution samples, byte by byte: those of the last hour, one for
      every 600 passes. */
  lemma {:induction false} LastHour(mem: Image, highs: seq<Try>, m: nat, b: nat)
    requires var p := AfterTries(EMPTY, HIGH, 0, highs); Ring(mem, HIGH_START, HIGH_MAX, p) && p.lost == 0
    requires 1 <= m <= 120 && m <= |highs| / 600 && b < 12
    ensures var pass := (|highs| / 600 - m + 1) * 600;
      && |highs| - 72_600 < pass <= |highs|
      && mem[(|highs| / 600 - m) % 120 * 12 + b] == highs[pass - 1].sample[b]
  {
    LastWindow(mem, HIGH, highs, 600, m);
  }

  /** And of the long-term samples: those of the last 12 hours, one for every 12000 passes. */
  lemma {:induction false} LastTwelveHours(mem: Image, longs: seq<Try>, m: nat, b: nat)
    requires var p := AfterTries(EMPTY, LONG, 0, longs); Ring(mem, LONG_START, LONG_MAX, p) && p.lost == 0
    requires 1 <= m <= 72 && m <= |longs| / 12_000 && b < 12
    ensures var pass := (|longs| / 12_000 - m + 1) * 12_000;
      && |longs| - 876_000 < pass <= |longs|
      && mem[1440 + (|longs| / 12_000 - m) % 72 * 12 + b] == longs[pass - 1].sample[b]
  {
    LastWindow(mem, LONG, longs, 12_000, m);
  }

  /** Before the first pass. */
  lemma NothingYet(mem: Image)
    ensures Ring(mem, HIGH_START, HIGH_MAX, EMPTY) && Ring(mem, LONG_START, LONG_MAX, EMPTY)
    ensures Since(0, HIGH_MS) == Since(0, LONG_MS) == 0
  {
  }

  class Logger {
    const bus: Bus
    var highResIndex: nat
    var longTermIndex: nat
    var highResTimerMs: nat
    var longTermTimerMs: nat
    ghost var ticks: nat
    ghost var high: Partition
    ghost var long: Partition

    /** Init_Data_Logger_service: self-test the chip (its verdict is ignored) and start from empty rings. */
    constructor (bus: Bus)
      requires bus.Valid()
      modifies bus, bus.mem
      ensures Valid() && this.bus == bus && ticks == 0 && high == EMPTY && long == EMPTY
    {
      this.bus := bus;
      highResIndex, longTermIndex, highResTimerMs, longTermTimerMs := 0, 0, 0, 0;
      ticks, high, long := 0, EMPTY, EMPTY;
      new;
      var _, _ := SelfTest(bus);
      NothingYet(bus.flat);
    }

    /** Both rings are right, as far as the chip is not protected, and the indices point at the slots to write next. */
    ghost predicate Rings()
      reads this, bus, bus.mem
    {
      && bus.Valid()
      && Ring(bus.flat, HIGH_START, HIGH_MAX, high)
      && Ring(bus.flat, LONG_START, LONG_MAX, long)
      && highResIndex == |high.written| % HIGH_MAX && longTermIndex == |long.written| % LONG_MAX
    }

    /** Besides, every 30 s and every 10 min exactly one record was either written or lost. */
    ghost predicate Valid()
      reads this, bus, bus.mem
    {
      && Rings()
      && highResTimerMs == Since(ticks, HIGH_MS) && longTermTimerMs == Since(ticks, LONG_MS)
      && |high.written| + high.lost == ticks / 600 && |long.written| + long.lost == ticks / 12_000
    }

    ghost function Now(): Moment reads this, bus { Moment(high, long, bus.log) }

    /** Where the next record of each partition goes. */
    ghost function HighAt(): nat reads this { Slot(HIGH_START, |high.written| % HIGH_MAX) }
    ghost function LongAt(): nat reads this { Slot(LONG_START, |long.written| % LONG_MAX) }

    /** EEPROM_Write_Record: success means that all chunks arrived, and a failed write of a record inside
        one page leaves everything as it was. */
    method WriteRecord(address: nat, record: Record) returns (ok: bool, ghost sent: nat)
      requires bus.Valid() && address + RECORD <= TOTAL
      modifies bus, bus.mem
      ensures bus.Valid() && sent <= |Chunks(address, record)| && (ok <==> sent == |Chunks(address, record)|)
      ensures bus.flat == AfterChunks(old(bus.flat), address, record, sent)
      ensures ok ==> bus.flat == FlatWrite(old(bus.flat), address, record)
      ensures !ok && address % PAGE + RECORD <= PAGE ==> bus.flat == old(bus.flat)
      ensures bus.log == old(bus.log) + Attempt(address, record, sent)
    {
      ghost var was := bus.flat;
      var st;
      st, sent := WriteBytes(bus, address, record, RECORD);
      ok := st == Ok;
      ChunkCount(address, record);
      assert FlatWrite(was, address, []) == was;
    }

    /** One pass of the task's loop; the samples are what the shared metrics hold when copied. Exactly the
        partitions that are due are attempted, `highSent` and `longSent` chunks of their samples arrive, and
        the bus sees nothing else; `mid` is its log between the two. */
    method Tick(highSample: Record, longSample: Record)
      returns (ghost mid: seq<Transfer>, ghost highSent: nat, ghost longSent: nat)
      requires Valid()
      modifies this, bus, bus.mem
      ensures Valid() && ticks == old(ticks) + 1
      ensures Ticked(old(Now()), Now(), ticks, mid, Try(highSample, highSent), Try(longSample, longSent))
      // each of these passes has stored its record or lost it
      ensures |high.written| + high.lost == ticks / 600 && |long.written| + long.lost == ticks / 12_000
    {
      ghost var from := Now();
      ticks := ticks + 1;
      highResTimerMs := highResTimerMs + PERIOD_MS;
      longTermTimerMs := longTermTimerMs + PERIOD_MS;
      highSent := HighPartition(highSample);
      mid := bus.log;
      assert HighTicked(from, Now(), ticks, Try(highSample, highSent)) && long == from.long;
      ghost var between := Now();
      longSent := LongPartition(longSample);
      assert LongTicked(between, Now(), ticks, Try(longSample, longSent)) && high == between.high;
    }

    /** One more pass of a sequence. */
    method Pass(highSample: Record, longSample: Record, ghost from: Moment, ghost start: nat,
                ghost highs: seq<Try>, ghost longs: seq<Try>) returns (ghost h: Try, ghost l: Try)
      requires Valid() && ticks == start + |highs| && Ran(from, start, highs, longs, Now())
      modifies this, bus, bus.mem
      ensures Valid() && ticks == old(ticks) + 1 && h.sample == highSample && l.sample == longSample
      ensures Ran(from, start, highs + [h], longs + [l], Now())
    {
      ghost var before := Now();
      var mid, highSent, longSent := Tick(highSample, longSample);
      h, l := Try(highSample, highSent), Try(longSample, longSent);
      RanTick(from, start, highs, longs, before, h, l, mid, Now());
    }

    /** Any number of passes: both histories and the log are those of the attempts made. */
    method Passes(highSamples: seq<Record>, longSamples: seq<Record>) returns (ghost highs: seq<Try>,
                  ghost longs: seq<Try>)
      requires Valid() && |highSamples| == |longSamples|
      modifies this, bus, bus.mem
      ensures Valid() && ticks == old(ticks) + |highSamples|
      ensures TriesOf(highs, highSamples, |highSamples|) && TriesOf(longs, longSamples, |longSamples|)
      ensures Ran(old(Now()), old(ticks), highs, longs, Now())
      ensures |high.written| + high.lost == ticks / 600 && |long.written| + long.lost == ticks / 12_000
    {
      ghost var from, start := Now(), ticks;
      highs, longs := [], [];
      for n := 0 to |highSamples|
        invariant Valid() && ticks == start + n
        invariant TriesOf(highs, highSamples, n) && TriesOf(longs, longSamples, n)
        invariant Ran(from, start, highs, longs, Now())
      {
        var h, l := Pass(highSamples[n], longSamples[n], from, start, highs, longs);
        TriesNext(highs, highSamples, n, h);
        TriesNext(longs, longSamples, n, l);
        highs, longs := highs + [h], longs + [l];
      }
    }

    method HighPartition(sample: Record) returns (ghost sent: nat)
      requires Rings() && ticks > 0 && highResTimerMs == Since(ticks - 1, HIGH_MS) + PERIOD_MS
      requires |high.written| + high.lost == (ticks - 1) / 600
      modifies this`highResTimerMs, this`highResIndex, this`high, bus, bus.mem
      ensures Rings() && highResTimerMs == Since(ticks, HIGH_MS)
      ensures |high.written| + high.lost == ticks / 600
      ensures HighTicked(old(Now()), Now(), ticks, Try(sample, sent))
    {
      IntervalsAre(ticks - 1);
      IntervalsAre(ticks);
      TimerStep(ticks - 1, HIGH_MS);
      sent := 0;
      if highResTimerMs >= HIGH_MS {
        highResTimerMs := 0;
        sent := LogHigh(sample);
      }
    }

    method LongPartition(sample: Record) returns (ghost sent: nat)
      requires Rings() && ticks > 0 && longTermTimerMs == Since(ticks - 1, LONG_MS) + PERIOD_MS
      requires |long.written| + long.lost == (ticks - 1) / 12_000
      modifies this`longTermTimerMs, this`longTermIndex, this`long, bus, bus.mem
      ensures Rings() && longTermTimerMs == Since(ticks, LONG_MS)
      ensures |long.written| + long.lost == ticks / 12_000
      ensures LongTicked(old(Now()), Now(), ticks, Try(sample, sent))
    {
      IntervalsAre(ticks - 1);
      IntervalsAre(ticks);
      TimerStep(ticks - 1, LONG_MS);
      sent := 0;
      if longTermTimerMs >= LONG_MS {
        longTermTimerMs := 0;
        sent := LogLong(sample);
      }
    }

    /** One attempt at the next slot of the partition, the index not moved on yet. */
    method AttemptHigh(record: Record) returns (ok: bool, ghost sent: nat)
      requires Rings()
      modifies this`high, bus, bus.mem
      ensures bus.Valid() && Ring(bus.flat, HIGH_START, HIGH_MAX, high)
      ensures Ring(bus.flat, LONG_START, LONG_MAX, long)
      ensures ok <==> sent == |Chunks(old(HighAt()), record)|
      ensures Logged(old(high), high, old(bus.log), bus.log, true, old(HighAt()), record, sent)
    {
      NextSlot(HIGH_START, HIGH_MAX, |high.written|);
      var target := Cast16(Slot(HIGH_START, highResIndex));
      ghost var was := bus.flat;
      assert target == HighAt();
      ok, sent := WriteRecord(target, record);
      RingsAfterAttempt(was, HIGH_START, HIGH_MAX, high, LONG_START, LONG_MAX, long, record, sent);
      high := Attempted(high, target, record, sent);
    }

    method LogHigh(record: Record) returns (ghost sent: nat)
      requires Rings()
      modifies this`highResIndex, this`high, bus, bus.mem
      ensures Rings() && Logged(old(high), high, old(bus.log), bus.log, true, old(HighAt()), record, sent)
    {
      ghost var was, at := high, HighAt();
      var ok;
      ok, sent := AttemptHigh(record);
      NextIndex(was, HIGH_MAX, at, record, sent);
      if ok {
        highResIndex := highResIndex + 1;
        if highResIndex >= HIGH_MAX {
          highResIndex := 0;
        }
      }
    }

    /** One attempt at the next slot of the partition, the index not moved on yet. */
    method AttemptLong(record: Record) returns (ok: bool, ghost sent: nat)
      requires Rings()
      modifies this`long, bus, bus.mem
      ensures bus.Valid() && Ring(bus.flat, LONG_START, LONG_MAX, long)
      ensures Ring(bus.flat, HIGH_START, HIGH_MAX, high)
      ensures ok <==> sent == |Chunks(old(LongAt()), record)|
      ensures Logged(old(long), long, old(bus.log), bus.log, true, old(LongAt()), record, sent)
    {
      NextSlot(LONG_START, LONG_MAX, |long.written|);
      var target := Cast16(Slot(LONG_START, longTermIndex));
      ghost var was := bus.flat;
      assert target == LongAt();
      ok, sent := WriteRecord(target, record);
      RingsAfterAttempt(was, LONG_START, LONG_MAX, long, HIGH_START, HIGH_MAX, high, record, sent);
      long := Attempted(long, target, record, sent);
    }

    method LogLong(record: Record) returns (ghost sent: nat)
      requires Rings()
      modifies this`longTermIndex, this`long, bus, bus.mem
      ensures Rings() && Logged(old(long), long, old(bus.log), bus.log, true, old(LongAt()), record, sent)
    {
      ghost var was, at := long, LongAt();
      var ok;
      ok, sent := AttemptLong(record);
      NextIndex(was, LONG_MAX, at, record, sent);
      if ok {
        longTermIndex := longTermIndex + 1;
        if longTermIndex >= LONG_MAX {
          longTermIndex := 0;
        }
      }
    }
  }
}
