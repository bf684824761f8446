/** What the AT24C32 does with a write burst, what its driver wants it to do, and the chunking that
    makes the two agree. Pure definitions and laws; the driver's code is in EepromDriver. */
module EepromSpec {

  newtype byte = x: int | 0 <= x < 256

  const TOTAL: nat := 4096
  const PAGE: nat := 32             // as the driver has it

  // of the chip: its page, and the longest write cycle
  const CHIP_PAGE: nat := 32
  const CYCLE_US: nat := 5_000

  type Image = s: seq<byte> | |s| == TOTAL witness seq(TOTAL, i => 0)

  // ---- the device

  /** The address counter moves inside its page and wraps at the page's end. */
  function NextInPage(a: nat): (r: nat)
    ensures r / CHIP_PAGE == a / CHIP_PAGE
  {
    a / CHIP_PAGE * CHIP_PAGE + (a + 1) % CHIP_PAGE
  }

  /** One write burst as the chip performs it. */
  function PageWrite(mem: Image, at: nat, data: seq<byte>): Image
    requires at < TOTAL
    decreases |data|
  {
    if data == [] then mem
    else PageWrite(mem[at := data[0]], NextInPage(at), data[1..])
  }

  /** A read streams on from its address, rolling over at the end of the memory. */
  function SequentialRead(mem: Image, at: nat, len: nat): seq<byte> {
    seq(len, k requires 0 <= k => mem[(at + k) % TOTAL])
  }

  // ---- flat memory

  function FlatWrite(mem: Image, at: nat, data: seq<byte>): Image
    requires at + |data| <= TOTAL
  {
    seq(TOTAL, i requires 0 <= i < TOTAL => if at <= i < at + |data| then data[i - at] else mem[i])
  }

  lemma {:induction false} PageWriteIsFlatInsidePage(mem: Image, at: nat, data: seq<byte>)
    requires at < TOTAL && at % PAGE + |data| <= PAGE
    ensures at + |data| <= TOTAL && PageWrite(mem, at, data) == FlatWrite(mem, at, data)
    decreases |data|
  {
    if data == [] {
      assert FlatWrite(mem, at, data) == mem;
    } else if |data| == 1 {
      assert PageWrite(mem, at, data) == PageWrite(mem[at := data[0]], NextInPage(at), []);
      assert FlatWrite(mem, at, data) == mem[at := data[0]];
    } else {
      assert NextInPage(at) == at + 1;
      PageWriteIsFlatInsidePage(mem[at := data[0]], at + 1, data[1..]);
      assert FlatWrite(mem[at := data[0]], at + 1, data[1..]) == FlatWrite(mem, at, data);
    }
  }

  /** A burst never leaves its page. */
  lemma {:induction false} PageWriteStaysInPage(mem: Image, at: nat, data: seq<byte>, i: nat)
    requires at < TOTAL && i < TOTAL && i / PAGE != at / PAGE
    ensures PageWrite(mem, at, data)[i] == mem[i]
    decreases |data|
  {
    if data != [] {
      PageWriteStaysInPage(mem[at := data[0]], NextInPage(at), data[1..], i);
    }
  }

  /** Chunking is needed: a burst behaves like flat memory, whatever the memory holds,
      exactly when it fits in its page. */
  lemma {:induction false} BurstIsFlatIffItFits(at: nat, data: seq<byte>)
    requires at < TOTAL && at + |data| <= TOTAL
    ensures (forall mem: Image :: PageWrite(mem, at, data) == FlatWrite(mem, at, data))
       <==> at % PAGE + |data| <= PAGE
  {
    if at % PAGE + |data| <= PAGE {
      forall mem: Image
        ensures PageWrite(mem, at, data) == FlatWrite(mem, at, data)
      {
        PageWriteIsFlatInsidePage(mem, at, data);
      }
    } else {
      var edge := at / PAGE * PAGE + PAGE;
      var v := data[edge - at];
      var mem: Image := seq(TOTAL, i => if v == 0 then 1 else 0);
      PageWriteStaysInPage(mem, at, data, edge);
      assert PageWrite(mem, at, data)[edge] != FlatWrite(mem, at, data)[edge];
    }
  }

  // ---- the chunks of one write

  datatype Chunk = Chunk(at: nat, bytes: seq<byte>)

  /** Bytes from `at` to the end of its page, or all of them if fewer are left. */
  function FirstSize(at: nat, n: nat): nat {
    if n < PAGE - at % PAGE then n else PAGE - at % PAGE
  }

  function Chunks(at: nat, data: seq<byte>): seq<Chunk>
    decreases |data|
  {
    if data == [] then []
    else
      var c := FirstSize(at, |data|);
      [Chunk(at, data[..c])] + Chunks(at + c, data[c..])
  }

  /** How many of `n` bytes the first `k` chunks carry: up to the k-th page boundary. */
  function Covered(at: nat, n: nat, k: nat): (r: nat)
    ensures r <= n
  {
    if k == 0 then 0
    else if n < k * PAGE - at % PAGE then n else k * PAGE - at % PAGE
  }

  function CeilDiv(x: nat, d: nat): nat
    requires d > 0
  {
    (x + d - 1) / d
  }

  /** One page fewer is touched after the first chunk. */
  lemma PagesLeft(at: nat, n: nat)
    requires n > 0
    ensures var c := FirstSize(at, n);
      CeilDiv(at % PAGE + n, PAGE) == 1 + if n == c then 0 else CeilDiv((at + c) % PAGE + (n - c), PAGE)
  {
    var offset := at % PAGE;
    if n > PAGE - offset {
      NextPage(at);
      assert offset + n == PAGE + (n - FirstSize(at, n));
    }
  }

  lemma NextPage(at: nat)
    ensures (at + (PAGE - at % PAGE)) % PAGE == 0
  {
  }

  /** The number of chunks is the number of pages touched. */
  lemma {:induction false} ChunkCount(at: nat, data: seq<byte>)
    ensures |Chunks(at, data)| == if data == [] then 0 else CeilDiv(at % PAGE + |data|, PAGE)
    decreases |data|
  {
    if data != [] {
      var c := FirstSize(at, |data|);
      ChunkCount(at + c, data[c..]);
      PagesLeft(at, |data|);
    }
  }

  lemma SliceOfSlice<T>(s: seq<T>, c: nat, lo: nat, hi: nat)
    requires lo <= hi && c + hi <= |s|
    ensures s[c..][lo..hi] == s[c + lo..c + hi]
  {
  }

  /** The first chunk, and the rest as the chunks of what follows it. */
  lemma ChunksUnfold(at: nat, data: seq<byte>, c: nat)
    requires data != [] && c == FirstSize(at, |data|)
    ensures 0 < c <= |data| && at % PAGE + c <= PAGE
    ensures Chunks(at, data) == [Chunk(at, data[..c])] + Chunks(at + c, data[c..])
  {
  }

  /** The chunk that carries what the first `k + 1` chunks cover beyond the first `k`. */
  predicate IsChunk(at: nat, data: seq<byte>, k: nat, c: Chunk) {
    var lo, hi := Covered(at, |data|, k), Covered(at, |data|, k + 1);
    lo < hi && c == Chunk(at + lo, data[lo..hi])
  }

  /** After the first `c` bytes the boundaries are those of the rest. */
  lemma CoveredShift(at: nat, n: nat, k: nat)
    requires n > FirstSize(at, n)
    ensures Covered(at, n, k + 1) == FirstSize(at, n) + Covered(at + FirstSize(at, n), n - FirstSize(at, n), k)
  {
    NextPage(at);
  }

  lemma {:induction false} ChunkOfRest(at: nat, data: seq<byte>, k: nat, chunk: Chunk)
    requires var c := FirstSize(at, |data|); |data| > c && IsChunk(at + c, data[c..], k, chunk)
    ensures IsChunk(at, data, k + 1, chunk)
  {
    var n := |data|;
    var c := FirstSize(at, n);
    var lo, hi := Covered(at + c, n - c, k), Covered(at + c, n - c, k + 1);
    CoveredShift(at, n, k);
    CoveredShift(at, n, k + 1);
    assert Covered(at, n, k + 1) == c + lo && Covered(at, n, k + 2) == c + hi;
    SliceOfSlice(data, c, lo, hi);
  }

  lemma FirstIsChunk(at: nat, data: seq<byte>)
    requires data != []
    ensures IsChunk(at, data, 0, Chunk(at, data[..FirstSize(at, |data|)]))
  {
    var c := FirstSize(at, |data|);
    assert data[0..c] == data[..c];
  }

  lemma {:induction false} ChunksIndex(at: nat, data: seq<byte>, k: nat, c: nat)
    requires k < |Chunks(at, data)| && c == FirstSize(at, |data|)
    ensures data != [] && c <= |data|
    ensures k == 0 ==> Chunks(at, data)[k] == Chunk(at, data[..c])
    ensures k > 0 ==> c < |data| && k - 1 < |Chunks(at + c, data[c..])|
    ensures k > 0 ==> Chunks(at, data)[k] == Chunks(at + c, data[c..])[k - 1]
  {
    ChunksUnfold(at, data, c);
  }

  /** Chunk `k` as a slice: from the end of what the chunks before it cover to the end of what it covers. */
  lemma {:induction false} ChunkAt(at: nat, data: seq<byte>, k: nat)
    requires k < |Chunks(at, data)|
    ensures IsChunk(at, data, k, Chunks(at, data)[k])
    decreases k
  {
    var c := FirstSize(at, |data|);
    ChunksIndex(at, data, k, c);
    if k == 0 {
      FirstIsChunk(at, data);
    } else {
      var rest := data[c..];
      ChunkAt(at + c, rest, k - 1);
      ChunkOfRest(at, data, k - 1, Chunks(at + c, rest)[k - 1]);
    }
  }

  /** The chunks tile the range in order: each starts where the one before ended, on a page boundary
      unless it is the first, and runs to the end of its page or of the data without crossing. */
  lemma {:induction false} ChunksTile(at: nat, data: seq<byte>, k: nat)
    requires k < |Chunks(at, data)|
    ensures var c, lo := Chunks(at, data)[k], Covered(at, |data|, k);
      && c.at == at + lo && lo < |data|
      && 0 < |c.bytes| == FirstSize(c.at, |data| - lo)
      && c.at % PAGE + |c.bytes| <= PAGE
      && (k > 0 ==> c.at % PAGE == 0 && c.at == Chunks(at, data)[k - 1].at + |Chunks(at, data)[k - 1].bytes|)
  {
    ChunkAt(at, data, k);
    if k > 0 {
      ChunkAt(at, data, k - 1);
    }
    CoveredNext(at, |data|, k);
  }

  lemma CoveredNext(at: nat, n: nat, k: nat)
    requires Covered(at, n, k) < Covered(at, n, k + 1)
    ensures Covered(at, n, k + 1) - Covered(at, n, k) == FirstSize(at + Covered(at, n, k), n - Covered(at, n, k))
    ensures k > 0 ==> (at + Covered(at, n, k)) % PAGE == 0
  {
  }

  /** The bytes a sequence of chunks carries, in order. */
  function Carried(chunks: seq<Chunk>): seq<byte> {
    if chunks == [] then [] else Carried(chunks[..|chunks| - 1]) + chunks[|chunks| - 1].bytes
  }

  lemma CarriedSnoc(chunks: seq<Chunk>, c: Chunk)
    ensures Carried(chunks + [c]) == Carried(chunks) + c.bytes
  {
  }

  lemma {:induction false} CarriedSlices(at: nat, data: seq<byte>, chunks: seq<Chunk>, k: nat)
    requires k <= |chunks| && forall j | 0 <= j < |chunks| :: IsChunk(at, data, j, chunks[j])
    ensures Carried(chunks[..k]) == data[..Covered(at, |data|, k)]
    decreases k
  {
    if k > 0 {
      CarriedSlices(at, data, chunks, k - 1);
      assert chunks[..k] == chunks[..k - 1] + [chunks[k - 1]];
      CarriedSnoc(chunks[..k - 1], chunks[k - 1]);
      assert IsChunk(at, data, k - 1, chunks[k - 1]);
      JoinSlices(data, Covered(at, |data|, k - 1), Covered(at, |data|, k));
    }
  }

  /** The first `k` chunks carry a prefix of the data, ending at the k-th page boundary or at the end. */
  lemma {:induction false} CarriedIsPrefix(at: nat, data: seq<byte>, k: nat)
    requires k <= |Chunks(at, data)|
    ensures Carried(Chunks(at, data)[..k]) == data[..Covered(at, |data|, k)]
    ensures k == |Chunks(at, data)| ==> Carried(Chunks(at, data)[..k]) == data
  {
    var chunks := Chunks(at, data);
    forall j | 0 <= j < |chunks|
      ensures IsChunk(at, data, j, chunks[j])
    {
      ChunkAt(at, data, j);
    }
    CarriedSlices(at, data, chunks, k);
    if k == |chunks| {
      ChunkCount(at, data);
      AllCovered(at, |data|, k);
      assert data[..|data|] == data;
    }
  }

  lemma JoinSlices<T>(s: seq<T>, lo: nat, hi: nat)
    requires lo <= hi <= |s|
    ensures s[..lo] + s[lo..hi] == s[..hi]
  {
  }

  lemma AllCovered(at: nat, n: nat, k: nat)
    requires k == if n == 0 then 0 else CeilDiv(at % PAGE + n, PAGE)
    ensures Covered(at, n, k) == n
  {
  }

  // ---- transfers and what the memory holds after them

  /** One bus transfer: was the device idle when it began, what was asked, and did it succeed? */
  datatype Transfer =
    | Sent(idle: bool, at: nat, bytes: seq<byte>, ok: bool)
    | Fetched(idle: bool, at: nat, len: nat, ok: bool)

  predicate Commits(t: Transfer, i: nat) {
    t.Sent? && t.ok && t.at <= i < t.at + |t.bytes|
  }

  /** The latest committed byte for address `i`, or the original one. */
  function Latest(initial: Image, log: seq<Transfer>, i: nat): byte
    requires i < TOTAL
  {
    if log == [] then initial[i]
    else
      var t := log[|log| - 1];
      if Commits(t, i) then t.bytes[i - t.at] else Latest(initial, log[..|log| - 1], i)
  }

  /** The transfers that count for a chip: none if it is write-protected. */
  function Effective(protected: bool, log: seq<Transfer>): seq<Transfer> { if protected then [] else log }

  predicate NeverBusy(log: seq<Transfer>) {
    forall t | t in log :: t.idle
  }

  /** The log of chunks sent one by one, all to an idle device and all successful. */
  function SentAll(chunks: seq<Chunk>): (log: seq<Transfer>)
    ensures |log| == |chunks|
  {
    seq(|chunks|, j requires 0 <= j < |chunks| => Sent(true, chunks[j].at, chunks[j].bytes, true))
  }

  /** `mem` is, byte by byte, what was committed last. */
  ghost predicate Holds(initial: Image, log: seq<Transfer>, mem: Image) {
    forall i | 0 <= i < TOTAL :: mem[i] == Latest(initial, log, i)
  }

  /** Appending a transfer to the log changes the latest bytes exactly as the flat write does. */
  lemma {:induction false} HoldsAfter(initial: Image, log: seq<Transfer>, t: Transfer, mem: Image)
    requires Holds(initial, log, mem)
    requires t.Sent? && t.ok ==> t.at + |t.bytes| <= TOTAL
    ensures Holds(initial, log + [t], if t.Sent? && t.ok then FlatWrite(mem, t.at, t.bytes) else mem)
  {
  }

  // ---- the settle time

  const SETTLE_US: nat := 5000

  /** Cycles that pass at least in the wait for a declared maximum of `max` Hz: the computed count with the
      cycle counter (`dwt`), whole rounds of four cycles, at least one, with the software loop. */
  function SettleCycles(max: nat, dwt: bool): nat {
    var count := SETTLE_US * max / 1_000_000;
    if dwt then count else if count < 4 then 4 else count / 4 * 4
  }

  /** 5 ms is a whole number of cycles, or of rounds, at the declared maximum. */
  predicate Adequate(max: nat, dwt: bool) {
    if dwt then max % 200 == 0 else max <= 800 || max % 800 == 0
  }

  /** The wait lets 5 ms pass at every clock up to the declared maximum exactly for an adequate maximum. */
  lemma {:induction false} DelayCoversSettleIff(max: nat, dwt: bool)
    requires max > 0
    ensures (forall hz: nat | 0 < hz <= max :: SettleCycles(max, dwt) * 1_000_000 >= SETTLE_US * hz)
       <==> Adequate(max, dwt)
  {
    var count := SETTLE_US * max / 1_000_000;
    assert count == max / 200;
    assert count / 4 == max / 800;
    if Adequate(max, dwt) {
      assert SettleCycles(max, dwt) * 1_000_000 >= SETTLE_US * max;
    } else {
      assert SettleCycles(max, dwt) * 1_000_000 < SETTLE_US * max;
    }
  }

  lemma {:induction false} SettleIsEnough(max: nat, dwt: bool, hz: nat, cycles: nat)
    requires 0 < hz <= max && Adequate(max, dwt) && cycles >= SettleCycles(max, dwt)
    ensures cycles * 1_000_000 >= SETTLE_US * hz
  {
    DelayCoversSettleIff(max, dwt);
    assert SettleCycles(max, dwt) * 1_000_000 >= SETTLE_US * hz;
  }
}
