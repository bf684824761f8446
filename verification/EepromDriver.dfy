/** The AT24C32 on its I2C bus, and the driver's read, write and self-test functions. */
module EepromDriver {
  import opened Bits
  import opened EepromSpec
  import CycleDelay

  /** SDK_DEVICE_MAXIMUM_CPU_CLOCK_FREQUENCY of this device; it is adequate for either delay. */
  const MAX_HZ: nat := 150_000_000

  /** A declared maximum clock with which the driver's waits are long enough, and whose count fits the
      32-bit counter. */
  predicate Suitable(max: nat, dwt: bool) {
    max > 0 && Adequate(max, dwt) && CycleDelay.UsecToCount(SETTLE_US, max) <= UINT32_MAX
  }

  lemma DeclaredMaximumIsSuitable(dwt: bool)
    ensures Suitable(MAX_HZ, dwt)
  {
  }

  datatype Status = Ok | I2cError | InvalidAddress | LengthOverflow

  /** The bus with the chip on it. Time is counted in units of which one core cycle is a million
      and one microsecond is `hz`, where `hz` is the actual core clock. */
  class Bus {
    const hz: nat
    const max: nat                    // the clock the driver's waits are computed for
    const dwt: bool                   // is the delay built on the cycle counter or on the software loop?
    const protected: bool             // a write-protected chip acknowledges everything and stores nothing
    const mem: array<byte>
    var now: nat
    var busyUntil: nat                // end of the chip's current write cycle
    ghost const initial: Image        // the chip's contents when the run began
    ghost var flat: Image             // what it holds if it is not protected
    ghost var log: seq<Transfer>      // every transfer since

    constructor (hz: nat, max: nat, dwt: bool, protected: bool, mem: array<byte>)
      requires mem.Length == TOTAL && 0 < hz <= max && Suitable(max, dwt)
      ensures Valid() && this.hz == hz && this.max == max && this.dwt == dwt && this.mem == mem
      ensures this.protected == protected && log == [] && initial == mem[..]
    {
      this.hz, this.max, this.dwt, this.protected, this.mem := hz, max, dwt, protected, mem;
      now, busyUntil, initial, flat, log := 0, 0, mem[..], mem[..], [];
    }

    ghost predicate Wired()
      reads this
    {
      mem.Length == TOTAL && 0 < hz <= max && Suitable(max, dwt)
    }

    ghost predicate Backed()
      reads this, mem
    {
      mem[..] == if protected then initial else flat
    }

    /** Between calls: the chip is idle and holds, byte by byte, what was last committed (or still what it
        held at first, if it is protected); and no transfer ever addressed it during a write cycle. */
    ghost predicate Valid()
      reads this, mem
    {
      && Wired()
      && busyUntil <= now
      && NeverBusy(log)
      && Backed()
      && Holds(initial, log, flat)
    }

    /** LPI2C_MasterTransferBlocking, writing. It may fail at any time, and does fail while the chip
        is in a write cycle; a failed transfer changes nothing and starts no write cycle. */
    method Send(sub: nat, data: seq<byte>) returns (ok: bool)
      requires Wired() && Backed()
      modifies this, mem
      ensures Backed() && now >= old(now)
      ensures log == old(log) + [Sent(old(busyUntil <= now), sub, data, ok)]
      ensures ok ==> old(busyUntil <= now) && busyUntil <= now + CYCLE_US * hz
      ensures ok ==> flat == PageWrite(old(flat), sub % TOTAL, data)
      ensures !ok ==> flat == old(flat) && busyUntil == old(busyUntil)
    {
      var idle := busyUntil <= now;
      var elapsed: nat :| elapsed >= 0;
      now := now + elapsed;
      ok := *;
      ok := ok && idle;
      log := log + [Sent(idle, sub, data, ok)];
      if ok {
        if !protected {
          Burst(sub % TOTAL, data);
        }
        flat := PageWrite(flat, sub % TOTAL, data);
        var cycle: nat :| cycle <= CYCLE_US * hz;
        busyUntil := now + cycle;
      }
    }

    /** The chip takes the bytes of a burst one by one. */
    method Burst(sub: nat, data: seq<byte>)
      requires Wired() && sub < TOTAL
      modifies mem
      ensures mem[..] == PageWrite(old(mem[..]), sub, data)
    {
      var at: nat := sub;
      for k := 0 to |data|
        invariant at < TOTAL
        invariant PageWrite(mem[..], at, data[k..]) == PageWrite(old(mem[..]), sub, data)
      {
        assert data[k..][1..] == data[k + 1..];
        ghost var before := mem[..];
        mem[at] := data[k];
        assert mem[..] == before[at := data[k]];
        at := NextInPage(at);
      }
      assert data[|data|..] == [];
    }

    /** LPI2C_MasterTransferBlocking, reading. */
    method Fetch(sub: nat, len: nat) returns (ok: bool, data: seq<byte>)
      requires Wired()
      modifies this
      ensures now >= old(now) && busyUntil == old(busyUntil) && flat == old(flat)
      ensures log == old(log) + [Fetched(old(busyUntil <= now), sub, len, ok)]
      ensures ok ==> old(busyUntil <= now) && data == SequentialRead(mem[..], sub % TOTAL, len)
    {
      var idle := busyUntil <= now;
      var elapsed: nat :| elapsed >= 0;
      now := now + elapsed;
      ok := *;
      ok := ok && idle;
      log := log + [Fetched(idle, sub, len, ok)];
      data := if ok then SequentialRead(mem[..], sub % TOTAL, len) else [];
    }

    /** SDK_DelayAtLeastUs(5000, the declared maximum clock), with either of its bodies. The counter is
        polled at any moments and from any value; a schedule of reads too short for the loops to end gives
        way to one that reads on every cycle. */
    method Settle()
      requires Wired()
      modifies this`now
      ensures now >= old(now) + CYCLE_US * hz
    {
      var cycles: nat;
      if dwt {
        var start: nat, gaps: seq<CycleDelay.Gap> := *, *;
        var returned, end, _ := CycleDelay.DelayAtLeastUs(SETTLE_US, max, start, gaps);
        if !returned {
          var everyCycle: seq<CycleDelay.Gap> := seq(U32 + CycleDelay.UsecToCount(SETTLE_US, max), k => 1);
          var _, late, _ := CycleDelay.DelayAtLeastUs(SETTLE_US, max, start, everyCycle);
          end := late;
        }
        cycles := end - start;
      } else {
        var rounds := CycleDelay.SoftwareDelayAtLeastUs(SETTLE_US, max);
        RoundsCover(CycleDelay.UsecToCount(SETTLE_US, max), rounds);
        cycles :| cycles >= CycleDelay.ROUND_CYCLES * rounds;
      }
      SettleIsEnough(max, dwt, hz, cycles);
      now := now + cycles * 1_000_000;
    }
  }

  lemma RoundsCover(count: nat, rounds: nat)
    requires rounds >= 1 && CycleDelay.LongEnough(count, 4 * rounds + 3)
    ensures 4 * rounds >= if count < 4 then 4 else count / 4 * 4
  {
  }

  /** The two-byte subaddress, most significant byte first, put together again. */
  function Subaddress(address: nat): (sub: nat)
    requires address < U16
    ensures sub == address
  {
    var hi, lo := address / 256 % 256, address % 256;
    hi * 256 + lo
  }

  /** A burst inside a page, done or failed, leaves the memory as the log says. */
  lemma {:induction false} BurstHolds(initial: Image, log: seq<Transfer>, mem: Image, address: nat,
                                      data: seq<byte>, ok: bool)
    requires Holds(initial, log, mem) && address < TOTAL && address % PAGE + |data| <= PAGE
    ensures address + |data| <= TOTAL && PageWrite(mem, address, data) == FlatWrite(mem, address, data)
    ensures Holds(initial, log + [Sent(true, address, data, ok)], if ok then FlatWrite(mem, address, data) else mem)
  {
    PageWriteIsFlatInsidePage(mem, address, data);
    HoldsAfter(initial, log, Sent(true, address, data, ok), mem);
  }

  /** EEPROM_Write_Raw_Page. */
  method WriteRawPage(bus: Bus, address: nat, data: seq<byte>) returns (ok: bool)
    requires bus.Valid() && address < TOTAL && |data| < U8 && address % PAGE + |data| <= PAGE
    modifies bus, bus.mem
    ensures bus.Wired() && bus.Backed() && bus.now >= old(bus.now)
    ensures address + |data| <= TOTAL
    ensures bus.log == old(bus.log) + [Sent(true, address, data, ok)] && NeverBusy(bus.log)
    ensures bus.flat == if ok then FlatWrite(old(bus.flat), address, data) else old(bus.flat)
    ensures Holds(bus.initial, bus.log, bus.flat)
    ensures bus.busyUntil <= if ok then bus.now + CYCLE_US * bus.hz else bus.now
  {
    ghost var before, log := bus.flat, bus.log;
    assert address % TOTAL == address;
    ok := bus.Send(Subaddress(address), data);
    BurstHolds(bus.initial, log, before, address, data, ok);
    assert bus.flat == if ok then FlatWrite(before, address, data) else before;
  }

  /** A cast to 16 bits, which keeps every value that fits. */
  method Cast16(x: nat) returns (r: nat)
    ensures r == x % U16 && (x < U16 ==> r == x)
  {
    r := x % U16;
  }

  /** The size of the next chunk, with the C casts, none of which truncates. */
  method ChunkSize(current: nat, remaining: nat) returns (size: nat)
    ensures size == FirstSize(current, remaining)
  {
    var pageOffset := current % PAGE % U8;
    assert pageOffset == current % PAGE;
    var maxWritable := (PAGE - pageOffset) % U8;
    assert maxWritable == PAGE - pageOffset;
    size := (if remaining < maxWritable then remaining else maxWritable) % U8;
  }

  /** One chunk: send it and, if it arrived, wait for the chip to settle. */
  method SendChunk(bus: Bus, address: nat, data: seq<byte>) returns (ok: bool)
    requires bus.Valid() && address < TOTAL && 0 < |data| && address % PAGE + |data| <= PAGE
    modifies bus, bus.mem
    ensures bus.Valid() && address + |data| <= TOTAL
    ensures bus.log == old(bus.log) + [Sent(true, address, data, ok)]
    ensures bus.flat == if ok then FlatWrite(old(bus.flat), address, data) else old(bus.flat)
  {
    ok := WriteRawPage(bus, address, data);
    if ok {
      bus.Settle();
    }
  }

  /** `prefix` has been cut off the front of a write of `data` at `address`, and `rest` is left. */
  ghost predicate Cut(address: nat, data: seq<byte>, prefix: seq<Chunk>, rest: seq<byte>) {
    && Carried(prefix) + rest == data
    && Chunks(address, data) == prefix + Chunks(address + |Carried(prefix)|, rest)
  }

  /** Exactly `prefix` has been sent, to a chip that held `was` and with `log` before it. */
  ghost predicate Done(was: Image, log: seq<Transfer>, address: nat, prefix: seq<Chunk>, mem: Image,
                       log': seq<Transfer>) {
    && address + |Carried(prefix)| <= TOTAL
    && mem == FlatWrite(was, address, Carried(prefix))
    && log' == log + SentAll(prefix)
  }

  lemma NothingSent(was: Image, log: seq<Transfer>, address: nat, data: seq<byte>)
    requires address + |data| <= TOTAL
    ensures Cut(address, data, [], data) && Done(was, log, address, [], was, log)
  {
  }

  lemma Regroup<T>(a: seq<T>, b: seq<T>, c: seq<T>)
    ensures a + (b + c) == a + b + c
  {
  }

  /** Cutting off the next chunk, which fits in its page. */
  lemma {:induction false} CutNext(address: nat, data: seq<byte>, prefix: seq<Chunk>, rest: seq<byte>, at: nat,
                                   size: nat)
    requires Cut(address, data, prefix, rest) && rest != []
    requires at == address + |Carried(prefix)| && size == FirstSize(at, |rest|)
    ensures 0 < size <= |rest| && at % PAGE + size <= PAGE
    ensures Chunks(address, data)[|prefix|] == Chunk(at, rest[..size])
    ensures Cut(address, data, prefix + [Chunk(at, rest[..size])], rest[size..])
  {
    var c, tail := Chunk(at, rest[..size]), Chunks(at + size, rest[size..]);
    ChunksUnfold(at, rest, size);
    Regroup(prefix, [c], tail);
    assert Chunks(address, data) == prefix + [c] + tail;
    CutBytes(prefix, c, rest, size);
  }

  lemma {:induction false} CutBytes(prefix: seq<Chunk>, c: Chunk, rest: seq<byte>, size: nat)
    requires size <= |rest| && c.bytes == rest[..size]
    ensures Carried(prefix + [c]) + rest[size..] == Carried(prefix) + rest
    ensures |Carried(prefix + [c])| == |Carried(prefix)| + size
  {
    CarriedSnoc(prefix, c);
    Regroup(Carried(prefix), rest[..size], rest[size..]);
    assert rest[..size] + rest[size..] == rest;
  }

  /** Sending the next chunk. */
  lemma {:induction false} DoneNext(was: Image, log: seq<Transfer>, address: nat, prefix: seq<Chunk>,
                                    mem: Image, log': seq<Transfer>, c: Chunk)
    requires Done(was, log, address, prefix, mem, log')
    requires c.at == address + |Carried(prefix)| && c.at + |c.bytes| <= TOTAL
    ensures Done(was, log, address, prefix + [c], FlatWrite(mem, c.at, c.bytes),
                 log' + [Sent(true, c.at, c.bytes, true)])
  {
  }

  /** The transfers of an accepted write that stopped after `sent` chunks. */
  function Attempt(address: nat, data: seq<byte>, sent: nat): seq<Transfer>
    requires sent <= |Chunks(address, data)|
  {
    var chunks := Chunks(address, data);
    SentAll(chunks[..sent])
    + if sent == |chunks| then [] else [Sent(true, chunks[sent].at, chunks[sent].bytes, false)]
  }

  /** What an accepted write leaves behind after `sent` chunks reached the chip: exactly their flat
      write, and a log of those chunks, followed by the failed one if not all of them arrived. */
  ghost predicate Outcome(was: Image, log: seq<Transfer>, address: nat, data: seq<byte>, sent: nat,
                          mem: Image, log': seq<Transfer>)
    requires address + |data| <= TOTAL
  {
    var chunks := Chunks(address, data);
    && sent <= |chunks|
    && |Carried(chunks[..sent])| <= |data|
    && mem == FlatWrite(was, address, Carried(chunks[..sent]))
    && log' == log + Attempt(address, data, sent)
  }

  lemma {:induction false} Stopped(was: Image, log: seq<Transfer>, address: nat, data: seq<byte>,
                                   prefix: seq<Chunk>, rest: seq<byte>, mem: Image, log': seq<Transfer>)
    requires address + |data| <= TOTAL
    requires Cut(address, data, prefix, rest) && Done(was, log, address, prefix, mem, log')
    ensures var chunks := Chunks(address, data);
      && (rest == [] <==> |prefix| == |chunks|)
      && |prefix| <= |chunks|
      && Outcome(was, log, address, data, |prefix|, mem,
                 if rest == [] then log' else log' + [Sent(true, chunks[|prefix|].at, chunks[|prefix|].bytes, false)])
    ensures rest == [] ==> mem == FlatWrite(was, address, data)
  {
  }

  /** EEPROM_Write_Bytes. `sent` counts the chunks that reached the chip; the call succeeds exactly
      when all of them did. */
  method WriteBytes(bus: Bus, address: nat, data: seq<byte>, len: nat) returns (st: Status, ghost sent: nat)
    requires bus.Valid() && address < U16 && len < U16 && len == |data|
    modifies bus, bus.mem
    ensures bus.Valid() && old(bus.log) <= bus.log
    ensures st == LengthOverflow <==> address + len > 4096
    ensures st == LengthOverflow ==> bus.flat == old(bus.flat) && bus.log == old(bus.log)
    ensures st != LengthOverflow ==>
      && st in {Ok, I2cError} && (st == Ok <==> sent == |Chunks(address, data)|)
      && Outcome(old(bus.flat), old(bus.log), address, data, sent, bus.flat, bus.log)
    ensures st == Ok ==> bus.flat == FlatWrite(old(bus.flat), address, data)
  {
    sent := 0;
    if address + len > TOTAL {
      return LengthOverflow, 0;
    }
    ghost var was, log := bus.flat, bus.log;
    NothingSent(was, log, address, data);
    ghost var prefix: seq<Chunk>, rest := [], data;
    var written := 0;
    while written < len
      invariant written == |Carried(prefix)| && written + |rest| == len && Cut(address, data, prefix, rest)
      invariant bus.Valid() && Done(was, log, address, prefix, bus.flat, bus.log)
      decreases len - written
    {
      var current := Cast16(address + written);
      var remaining := Cast16(len - written);
      var size := ChunkSize(current, remaining);
      CutNext(address, data, prefix, rest, current, size);
      var piece := data[written..written + size];
      assert piece == rest[..size];
      Stopped(was, log, address, data, prefix, rest, bus.flat, bus.log);
      DoneNext(was, log, address, prefix, bus.flat, bus.log, Chunk(current, piece));
      var ok := SendChunk(bus, current, piece);
      if !ok {
        return I2cError, |prefix|;
      }
      CarriedSnoc(prefix, Chunk(current, piece));
      prefix, rest := prefix + [Chunk(current, piece)], rest[size..];
      written := Cast16(written + size);
    }
    Stopped(was, log, address, data, prefix, rest, bus.flat, bus.log);
    return Ok, |prefix|;
  }

  lemma NoRollover(address: nat, k: nat)
    requires address + k < TOTAL
    ensures (address % TOTAL + k) % TOTAL == address + k
  {
    assert address % TOTAL == address;
  }

  /** A read that does not pass the end of the memory. */
  lemma {:induction false} ReadInside(initial: Image, log: seq<Transfer>, mem: Image, address: nat, len: nat,
                                      data: seq<byte>)
    requires Holds(initial, log, mem) && address + len <= TOTAL && data == SequentialRead(mem, address % TOTAL, len)
    ensures data == mem[address..address + len]
    ensures forall k | 0 <= k < len :: data[k] == Latest(initial, log, address + k)
  {
    forall k | 0 <= k < len
      ensures data[k] == mem[address + k]
    {
      NoRollover(address, k);
    }
  }

  /** EEPROM_Read_Bytes. A successful read returns, for each byte, the one committed last. */
  method ReadBytes(bus: Bus, address: nat, len: nat) returns (st: Status, data: seq<byte>)
    requires bus.Valid() && address < U16 && len < U16
    modifies bus
    ensures bus.Valid() && bus.flat == old(bus.flat)
    ensures st == LengthOverflow <==> address + len > 4096
    ensures st == LengthOverflow ==> bus.log == old(bus.log)
    ensures st != LengthOverflow ==>
      st in {Ok, I2cError} && bus.log == old(bus.log) + [Fetched(true, address, len, st == Ok)]
    ensures st == Ok ==>
      && data == bus.mem[address..address + len]
      && forall k | 0 <= k < len ::
           data[k] == Latest(bus.initial, Effective(bus.protected, old(bus.log)), address + k)
  {
    if address + len > TOTAL {
      return LengthOverflow, [];
    }
    ghost var log := bus.log;
    var ok;
    ok, data := bus.Fetch(Subaddress(address), len);
    HoldsAfter(bus.initial, log, Fetched(true, address, len, ok), bus.flat);
    if ok {
      ReadInside(bus.initial, Effective(bus.protected, log), bus.mem[..], address, len, data);
    }
    st := if ok then Ok else I2cError;
  }

  /** The token written by the self-test: never the byte it replaces. */
  function Token(original: byte): (t: byte)
    ensures t != original
  {
    if original == 0xAA then 0x55 else 0xAA
  }

  /** The self-test's four transfers when all succeed, for a chip whose byte 0 is `b`. */
  function TestSteps(b: byte): (steps: seq<Transfer>)
    ensures |steps| == 4
  {
    var token := if b == 0xAA then 0x55 else 0xAA;
    [Fetched(true, 0, 1, true), Sent(true, 0, [token], true), Fetched(true, 0, 1, true), Sent(true, 0, [b], true)]
  }

  function Failed(t: Transfer): Transfer { t.(ok := false) }

  /** The first `done` of them, and the one that failed, if any did: a protected chip fails the comparison
      before the fourth is tried. */
  function TestTransfers(b: byte, done: nat, protected: bool): seq<Transfer>
    requires done <= 4
  {
    if done == 4 || (protected && done == 3) then TestSteps(b)[..done]
    else TestSteps(b)[..done] + [Failed(TestSteps(b)[done])]
  }

  lemma TestNext(log: seq<Transfer>, b: byte, k: nat, protected: bool)
    requires k < 4
    ensures log + TestSteps(b)[..k] + [TestSteps(b)[k]] == log + TestSteps(b)[..k + 1]
    ensures k < 3 ==> log + TestSteps(b)[..k] + [Failed(TestSteps(b)[k])] == log + TestTransfers(b, k, protected)
    ensures k == 3 && !protected ==>
              log + TestSteps(b)[..k] + [Failed(TestSteps(b)[k])] == log + TestTransfers(b, k, protected)
    ensures log + TestSteps(b)[..0] == log
  {
    var steps := TestSteps(b);
    assert steps[..k] + [steps[k]] == steps[..k + 1];
    Regroup(log, steps[..k], [steps[k]]);
    Regroup(log, steps[..k], [Failed(steps[k])]);
  }

  /** Writing one byte at address 0 is one transfer. */
  lemma {:induction false} OneByteAttempt(b: byte, sent: nat)
    requires sent <= |Chunks(0, [b])|
    ensures |Chunks(0, [b])| == 1 && Attempt(0, [b], sent) == [Sent(true, 0, [b], sent == 1)]
    ensures Carried(Chunks(0, [b])[..sent]) == if sent == 1 then [b] else []
  {
    ChunksUnfold(0, [b], 1);
    assert [b][..1] == [b] && [b][1..] == [];
    assert Chunks(1, []) == [];
    assert Chunks(0, [b]) == [Chunk(0, [b])];
    if sent == 1 {
      CarriedIsPrefix(0, [b], 1);
    }
  }

  /** One byte read at address 0. */
  method TestRead(bus: Bus) returns (ok: bool, b: byte)
    requires bus.Valid()
    modifies bus
    ensures bus.Valid() && bus.flat == old(bus.flat) && bus.log == old(bus.log) + [Fetched(true, 0, 1, ok)]
    ensures ok ==> b == old(bus.mem[0])
  {
    var st, data := ReadBytes(bus, 0, 1);
    ok := st == Ok;
    b := if ok then data[0] else 0;
  }

  /** One byte written at address 0. */
  method TestWrite(bus: Bus, b: byte) returns (ok: bool)
    requires bus.Valid()
    modifies bus, bus.mem
    ensures bus.Valid() && bus.log == old(bus.log) + [Sent(true, 0, [b], ok)]
    ensures bus.flat == if ok then old(bus.flat)[0 := b] else old(bus.flat)
  {
    ghost var was := bus.flat;
    var st, sent := WriteBytes(bus, 0, [b], 1);
    ok := st == Ok;
    OneByteAttempt(b, sent);
    assert FlatWrite(was, 0, [b]) == was[0 := b] && FlatWrite(was, 0, []) == was;
  }

  /** The first half of the self-test: read byte 0 and replace it by the token. */
  method Overwrite(bus: Bus) returns (ok: bool, original: byte, ghost done: nat)
    requires bus.Valid()
    modifies bus, bus.mem
    ensures bus.Valid() && done <= 2 && (ok <==> done == 2) && (ok ==> original == old(bus.mem[0]))
    ensures bus.log == old(bus.log)
      + if ok then TestSteps(old(bus.mem[0]))[..2] else TestTransfers(old(bus.mem[0]), done, bus.protected)
    ensures bus.flat == if ok then old(bus.flat)[0 := Token(old(bus.mem[0]))] else old(bus.flat)
  {
    ghost var log, b := bus.log, bus.mem[0];
    TestNext(log, b, 0, bus.protected);
    ok, original := TestRead(bus);
    done := 0;
    if ok {
      TestNext(log, b, 1, bus.protected);
      ok := TestWrite(bus, Token(original));
      done := if ok then 2 else 1;
    }
  }

  /** The second half: read byte 0 again and, if it shows the token, put back the original. */
  method PutBack(bus: Bus, original: byte, ghost log: seq<Transfer>) returns (ok: bool, ghost done: nat)
    requires bus.Valid() && bus.mem[0] == (if bus.protected then original else Token(original))
    requires bus.log == log + TestSteps(original)[..2]
    modifies bus, bus.mem
    ensures bus.Valid() && 2 <= done <= 4 && (ok <==> done == 4) && (bus.protected ==> !ok)
    ensures bus.log == log + TestTransfers(original, done, bus.protected)
    ensures bus.flat == if ok then old(bus.flat)[0 := original] else old(bus.flat)
  {
    TestNext(log, original, 2, bus.protected);
    var verify;
    ok, verify := TestRead(bus);
    done := if ok then 3 else 2;
    ok := ok && verify == Token(original);
    if ok {
      TestNext(log, original, 3, bus.protected);
      ok := TestWrite(bus, original);
      done := if ok then 4 else 3;
    }
  }

  /** EEPROM_Init. `done` counts the transfers that succeeded. The test passes exactly when all four do, which
      never happens for a protected chip, and then leaves every byte as it was; only byte 0 can differ after a
      failure, and it holds the token exactly when the token was stored and not yet replaced. */
  method SelfTest(bus: Bus) returns (st: Status, ghost done: nat)
    requires bus.Valid()
    modifies bus, bus.mem
    ensures bus.Valid() && st in {Ok, I2cError} && done <= 4 && (st == Ok <==> done == 4)
    ensures bus.protected ==> st == I2cError
    ensures bus.log == old(bus.log) + TestTransfers(old(bus.mem[0]), done, bus.protected)
    ensures bus.flat == if done in {2, 3} then old(bus.flat)[0 := Token(old(bus.mem[0]))] else old(bus.flat)
    ensures bus.mem[..] == if !bus.protected && done in {2, 3} then old(bus.mem[..])[0 := Token(old(bus.mem[0]))]
                           else old(bus.mem[..])
  {
    ghost var was, log := bus.flat, bus.log;
    var ok, original;
    ok, original, done := Overwrite(bus);
    if ok {
      ok, done := PutBack(bus, original, log);
      ThereAndBack(was, Token(original));
    }
    st := if ok then Ok else I2cError;
  }

  lemma ThereAndBack(mem: seq<byte>, token: byte)
    requires |mem| > 0
    ensures mem[0 := token][0 := mem[0]] == mem
  {
  }

  // ---- whole runs

  datatype Call = Write(address: nat, data: seq<byte>) | Read(address: nat, len: nat) | Test

  /** One call's outcome: its status and what it read. */
  datatype Result = Result(call: Call, st: Status, data: seq<byte>)

  predicate WellTyped(call: Call) {
    match call
    case Write(address, data) => address < U16 && |data| < U16
    case Read(address, len) => address < U16 && len < U16
    case Test => true
  }

  ghost predicate StoppedEarly(address: nat, data: seq<byte>, transfers: seq<Transfer>) {
    exists sent: nat :: sent < |Chunks(address, data)| && transfers == Attempt(address, data, sent)
  }

  /** What a result promises, given the log of the whole run, of which the call added the transfers
      from `since` to `upto`. Rejected calls add none. */
  ghost predicate Explained(initial: Image, protected: bool, log: seq<Transfer>, r: Result, since: nat, upto: nat) {
    && since <= upto <= |log|
    && match r.call
       case Write(address, data) =>
         && (r.st == LengthOverflow <==> address + |data| > TOTAL)
         && (match r.st
            case Ok => log[since..upto] == Attempt(address, data, |Chunks(address, data)|)
            case I2cError => StoppedEarly(address, data, log[since..upto])
            case LengthOverflow => since == upto
            case InvalidAddress => false)
       case Read(address, len) =>
         && (r.st == LengthOverflow <==> address + len > TOTAL)
         && (match r.st
            case Ok =>
              && log[since..upto] == [Fetched(true, address, len, true)]
              && |r.data| == len
              && (var before := Effective(protected, log[..since]);
                 forall k | 0 <= k < len :: r.data[k] == Latest(initial, before, address + k))
            case I2cError => log[since..upto] == [Fetched(true, address, len, false)]
            case LengthOverflow => since == upto
            case InvalidAddress => false)
       case Test =>
         && r.st in {Ok, I2cError}
         && exists done: nat | done <= 4 :: (r.st == Ok <==> done == 4)
              && (var before := Effective(protected, log[..since]);
                 log[since..upto] == TestTransfers(Latest(initial, before, 0), done, protected))
  }

  lemma StillExplained(initial: Image, protected: bool, log: seq<Transfer>, log': seq<Transfer>,
                       r: Result, since: nat, upto: nat)
    requires Explained(initial, protected, log, r, since, upto) && log <= log'
    ensures Explained(initial, protected, log', r, since, upto)
  {
    assert log'[..since] == log[..since] && log'[since..upto] == log[since..upto];
  }

  /** Any sequence of reads, writes and self-tests, with any pattern of bus failures: no transfer ever
      meets a busy chip, the statuses determine the transfers, and each successful read returns the
      bytes committed last before it. */
  method Session(bus: Bus, calls: seq<Call>) returns (results: seq<Result>, ghost since: seq<nat>)
    requires bus.Valid() && forall c | c in calls :: WellTyped(c)
    modifies bus, bus.mem
    ensures bus.Valid() && old(bus.log) <= bus.log && NeverBusy(bus.log)
    ensures |results| == |calls| && |since| == |calls| + 1
    ensures since[0] == |old(bus.log)| && since[|calls|] == |bus.log|
    ensures forall i | 0 <= i < |calls| ::
              && results[i].call == calls[i]
              && Explained(bus.initial, bus.protected, bus.log, results[i], since[i], since[i + 1])
  {
    results, since := [], [|bus.log|];
    for i := 0 to |calls|
      invariant bus.Valid() && old(bus.log) <= bus.log && |results| == i && |since| == i + 1
      invariant since[0] == |old(bus.log)| && since[i] == |bus.log|
      invariant forall j | 0 <= j < i ::
                  && results[j].call == calls[j]
                  && Explained(bus.initial, bus.protected, bus.log, results[j], since[j], since[j + 1])
    {
      ghost var log := bus.log;
      var r := Perform(bus, calls[i]);
      forall j | 0 <= j < i
        ensures Explained(bus.initial, bus.protected, bus.log, results[j], since[j], since[j + 1])
      {
        StillExplained(bus.initial, bus.protected, log, bus.log, results[j], since[j], since[j + 1]);
      }
      results, since := results + [r], since + [|bus.log|];
    }
  }

  lemma Suffix<T>(s: seq<T>, prefix: seq<T>, rest: seq<T>)
    requires s == prefix + rest
    ensures s[|prefix|..|s|] == rest && s[..|prefix|] == prefix
  {
  }

  /** Byte 0 of an idle chip. */
  lemma FirstByte(bus: Bus)
    requires bus.Valid()
    ensures bus.mem[0] == Latest(bus.initial, Effective(bus.protected, bus.log), 0)
  {
    assert bus.mem[0] == bus.mem[..][0];
  }

  method Perform(bus: Bus, call: Call) returns (r: Result)
    requires bus.Valid() && WellTyped(call)
    modifies bus, bus.mem
    ensures bus.Valid() && old(bus.log) <= bus.log
    ensures r.call == call && Explained(bus.initial, bus.protected, bus.log, r, |old(bus.log)|, |bus.log|)
  {
    ghost var log := bus.log;
    match call
    case Write(address, data) =>
      var st, sent := WriteBytes(bus, address, data, |data|);
      r := Result(call, st, []);
      if st != LengthOverflow {
        Suffix(bus.log, log, Attempt(address, data, sent));
      }
    case Read(address, len) =>
      var st, data := ReadBytes(bus, address, len);
      r := Result(call, st, data);
      if st != LengthOverflow {
        Suffix(bus.log, log, [Fetched(true, address, len, st == Ok)]);
      }
    case Test =>
      FirstByte(bus);
      var st, done := SelfTest(bus);
      Suffix(bus.log, log, TestTransfers(old(bus.mem[0]), done, bus.protected));
      r := Result(call, st, []);
  }
}
