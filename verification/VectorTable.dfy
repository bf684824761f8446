/** InstallIRQHandler: the vector table is copied to RAM on the first call and patched there. What the
    processor does with the table is modelled apart from it, after the Armv8-M Architecture Reference
    Manual (Arm DDI 0553): external interrupt n is exception 16 + n, system exceptions have the numbers
    below, and exception e is taken at the handler in entry e of the table that VTOR points to. */
module VectorTable {
  import opened Bits

  const INVALID_HANDLER: nat := UINT32_MAX

  datatype Install = Install(irq: int, handler: nat)

  // ---- the handlers after a sequence of calls

  /** What runs for interrupt `irq` after `calls`, if `original` ran before them. */
  function LastInstalled(calls: seq<Install>, irq: int, original: nat): nat {
    if calls == [] then original
    else
      var c := calls[|calls| - 1];
      if c.irq == irq then c.handler else LastInstalled(calls[..|calls| - 1], irq, original)
  }

  /** Call `i` is the last one for `irq`. */
  ghost predicate LatestFor(calls: seq<Install>, irq: int, i: nat) {
    && i < |calls| && calls[i].irq == irq
    && forall j | i < j < |calls| :: calls[j].irq != irq
  }

  ghost predicate NeverSet(calls: seq<Install>, irq: int) {
    forall j | 0 <= j < |calls| :: calls[j].irq != irq
  }

  /** It is the handler of the last call for that interrupt, or the original one. */
  lemma {:induction false} LastInstalledIs(calls: seq<Install>, irq: int, original: nat)
    ensures NeverSet(calls, irq) ==> LastInstalled(calls, irq, original) == original
    ensures forall i: nat | LatestFor(calls, irq, i) :: LastInstalled(calls, irq, original) == calls[i].handler
    decreases |calls|
  {
    if calls != [] {
      var prior := calls[..|calls| - 1];
      LastInstalledIs(prior, irq, original);
      forall i: nat | LatestFor(calls, irq, i)
        ensures LastInstalled(calls, irq, original) == calls[i].handler
      {
        if i < |prior| {
          assert LatestFor(prior, irq, i);
        }
      }
    }
  }

  /** What one more call changes. */
  lemma {:induction false} OneMore(calls: seq<Install>, i: nat)
    requires i < |calls|
    ensures forall irq, original ::
              LastInstalled(calls[..i + 1], irq, original)
              == (if calls[i].irq == irq then calls[i].handler else LastInstalled(calls[..i], irq, original))
  {
    var more := calls[..i + 1];
    assert more != [] && more[..|more| - 1] == calls[..i] && more[|more| - 1] == calls[i];
    forall irq: int, original: nat
      ensures LastInstalled(more, irq, original)
           == (if calls[i].irq == irq then calls[i].handler else LastInstalled(calls[..i], irq, original))
    {
    }
  }

  // ---- the code

  class Core {
    const rom: seq<nat>       // __VECTOR_TABLE, as linked
    const ram: array<nat>     // __VECTOR_RAM
    const ramAddress: nat
    var vtor: nat
    var primask: nat
    ghost var copies: nat

    constructor (rom: seq<nat>, ram: array<nat>, ramAddress: nat, vtor: nat, primask: nat)
      requires ram.Length <= |rom|
      ensures Valid() && this.rom == rom && this.ram == ram && copies == 0
      ensures this.ramAddress == ramAddress && this.vtor == vtor && this.primask == primask
    {
      this.rom, this.ram, this.ramAddress, this.vtor, this.primask := rom, ram, ramAddress, vtor, primask;
      copies := 0;
    }

    ghost predicate Valid()
      reads this
    {
      ram.Length <= |rom|
    }

    /** The exceptions the table has an entry for. */
    ghost predicate Listed(irq: int)
      reads this
    {
      0 <= 16 + irq < ram.Length
    }

    /** The processor: the handler it runs when it takes interrupt (or system exception) `irq`. */
    ghost function Taken(irq: int): nat
      requires Valid() && Listed(irq)
      reads this, ram
    {
      var exception := 16 + irq;
      if vtor == ramAddress then ram[exception] else rom[exception]
    }

    /** The upper end of the table is not checked by the function: its callers must keep below it. */
    method InstallIRQHandler(irq: int, handler: nat) returns (ret: nat)
      requires Valid() && (Listed(irq) || irq < -16)
      modifies this, ram
      ensures Valid() && primask == old(primask)
      // refused: nothing changes
      ensures irq < -16 ==>
        ret == 0xFFFF_FFFF && vtor == old(vtor) && ram[..] == old(ram[..]) && copies == old(copies)
      // accepted: the processor runs the new handler for this interrupt and the same as before for every other
      ensures irq >= -16 ==>
        && ret == old(Taken(irq)) && Taken(irq) == handler
        && (forall other | Listed(other) && other != irq :: Taken(other) == old(Taken(other)))
        && vtor == ramAddress && copies == old(copies) + if old(vtor) == ramAddress then 0 else 1
    {
      if irq + 16 < 0 {
        return INVALID_HANDLER;
      }
      var mask := primask;
      primask := 1;
      if vtor != ramAddress {
        for n := 0 to ram.Length
          invariant ram[..n] == rom[..n]
          invariant primask == 1 && vtor == old(vtor) && copies == old(copies)
        {
          ram[n] := rom[n];
        }
        vtor, copies := ramAddress, copies + 1;
      }
      assert forall e | 0 <= e < ram.Length :: ram[e] == old(if vtor == ramAddress then ram[e] else rom[e]);
      ret := ram[irq + 16];
      ram[irq + 16] := handler;
      primask := mask;
    }

    /** Any sequence of calls: the processor runs, for every interrupt, the handler installed last for it or
        the original one; every call returns what would have run before it, or fails and does nothing exactly
        for numbers below -16; the table is copied at most once, and the mask is put back. */
    method InstallAll(calls: seq<Install>) returns (rets: seq<nat>)
      requires Valid() && forall c | c in calls :: Listed(c.irq) || c.irq < -16
      modifies this, ram
      ensures Valid() && primask == old(primask)
      ensures forall irq | Listed(irq) :: Taken(irq) == LastInstalled(calls, irq, old(Taken(irq)))
      ensures copies <= old(copies) + 1 && (old(vtor) == ramAddress ==> copies == old(copies))
      ensures |rets| == |calls|
      ensures forall i | 0 <= i < |calls| ::
                rets[i] == if calls[i].irq < -16 then 0xFFFF_FFFF
                           else LastInstalled(calls[..i], calls[i].irq, old(Taken(calls[i].irq)))
    {
      rets := [];
      for i := 0 to |calls|
        invariant Valid() && primask == old(primask) && |rets| == i
        invariant forall irq | Listed(irq) :: Taken(irq) == LastInstalled(calls[..i], irq, old(Taken(irq)))
        invariant copies == old(copies) || (copies == old(copies) + 1 && old(vtor) != ramAddress && vtor == ramAddress)
        invariant old(vtor) == ramAddress ==> vtor == ramAddress
        invariant forall j | 0 <= j < i ::
                    rets[j] == if calls[j].irq < -16 then 0xFFFF_FFFF
                               else LastInstalled(calls[..j], calls[j].irq, old(Taken(calls[j].irq)))
      {
        var c := calls[i];
        assert c in calls;
        OneMore(calls, i);
        var ret := InstallIRQHandler(c.irq, c.handler);
        rets := rets + [ret];
      }
      assert calls[..|calls|] == calls;
    }
  }
}
