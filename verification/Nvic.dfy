/** The interrupt controller's registers behind the CMSIS functions and the SDK's wrappers: enable and
    pending bitmaps with write-one-to-set and write-one-to-clear registers, priority bytes, and the
    priority grouping field. Proved against sets of interrupt numbers. */
module Nvic {
  import opened Bits
  import opened PriorityCoding

  const WORDS: nat := 16
  const LINES: nat := WORDS * 32
  const IPR_COUNT: nat := 496
  const SHPR_COUNT: nat := 12
  const NOT_AVAILABLE: int := -128

  datatype Status = Success | Fail

  // ---- bitmaps

  /** The interrupts whose bits are set. */
  function Members(words: seq<nat>): set<nat> {
    set i: nat | i < 32 * |words| && Bit(words[i / 32], i % 32)
  }

  /** Register index and bit mask of an interrupt, as the functions compute them. */
  function Index(irq: nat): nat { ShiftRight(irq, 5) }
  function OneBit(irq: nat): nat { ShiftLeft(1, And(irq, 31, 32), 32) }

  lemma {:induction false} Addressing(irq: nat)
    ensures Index(irq) == irq / 32 && OneBit(irq) == Pow2(irq % 32) < U32
    ensures forall i: nat | i < 32 :: Bit(OneBit(irq), i) <==> i == irq % 32
  {
    Pow2Values();
    ShiftRightIsDivision(irq, 5);
    AndMaskIsMod(irq, 5, 32);
    Pow2Monotone(irq % 32, 31);
    assert Pow2(32) == 2 * Pow2(31);
    DivModUnique(Pow2(irq % 32), Pow2(32), 0, Pow2(irq % 32));
    forall i: nat | i < 32
      ensures Bit(OneBit(irq), i) <==> i == irq % 32
    {
      BitOfPow2(irq % 32, i);
    }
  }

  /** What a write does to a set-register's word, and to a clear-register's: bits written as 0 stay. */
  function WrittenToSet(word: nat, v: nat): (r: nat)
    ensures r < U32
  {
    Pow2Values();
    Or(word, v, 32)
  }

  function WrittenToClear(word: nat, v: nat): (r: nat)
    ensures r < U32
  {
    Pow2Values();
    AndNot(word, v, 32)
  }

  /** Only bit `irq` of the bitmap may differ, and it is `on` now. */
  lemma {:induction false} OneMember(words: seq<nat>, words': seq<nat>, irq: nat, on: bool)
    requires irq < 32 * |words| && |words'| == |words|
    requires forall k | 0 <= k < |words| && k != irq / 32 :: words'[k] == words[k]
    requires forall i: nat | i < 32 ::
               Bit(words'[irq / 32], i) == if i == irq % 32 then on else Bit(words[irq / 32], i)
    ensures Members(words') == if on then Members(words) + {irq} else Members(words) - {irq}
  {
  }

  lemma {:induction false} SettingAdds(words: seq<nat>, irq: nat)
    requires irq < 32 * |words|
    ensures Index(irq) < |words|
    ensures Members(words[Index(irq) := WrittenToSet(words[Index(irq)], OneBit(irq))]) == Members(words) + {irq}
  {
    Addressing(irq);
    var k, v := Index(irq), OneBit(irq);
    forall i: nat | i < 32
      ensures Bit(WrittenToSet(words[k], v), i) == if i == irq % 32 then true else Bit(words[k], i)
    {
      BitwiseAt(Either, words[k], v, 32, i);
    }
    OneMember(words, words[k := WrittenToSet(words[k], v)], irq, true);
  }

  lemma {:induction false} ClearingRemoves(words: seq<nat>, irq: nat)
    requires irq < 32 * |words|
    ensures Index(irq) < |words|
    ensures Members(words[Index(irq) := WrittenToClear(words[Index(irq)], OneBit(irq))]) == Members(words) - {irq}
  {
    Addressing(irq);
    var k, v := Index(irq), OneBit(irq);
    forall i: nat | i < 32
      ensures Bit(WrittenToClear(words[k], v), i) == if i == irq % 32 then false else Bit(words[k], i)
    {
      BitwiseAt(ButNot, words[k], v, 32, i);
    }
    OneMember(words, words[k := WrittenToClear(words[k], v)], irq, false);
  }

  lemma {:induction false} TestingFinds(words: seq<nat>, irq: nat)
    requires irq < 32 * |words|
    ensures Index(irq) < |words|
    ensures And(words[Index(irq)], OneBit(irq), 32) != 0 <==> irq in Members(words)
  {
    Addressing(irq);
    var k, v := Index(irq), OneBit(irq);
    BitwiseAt(Both, words[k], v, 32, irq % 32);
    if irq !in Members(words) {
      forall i: nat | i < 32
        ensures Bit(And(words[k], v, 32), i) == Bit(0, i)
      {
        BitwiseAt(Both, words[k], v, 32, i);
        BitOfSmall(0, 0, i);
      }
      Extensional(And(words[k], v, 32), 0, 32);
    } else {
      BitOfSmall(0, 0, irq % 32);
    }
  }

  // ---- priority bytes

  /** Index of a system handler's byte: `((uint32_t)IRQn & 0xF) - 4`. */
  function SystemIndex(irq: int): int
    requires irq >= -0x8000_0000
  {
    And((irq + U32) as nat, 15, 32) - 4
  }

  /** It names a priority byte exactly for the handlers from -12 up, each its own. */
  lemma {:induction false} SystemIndexIs(irq: int)
    requires -16 <= irq < 0
    ensures SystemIndex(irq) == irq + 12
    ensures 0 <= SystemIndex(irq) < SHPR_COUNT <==> irq >= -12
  {
    Pow2Values();
    AndMaskIsMod((irq + U32) as nat, 4, 32);
  }

  /** Interrupts and system handlers that have a priority byte. */
  predicate HasPriority(irq: int) { -12 <= irq < IPR_COUNT }

  // ---- the grouping field of AIRCR

  const KEY: nat := 0x5FA

  /** The bits of the key and of the group, cleared before the new ones are put in. */
  function ReplacedBits(): nat { Or(ShiftLeft(0xFFFF, 16, 32), ShiftLeft(7, 8, 32), 32) }
  function KeyField(): nat { ShiftLeft(KEY, 16, 32) }
  function GroupField(group: nat): nat { ShiftLeft(And(group, 7, 32), 8, 32) }

  /** The value __NVIC_SetPriorityGrouping writes over `was`. */
  function GroupingWrite(was: nat, group: nat): nat {
    Or(Or(AndNot(was, ReplacedBits(), 32), KeyField(), 32), GroupField(group), 32)
  }

  function GroupingRead(aircr: nat): nat {
    ShiftRight(And(aircr, ShiftLeft(7, 8, 32), 32), 8)
  }

  lemma {:induction false} SevenAt(i: nat)
    ensures Bit(7, i) == (i < 3)
  {
    Pow2Values();
    BitOfMask(3, i);
  }

  lemma {:induction false} FieldsAt(a: nat, j: nat, b: nat, k: nat, i: nat)
    requires i < 32
    ensures Bit(Or(ShiftLeft(a, j, 32), ShiftLeft(b, k, 32), 32), i)
         == ((j <= i && Bit(a, i - j)) || (k <= i && Bit(b, i - k)))
  {
    BitwiseAt(Either, ShiftLeft(a, j, 32), ShiftLeft(b, k, 32), 32, i);
    BitOfShiftLeft(a, j, 32, i);
    BitOfShiftLeft(b, k, 32, i);
  }

  lemma {:induction false} ReplacedBitsAt(i: nat)
    requires i < 32
    ensures Bit(ReplacedBits(), i) == (i >= 16 || 8 <= i <= 10)
  {
    FieldsAt(0xFFFF, 16, 7, 8, i);
    if i >= 8 {
      SevenAt(i - 8);
    }
    if i >= 16 {
      Pow2Values();
      BitOfMask(16, i - 16);
    }
  }

  lemma {:induction false} GroupFieldAt(group: nat, i: nat)
    requires i < 32
    ensures Bit(GroupField(group), i) == (8 <= i <= 10 && Bit(group, i - 8))
  {
    BitOfShiftLeft(And(group, 7, 32), 8, 32, i);
    if i >= 8 {
      BitwiseAt(Both, group, 7, 32, i - 8);
      SevenAt(i - 8);
    }
  }

  /** The write carries the key in bits 16 to 31 and the group in bits 8 to 10; all else is as read. */
  lemma {:induction false} GroupingWriteAt(was: nat, group: nat, i: nat)
    requires i < 32
    ensures Bit(GroupingWrite(was, group), i)
         == if i >= 16 then Bit(KEY, i - 16) else if 8 <= i <= 10 then Bit(group, i - 8) else Bit(was, i)
  {
    ReplacedAt(was, ReplacedBits(), KeyField(), GroupField(group), 32, i);
    ReplacedBitsAt(i);
    BitOfShiftLeft(KEY, 16, 32, i);
    GroupFieldAt(group, i);
  }

  /** Clearing some bits and setting two fields. */
  lemma {:induction false} ReplacedAt(was: nat, cleared: nat, key: nat, field: nat, n: nat, i: nat)
    requires i < n
    ensures Bit(Or(Or(AndNot(was, cleared, n), key, n), field, n), i)
         == ((Bit(was, i) && !Bit(cleared, i)) || Bit(key, i) || Bit(field, i))
  {
    BitwiseAt(ButNot, was, cleared, n, i);
    BitwiseAt(Either, AndNot(was, cleared, n), key, n, i);
    BitwiseAt(Either, Or(AndNot(was, cleared, n), key, n), field, n, i);
  }

  /** The processor's side of a write to AIRCR (Armv8-M Architecture Reference Manual, Arm DDI 0553): it is
      ignored unless its upper half is 0x05FA; then the lower half takes the bits written. */
  ghost predicate AircrAfter(was: nat, written: nat, now: nat) {
    && now < U32
    && if written / U16 == 0x05FA then forall i: nat | i < 16 :: Bit(now, i) == Bit(written, i) else now == was
  }

  /** The write is not ignored. */
  lemma {:induction false} GroupingWriteIsAccepted(was: nat, group: nat)
    ensures GroupingWrite(was, group) / U16 == 0x05FA
  {
    Pow2Values();
    var written := GroupingWrite(was, group);
    assert written < Pow2(32);
    ShiftRightIsDivision(written, 16);
    forall i: nat | i < 16
      ensures Bit(ShiftRight(written, 16), i) == Bit(KEY, i)
    {
      BitOfShiftRight(written, 16, i);
      GroupingWriteAt(was, group, i + 16);
    }
    Extensional(ShiftRight(written, 16), KEY, 16);
  }

  /** Getting the grouping after setting it gives the three bits that were asked for, and no other bit of the
      lower half has changed, whatever the register held and whatever the key field reads as. */
  lemma {:induction false} GroupingReadsBack(was: nat, group: nat, aircr: nat)
    requires AircrAfter(was, GroupingWrite(was, group), aircr)
    ensures GroupingRead(aircr) == group % 8
    ensures forall i: nat | i < 16 && !(8 <= i <= 10) :: Bit(aircr, i) == Bit(was, i)
  {
    GroupingWriteIsAccepted(was, group);
    forall i: nat | i < 16 && !(8 <= i <= 10)
      ensures Bit(aircr, i) == Bit(was, i)
    {
      GroupingWriteAt(was, group, i);
    }
    GroupOfWritten(was, group, aircr);
  }

  lemma {:induction false} GroupOfWritten(was: nat, group: nat, aircr: nat)
    requires aircr < U32 && forall i: nat | i < 16 :: Bit(aircr, i) == Bit(GroupingWrite(was, group), i)
    ensures GroupingRead(aircr) == Group(group)
  {
    Pow2Values();
    var field := And(aircr, ShiftLeft(7, 8, 32), 32);
    forall i: nat | i < 32
      ensures Bit(GroupingRead(aircr), i) == Bit(Group(group), i)
    {
      BitOfShiftRight(field, 8, i);
      BitwiseAt(Both, aircr, ShiftLeft(7, 8, 32), 32, i + 8);
      BitOfShiftLeft(7, 8, 32, i + 8);
      SevenAt(i);
      BitOfMod(group, 3, i);
      if i < 3 {
        GroupingWriteAt(was, group, i + 8);
      }
    }
    ShiftRightIsDivision(field, 8);
    assert field / 256 <= field;
    Extensional(GroupingRead(aircr), Group(group), 32);
  }

  // ---- the code

  class Controller {
    const B: nat               // __NVIC_PRIO_BITS
    var enabled: seq<nat>      // what ISER and ICER read as
    var pending: seq<nat>      // what ISPR and ICPR read as
    var ipr: seq<nat>
    var shpr: seq<nat>

    constructor (B: nat)
      requires 1 <= B <= 8
      ensures Valid() && this.B == B && Enabled() == {} && Pending() == {}
      ensures forall irq | HasPriority(irq) :: Level(irq) == 0
    {
      this.B := B;
      enabled, pending := seq(WORDS, k => 0), seq(WORDS, k => 0);
      ipr, shpr := seq(IPR_COUNT, k => 0), seq(SHPR_COUNT, k => 0);
      new;
      Pow2Values();
      forall i: nat | i < LINES
        ensures i !in Members(enabled)
      {
        BitOfSmall(0, 0, i % 32);
      }
      ShiftRightIsDivision(0, 8 - B);
      DivModUnique(0, Pow2(8 - B), 0, 0);
    }

    ghost predicate Valid()
      reads this
    {
      1 <= B <= 8 && |enabled| == WORDS && |pending| == WORDS && |ipr| == IPR_COUNT && |shpr| == SHPR_COUNT
    }

    ghost function Enabled(): set<nat>
      reads this
    {
      Members(enabled)
    }

    ghost function Pending(): set<nat>
      reads this
    {
      Members(pending)
    }

    /** The priority of an interrupt or system handler, as the processor sees it. */
    ghost function Level(irq: int): nat
      requires Valid() && HasPriority(irq)
      reads this
    {
      PriorityOf(if irq >= 0 then ipr[irq] else shpr[irq + 12], B)
    }

    /** __NVIC_EnableIRQ; nothing checks that the number is below the register file's end. */
    method NvicEnable(irq: int)
      requires Valid() && irq < LINES
      modifies this`enabled
      ensures Valid() && Enabled() == if irq >= 0 then old(Enabled()) + {irq as nat} else old(Enabled())
      ensures irq < 0 ==> enabled == old(enabled)
    {
      if irq >= 0 {
        SettingAdds(enabled, irq);
        enabled := enabled[Index(irq) := WrittenToSet(enabled[Index(irq)], OneBit(irq))];
      }
    }

    method NvicDisable(irq: int)
      requires Valid() && irq < LINES
      modifies this`enabled
      ensures Valid() && Enabled() == if irq >= 0 then old(Enabled()) - {irq as nat} else old(Enabled())
      ensures irq < 0 ==> enabled == old(enabled)
    {
      if irq >= 0 {
        ClearingRemoves(enabled, irq);
        enabled := enabled[Index(irq) := WrittenToClear(enabled[Index(irq)], OneBit(irq))];
      }
    }

    method GetEnable(irq: int) returns (r: nat)
      requires Valid() && irq < LINES
      ensures r == if irq >= 0 && irq in Enabled() then 1 else 0
    {
      if irq >= 0 {
        TestingFinds(enabled, irq);
        r := if And(enabled[Index(irq)], OneBit(irq), 32) != 0 then 1 else 0;
      } else {
        r := 0;
      }
    }

    method NvicSetPending(irq: int)
      requires Valid() && irq < LINES
      modifies this`pending
      ensures Valid() && Pending() == if irq >= 0 then old(Pending()) + {irq as nat} else old(Pending())
      ensures irq < 0 ==> pending == old(pending)
    {
      if irq >= 0 {
        SettingAdds(pending, irq);
        pending := pending[Index(irq) := WrittenToSet(pending[Index(irq)], OneBit(irq))];
      }
    }

    method NvicClearPending(irq: int)
      requires Valid() && irq < LINES
      modifies this`pending
      ensures Valid() && Pending() == if irq >= 0 then old(Pending()) - {irq as nat} else old(Pending())
      ensures irq < 0 ==> pending == old(pending)
    {
      if irq >= 0 {
        ClearingRemoves(pending, irq);
        pending := pending[Index(irq) := WrittenToClear(pending[Index(irq)], OneBit(irq))];
      }
    }

    method GetPending(irq: int) returns (r: nat)
      requires Valid() && irq < LINES
      ensures r == if irq >= 0 && irq in Pending() then 1 else 0
    {
      if irq >= 0 {
        TestingFinds(pending, irq);
        r := if And(pending[Index(irq)], OneBit(irq), 32) != 0 then 1 else 0;
      } else {
        r := 0;
      }
    }

    /** __NVIC_SetPriority: one level changes, to the implemented low bits of what was passed. */
    method SetPriority(irq: int, priority: nat)
      requires Valid() && HasPriority(irq)
      modifies this`ipr, this`shpr
      ensures Valid() && Level(irq) == priority % Pow2(B)
      ensures forall other | HasPriority(other) && other != irq :: Level(other) == old(Level(other))
    {
      RegisterReadsBack(priority, B);
      if irq >= 0 {
        ipr := ipr[irq := RegisterOf(priority, B)];
      } else {
        SystemIndexIs(irq);
        shpr := shpr[SystemIndex(irq) := RegisterOf(priority, B)];
      }
    }

    method GetPriority(irq: int) returns (r: nat)
      requires Valid() && HasPriority(irq)
      ensures r == Level(irq)
    {
      if irq >= 0 {
        r := PriorityOf(ipr[irq], B);
      } else {
        SystemIndexIs(irq);
        r := PriorityOf(shpr[SystemIndex(irq)], B);
      }
    }

    /** Set an interrupt's priority from its fields and get the fields back. */
    method SetThenGetFields(irq: int, g: nat, f: Fields) returns (r: Fields)
      requires Valid() && HasPriority(irq)
      modifies this`ipr, this`shpr
      ensures Valid() && r == Reduced(g, f, B)
      ensures forall other | HasPriority(other) && other != irq :: Level(other) == old(Level(other))
    {
      SetPriority(irq, Encode(g, f, B));
      var p := GetPriority(irq);
      RegisterReadsBack(Encode(g, f, B), B);
      PriorityRoundTrip(g, f, B);
      r := Decode(p, g, B);
    }

    // ---- the SDK's wrappers

    /** The not-available number fails and writes no register; a system exception succeeds and, having
        no enable bit, writes none either. */
    method EnableIRQ(irq: int) returns (status: Status)
      requires Valid() && irq < LINES
      modifies this`enabled
      ensures Valid() && (status == Fail <==> irq == -128)
      ensures irq < 0 ==> enabled == old(enabled)
      ensures irq >= 0 ==> Enabled() == old(Enabled()) + {irq as nat}
    {
      status := Success;
      if irq == NOT_AVAILABLE {
        status := Fail;
      } else {
        NvicEnable(irq);
      }
    }

    method DisableIRQ(irq: int) returns (status: Status)
      requires Valid() && irq < LINES
      modifies this`enabled
      ensures Valid() && (status == Fail <==> irq == -128)
      ensures irq < 0 ==> enabled == old(enabled)
      ensures irq >= 0 ==> Enabled() == old(Enabled()) - {irq as nat}
    {
      status := Success;
      if irq == NOT_AVAILABLE {
        status := Fail;
      } else {
        NvicDisable(irq);
      }
    }

    method ClearPendingIRQ(irq: int) returns (status: Status)
      requires Valid() && irq < LINES
      modifies this`pending
      ensures Valid() && (status == Fail <==> irq == -128)
      ensures irq < 0 ==> pending == old(pending)
      ensures irq >= 0 ==> Pending() == old(Pending()) - {irq as nat}
    {
      status := Success;
      if irq == NOT_AVAILABLE {
        status := Fail;
      } else {
        NvicClearPending(irq);
      }
    }

    method IrqSetPriority(irq: int, priority: nat) returns (status: Status)
      requires Valid() && (irq == NOT_AVAILABLE || HasPriority(irq))
      modifies this`ipr, this`shpr
      ensures Valid() && (status == Fail <==> irq == -128)
      ensures status == Fail ==> ipr == old(ipr) && shpr == old(shpr)
      ensures status == Success ==> Level(irq) == priority % Pow2(B)
      ensures forall other | HasPriority(other) && other != irq :: Level(other) == old(Level(other))
    {
      status := Success;
      if irq == NOT_AVAILABLE {
        status := Fail;
      } else {
        SetPriority(irq, priority);
      }
    }

    method EnableIRQWithPriority(irq: int, priority: nat) returns (status: Status)
      requires Valid() && (irq == NOT_AVAILABLE || HasPriority(irq))
      modifies this`enabled, this`ipr, this`shpr
      ensures Valid() && (status == Fail <==> irq == -128)
      ensures status == Fail ==> ipr == old(ipr) && shpr == old(shpr)
      ensures status == Success ==> Level(irq) == priority % Pow2(B)
      ensures forall other | HasPriority(other) && other != irq :: Level(other) == old(Level(other))
      ensures irq < 0 ==> enabled == old(enabled)
      ensures irq >= 0 ==> Enabled() == old(Enabled()) + {irq as nat}
    {
      status := Success;
      if irq == NOT_AVAILABLE {
        status := Fail;
      } else {
        SetPriority(irq, priority);
        NvicEnable(irq);
      }
    }

    /** Any run of wrapper calls keeps both bitmaps equal to the sets the calls describe. */
    method Run(commands: seq<Command>)
      requires Valid() && forall c | c in commands :: c.irq < LINES
      modifies this`enabled, this`pending
      ensures Valid()
      ensures Enabled() == After(old(Enabled()), commands, Enabling)
      ensures Pending() == After(old(Pending()), commands, Pends)
    {
      for i := 0 to |commands|
        invariant Valid()
        invariant Enabled() == After(old(Enabled()), commands[..i], Enabling)
        invariant Pending() == After(old(Pending()), commands[..i], Pends)
      {
        assert commands[..i + 1][..i] == commands[..i];
        match commands[i] {
          case Enable(irq) => var _ := EnableIRQ(irq);
          case Disable(irq) => var _ := DisableIRQ(irq);
          case SetPending(irq) => NvicSetPending(irq);
          case ClearPending(irq) => var _ := ClearPendingIRQ(irq);
        }
      }
      assert commands[..|commands|] == commands;
    }
  }

  datatype Command = Enable(irq: int) | Disable(irq: int) | SetPending(irq: int) | ClearPending(irq: int)

  /** What a command does to a bitmap: switch its interrupt on, off, or nothing. */
  datatype Effect = On | Off | Nothing

  function Enabling(c: Command): Effect {
    if c.irq < 0 then Nothing else match c case Enable(_) => On case Disable(_) => Off case _ => Nothing
  }

  function Pends(c: Command): Effect {
    if c.irq < 0 then Nothing else match c case SetPending(_) => On case ClearPending(_) => Off case _ => Nothing
  }

  function After(start: set<nat>, commands: seq<Command>, effect: Command -> Effect): set<nat> {
    if commands == [] then start
    else
      var prior, c := After(start, commands[..|commands| - 1], effect), commands[|commands| - 1];
      if c.irq < 0 then prior
      else match effect(c)
           case On => prior + {c.irq as nat}
           case Off => prior - {c.irq as nat}
           case Nothing => prior
  }

  /** Command `i` is the last one that switched interrupt `irq`. */
  ghost predicate Decides(commands: seq<Command>, effect: Command -> Effect, irq: nat, i: nat) {
    && i < |commands| && commands[i].irq == irq && effect(commands[i]) != Nothing
    && forall j | i < j < |commands| :: commands[j].irq != irq || effect(commands[j]) == Nothing
  }

  ghost predicate Untouched(commands: seq<Command>, effect: Command -> Effect, irq: nat) {
    forall j | 0 <= j < |commands| :: commands[j].irq != irq || effect(commands[j]) == Nothing
  }

  /** An interrupt is in the set exactly when the last command that switched it switched it on; one
      that no command switched is as it was. */
  lemma {:induction false} LastCommandDecides(start: set<nat>, commands: seq<Command>,
                                              effect: Command -> Effect, irq: nat)
    ensures Untouched(commands, effect, irq) ==> (irq in After(start, commands, effect) <==> irq in start)
    ensures forall i: nat | Decides(commands, effect, irq, i) ::
              irq in After(start, commands, effect) <==> effect(commands[i]) == On
    decreases |commands|
  {
    if commands != [] {
      var prior := commands[..|commands| - 1];
      LastCommandDecides(start, prior, effect, irq);
      forall i: nat | Decides(commands, effect, irq, i)
        ensures irq in After(start, commands, effect) <==> effect(commands[i]) == On
      {
        if i < |prior| {
          assert Decides(prior, effect, irq, i);
        }
      }
    }
  }

  // ---- wake-up from deep sleep

  class WakeUp {
    const nvic: Controller
    var starter: seq<nat>      // SYSCON's STARTER words, written through STARTERSET and STARTERCLR

    constructor (nvic: Controller, words: nat)
      ensures this.nvic == nvic && |starter| == words && Members(starter) == {}
    {
      this.nvic, starter := nvic, seq(words, k => 0);
      new;
      forall i: nat | i < 32 * words
        ensures i !in Members(starter)
      {
        BitOfSmall(0, 0, i % 32);
      }
    }

    /** Register index and bit by repeated subtraction. */
    method Locate(irq: nat) returns (index: nat, bit: nat)
      ensures index == irq / 32 && bit == irq % 32
    {
      index, bit := 0, irq;
      while bit >= 32
        invariant irq == index * 32 + bit
      {
        index := index + 1;
        bit := bit - 32;
      }
    }

    /** The interrupt number is converted to an unsigned word before it is located, so a negative one, a
        system exception, names a word far beyond any that a device has. */
    method EnableDeepSleepIRQ(irq: int)
      requires nvic.Valid() && -0x8000_0000 <= irq < LINES && Unsigned(irq) < 32 * |starter|
      modifies this, nvic`enabled
      ensures nvic.Valid() && |starter| == old(|starter|)
      ensures Members(starter) == old(Members(starter)) + {Unsigned(irq)}
      ensures if irq < 0 then nvic.enabled == old(nvic.enabled)
              else nvic.Enabled() == old(nvic.Enabled()) + {irq as nat}
    {
      var index, bit := Locate(Unsigned(irq));
      Addressing(Unsigned(irq));
      SettingAdds(starter, Unsigned(irq));
      LowBit(bit);
      starter := starter[index := WrittenToSet(starter[index], ShiftLeft(1, bit, 32))];
      var _ := nvic.EnableIRQ(irq);
    }

    method DisableDeepSleepIRQ(irq: int)
      requires nvic.Valid() && -0x8000_0000 <= irq < LINES && Unsigned(irq) < 32 * |starter|
      modifies this, nvic`enabled
      ensures nvic.Valid() && |starter| == old(|starter|)
      ensures Members(starter) == old(Members(starter)) - {Unsigned(irq)}
      ensures if irq < 0 then nvic.enabled == old(nvic.enabled)
              else nvic.Enabled() == old(nvic.Enabled()) - {irq as nat}
    {
      var _ := nvic.DisableIRQ(irq);
      var index, bit := Locate(Unsigned(irq));
      Addressing(Unsigned(irq));
      ClearingRemoves(starter, Unsigned(irq));
      LowBit(bit);
      starter := starter[index := WrittenToClear(starter[index], ShiftLeft(1, bit, 32))];
    }
  }

  /** A signed 32-bit interrupt number as an unsigned one. */
  function Unsigned(irq: int): nat
    requires -0x8000_0000 <= irq
  {
    if irq >= 0 then irq else irq + U32
  }

  lemma {:induction false} LowBit(bit: nat)
    requires bit < 32
    ensures ShiftLeft(1, bit, 32) == Pow2(bit)
  {
    Pow2Values();
    Pow2Monotone(bit, 31);
    assert Pow2(32) == 2 * Pow2(31);
    DivModUnique(Pow2(bit), Pow2(32), 0, Pow2(bit));
  }
}
