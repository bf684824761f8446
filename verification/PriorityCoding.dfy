/** NVIC priorities: packing a preemption level and a subpriority into the implemented bits, the
    priority registers, and unpacking. `B` is the number of implemented priority bits (1 to 8). */
module PriorityCoding {
  import opened Bits

  datatype Fields = Fields(preempt: nat, sub: nat)

  /** `PriorityGroup & 7`, by GroupIsMasked. */
  function Group(g: nat): nat { g % 8 }

  lemma {:induction false} GroupIsMasked(g: nat)
    ensures And(g, 7, 32) == Group(g)
  {
    Pow2Values();
    AndMaskIsMod(g, 3, 32);
  }

  function PreemptBits(g: nat, B: nat): nat
  {
    if 7 - Group(g) > B then B else 7 - Group(g)
  }

  /** `(group - 7) + B` wraps below zero and back in 32-bit arithmetic. */
  function SubBits(g: nat, B: nat): nat {
    if Group(g) + B < 7 then 0 else ((Group(g) - 7) % U32 + B) % U32
  }

  function Mask(bits: nat): nat { Pow2(bits) - 1 }

  function Encode(g: nat, f: Fields, B: nat): nat
  {
    Or(ShiftLeft(And(f.preempt, Mask(PreemptBits(g, B)), 32), SubBits(g, B), 32),
       And(f.sub, Mask(SubBits(g, B)), 32), 32)
  }

  function Decode(priority: nat, g: nat, B: nat): Fields
  {
    Fields(And(ShiftRight(priority, SubBits(g, B)), Mask(PreemptBits(g, B)), 32),
           And(priority, Mask(SubBits(g, B)), 32))
  }

  /** The byte __NVIC_SetPriority stores, and what __NVIC_GetPriority makes of it. */
  function RegisterOf(priority: nat, B: nat): nat
    requires B <= 8
  {
    And(ShiftLeft(priority, 8 - B, 32), 0xFF, 32) % U8
  }

  function PriorityOf(register: nat, B: nat): nat
    requires B <= 8
  {
    ShiftRight(register, 8 - B)
  }

  // ---- what they compute

  /** Going below zero and back in 32 bits. */
  lemma WrapBack(d: int, B: nat)
    requires -7 <= d <= 0 <= d + B <= 8
    ensures (d % U32 + B) % U32 == d + B
  {
    if d < 0 {
      assert d % U32 == d + U32;
    }
  }

  /** The two fields share exactly the implemented bits. */
  lemma {:induction false} BitsAddUp(g: nat, B: nat)
    requires 1 <= B <= 8
    ensures PreemptBits(g, B) + SubBits(g, B) == B && PreemptBits(g, B) <= 7
  {
    if Group(g) + B >= 7 {
      WrapBack(Group(g) - 7, B);
    }
  }

  lemma SubBitsIs(g: nat, B: nat)
    requires 1 <= B <= 8 && Group(g) + B >= 7
    ensures SubBits(g, B) + (8 - B) == Group(g) + 1
  {
    WrapBack(Group(g) - 7, B);
  }

  /** The fields cut down to the bits the grouping gives them. */
  function Reduced(g: nat, f: Fields, B: nat): Fields
  {
    Fields(f.preempt % Pow2(PreemptBits(g, B)), f.sub % Pow2(SubBits(g, B)))
  }

  lemma MulBound(x: nat, a: nat, y: nat, b: nat)
    requires x < a && y < b
    ensures x * b + y < a * b
  {
    assert (x + 1) * b <= a * b;
  }

  lemma {:induction false} EncodeIs(g: nat, f: Fields, B: nat)
    requires 1 <= B <= 8
    ensures var r := Reduced(g, f, B);
      && r.preempt < Pow2(PreemptBits(g, B)) && r.sub < Pow2(SubBits(g, B))
      && Encode(g, f, B) == r.preempt * Pow2(SubBits(g, B)) + r.sub < Pow2(B)
  {
    BitsAddUp(g, B);
    FieldsPacked(f.preempt, f.sub, PreemptBits(g, B), SubBits(g, B), 32);
  }

  /** Masking, shifting and joining the fields of an `n`-bit word. */
  lemma {:induction false} FieldsPacked(hi: nat, lo: nat, p: nat, s: nat, n: nat)
    requires p + s <= n
    ensures Or(ShiftLeft(And(hi, Mask(p), n), s, n), And(lo, Mask(s), n), n)
         == hi % Pow2(p) * Pow2(s) + lo % Pow2(s) < Pow2(p + s)
  {
    AndMaskIsMod(hi, p, n);
    AndMaskIsMod(lo, s, n);
    PackIs(hi % Pow2(p), lo % Pow2(s), p, s, n);
  }

  lemma {:induction false} PackIs(hi: nat, lo: nat, p: nat, s: nat, n: nat)
    requires hi < Pow2(p) && lo < Pow2(s) && p + s <= n
    ensures Or(ShiftLeft(hi, s, n), lo, n) == hi * Pow2(s) + lo < Pow2(p + s)
  {
    Pow2Add(p, s);
    MulBound(hi, Pow2(p), lo, Pow2(s));
    PackInto(hi, lo, s, n, Pow2(s), Pow2(p + s), Pow2(n)) by {
      Pow2Monotone(p + s, n);
    }
  }

  lemma {:induction false} PackInto(hi: nat, lo: nat, s: nat, n: nat, m: nat, bound: nat, all: nat)
    requires m == Pow2(s) && all == Pow2(n) && lo < m && hi * m + lo < bound <= all
    ensures Or(ShiftLeft(hi, s, n), lo, n) == hi * m + lo
  {
    DivModUnique(hi * m, all, 0, hi * m);
    OrOfDisjointIsSum(hi, lo, s, n);
  }

  lemma {:induction false} ShiftOut(hi: nat, lo: nat, s: nat)
    requires lo < Pow2(s)
    ensures ShiftRight(hi * Pow2(s) + lo, s) == hi
    ensures (hi * Pow2(s) + lo) % Pow2(s) == lo
  {
    ShiftRightIsDivision(hi * Pow2(s) + lo, s);
    DivModUnique(hi * Pow2(s) + lo, Pow2(s), hi, lo);
  }

  lemma {:induction false} MaskKeeps(x: nat, p: nat, n: nat)
    requires x < Pow2(p) && p <= n
    ensures And(x, Mask(p), n) == x
  {
    AndMaskIsMod(x, p, n);
    DivModUnique(x, Pow2(p), 0, x);
  }

  lemma {:induction false} UnpackIs(x: nat, hi: nat, lo: nat, p: nat, s: nat, n: nat)
    requires hi < Pow2(p) && lo < Pow2(s) && p + s <= n && x == hi * Pow2(s) + lo
    ensures And(ShiftRight(x, s), Mask(p), n) == hi
    ensures And(x, Mask(s), n) == lo
  {
    ShiftOut(hi, lo, s);
    MaskKeeps(hi, p, n);
    AndMaskIsMod(x, s, n);
  }

  /** Encoding and decoding give back both fields, cut to their widths. */
  lemma {:induction false} DecodeAfterEncode(g: nat, f: Fields, B: nat)
    requires 1 <= B <= 8
    ensures Decode(Encode(g, f, B), g, B) == Reduced(g, f, B)
  {
    EncodeIs(g, f, B);
    BitsAddUp(g, B);
    var r := Reduced(g, f, B);
    UnpackIs(Encode(g, f, B), r.preempt, r.sub, PreemptBits(g, B), SubBits(g, B), 32);
  }

  lemma {:induction false} RegisterIs(priority: nat, B: nat)
    requires 1 <= B <= 8
    ensures RegisterOf(priority, B) == priority % Pow2(B) * Pow2(8 - B) < U8
  {
    var shifted := ShiftLeft(priority, 8 - B, 32);
    Pow2Values();
    AndMaskIsMod(shifted, 8, 32);
    DivModUnique(shifted % U8, U8, 0, shifted % U8);
    LowBits(priority, B, 8, 32);
  }

  /** Shifting `b` bits to the top of `k` and dropping what lies above. */
  lemma {:induction false} LowBitsAt(x: nat, b: nat, k: nat, n: nat, i: nat)
    requires b <= k <= n && i < k
    ensures Bit(ShiftLeft(x, k - b, n) % Pow2(k), i) == Bit(x % Pow2(b) * Pow2(k - b), i)
  {
    BitOfMod(ShiftLeft(x, k - b, n), k, i);
    BitOfShiftLeft(x, k - b, n, i);
    BitOfProduct(x % Pow2(b), k - b, i);
    if i >= k - b {
      BitOfMod(x, b, i - (k - b));
    }
  }

  lemma {:induction false} LowBits(x: nat, b: nat, k: nat, n: nat)
    requires b <= k <= n
    ensures ShiftLeft(x, k - b, n) % Pow2(k) == x % Pow2(b) * Pow2(k - b) < Pow2(k)
  {
    var y, z := ShiftLeft(x, k - b, n) % Pow2(k), x % Pow2(b) * Pow2(k - b);
    Pow2Add(b, k - b);
    MulBound(x % Pow2(b), Pow2(b), 0, Pow2(k - b));
    forall i: nat | i < k
      ensures Bit(y, i) == Bit(z, i)
    {
      LowBitsAt(x, b, k, n, i);
    }
    Extensional(y, z, k);
  }

  /** Writing a priority register and reading it keeps the implemented bits, whatever else was passed. */
  lemma {:induction false} RegisterReadsBack(priority: nat, B: nat)
    requires 1 <= B <= 8
    ensures PriorityOf(RegisterOf(priority, B), B) == priority % Pow2(B)
  {
    RegisterIs(priority, B);
    ShiftRightIsDivision(RegisterOf(priority, B), 8 - B);
    DivModUnique(RegisterOf(priority, B), Pow2(8 - B), priority % Pow2(B), 0);
  }

  /** The full round trip: encode, set the register, get it, decode. */
  lemma {:induction false} PriorityRoundTrip(g: nat, f: Fields, B: nat)
    requires 1 <= B <= 8
    ensures Decode(PriorityOf(RegisterOf(Encode(g, f, B), B), B), g, B) == Reduced(g, f, B)
  {
    var e := Encode(g, f, B);
    EncodeIs(g, f, B);
    RegisterReadsBack(e, B);
    DivModUnique(e, Pow2(B), 0, e);
    DecodeAfterEncode(g, f, B);
  }

  // ---- order

  predicate Before(x: Fields, y: Fields) {
    x.preempt < y.preempt || (x.preempt == y.preempt && x.sub < y.sub)
  }

  lemma PackedOrder(a: nat, x: nat, b: nat, y: nat, m: nat)
    requires x < m && y < m
    ensures a * m + x < b * m + y <==> a < b || (a == b && x < y)
  {
    if a < b {
      assert (a + 1) * m <= b * m;
    } else if a > b {
      assert (b + 1) * m <= a * m;
    }
  }

  /** Registers compare as the reduced fields do, preemption level first. */
  lemma {:induction false} RegisterOrderIsLexicographic(g: nat, x: Fields, y: Fields, B: nat)
    requires 1 <= B <= 8
    ensures RegisterOf(Encode(g, x, B), B) < RegisterOf(Encode(g, y, B), B)
       <==> Before(Reduced(g, x, B), Reduced(g, y, B))
  {
    EncodeIs(g, x, B);
    EncodeIs(g, y, B);
    var rx, ry := Reduced(g, x, B), Reduced(g, y, B);
    PackedOrder(rx.preempt, rx.sub, ry.preempt, ry.sub, Pow2(SubBits(g, B)));
    RegisterOfEncoded(g, x, B);
    RegisterOfEncoded(g, y, B);
    PackedOrder(Encode(g, x, B), 0, Encode(g, y, B), 0, Pow2(8 - B));
  }

  /** The group priority the processor compares to decide on preemption: register bits 7 to group + 1. */
  function GroupPriority(register: nat, g: nat): nat { ShiftRight(register, Group(g) + 1) }

  lemma {:induction false} TopBits(reg: nat, e: nat, pre: nat, sub: nat, s: nat, t: nat)
    requires sub < Pow2(s) && e == pre * Pow2(s) + sub && reg == e * Pow2(t)
    ensures ShiftRight(reg, s + t) == pre
  {
    Pow2Add(s, t);
    MulBound(sub, Pow2(s), 0, Pow2(t));
    Distribute(pre, Pow2(s), sub, Pow2(t));
    ShiftOut(pre, sub * Pow2(t), s + t);
  }

  lemma {:induction false} ShiftPartly(pre: nat, t: nat, d: nat)
    ensures ShiftRight(pre * Pow2(t + d), d) == pre * Pow2(t)
  {
    Pow2Add(t, d);
    Reassociate(pre, Pow2(t), Pow2(d));
    ShiftOut(pre * Pow2(t), 0, d);
  }

  lemma Reassociate(a: nat, b: nat, c: nat)
    ensures a * (b * c) == a * b * c
  {
  }

  lemma Distribute(a: nat, b: nat, x: nat, c: nat)
    ensures (a * b + x) * c == a * (b * c) + x * c
  {
  }

  lemma {:induction false} RegisterOfEncoded(g: nat, f: Fields, B: nat)
    requires 1 <= B <= 8
    ensures RegisterOf(Encode(g, f, B), B) == Encode(g, f, B) * Pow2(8 - B)
  {
    var e := Encode(g, f, B);
    EncodeIs(g, f, B);
    RegisterIs(e, B);
    DivModUnique(e, Pow2(B), 0, e);
  }

  /** Fewer implemented bits than the grouping would use: the whole register is the level. */
  lemma {:induction false} LevelOnly(g: nat, f: Fields, B: nat)
    requires 1 <= B <= 8 && Group(g) + B < 7
    ensures GroupPriority(RegisterOf(Encode(g, f, B), B), g) == Reduced(g, f, B).preempt * Pow2(7 - Group(g) - B)
  {
    EncodeIs(g, f, B);
    RegisterOfEncoded(g, f, B);
    ShiftPartly(Reduced(g, f, B).preempt, 7 - Group(g) - B, Group(g) + 1);
    WholeLevel(Reduced(g, f, B).preempt, Reduced(g, f, B).sub, Pow2(0));
  }

  lemma WholeLevel(pre: nat, sub: nat, one: nat)
    requires one == 1 && sub < one
    ensures pre * one + sub == pre
  {
  }

  lemma {:induction false} LevelAndSub(g: nat, f: Fields, B: nat)
    requires 1 <= B <= 8 && Group(g) + B >= 7
    ensures GroupPriority(RegisterOf(Encode(g, f, B), B), g) == Reduced(g, f, B).preempt
  {
    SubBitsIs(g, B);
    EncodeIs(g, f, B);
    RegisterOfEncoded(g, f, B);
    TopBits(RegisterOf(Encode(g, f, B), B), Encode(g, f, B),
            Reduced(g, f, B).preempt, Reduced(g, f, B).sub, SubBits(g, B), 8 - B);
  }

  /** One interrupt can preempt another exactly when its preemption level is lower: subpriorities never
      preempt, and no grouping mixes the two fields up. */
  lemma {:induction false} PreemptsIffLowerLevel(g: nat, x: Fields, y: Fields, B: nat)
    requires 1 <= B <= 8
    ensures GroupPriority(RegisterOf(Encode(g, x, B), B), g) < GroupPriority(RegisterOf(Encode(g, y, B), B), g)
       <==> Reduced(g, x, B).preempt < Reduced(g, y, B).preempt
  {
    var px, py := Reduced(g, x, B).preempt, Reduced(g, y, B).preempt;
    if Group(g) + B < 7 {
      LevelOnly(g, x, B);
      LevelOnly(g, y, B);
      PackedOrder(px, 0, py, 0, Pow2(7 - Group(g) - B));
    } else {
      LevelAndSub(g, x, B);
      LevelAndSub(g, y, B);
    }
  }
}
