/** Fixed-width binary words as natural numbers: powers of two, single bits,
    pointwise (bitwise) operations and shifts, with the laws the other modules use. */
module Bits {

  const U8: nat := 0x100
  const U16: nat := 0x1_0000
  const U32: nat := 0x1_0000_0000
  const UINT32_MAX: nat := 0xFFFF_FFFF

  function Pow2(n: nat): (p: nat)
    ensures p >= 1
  {
    if n == 0 then 1 else 2 * Pow2(n - 1)
  }

  /** Bit `i` of `x`, bit 0 being the least significant. */
  predicate Bit(x: nat, i: nat) {
    if i == 0 then x % 2 == 1 else Bit(x / 2, i - 1)
  }

  /** The `n`-bit word whose bit `i` is `f` of the operands' bits `i`. */
  function Bitwise(f: (bool, bool) -> bool, x: nat, y: nat, n: nat): (r: nat)
    ensures r < Pow2(n)
  {
    if n == 0 then 0
    else (if f(x % 2 == 1, y % 2 == 1) then 1 else 0) + 2 * Bitwise(f, x / 2, y / 2, n - 1)
  }

  predicate Either(a: bool, b: bool) { a || b }
  predicate Both(a: bool, b: bool) { a && b }
  predicate Differ(a: bool, b: bool) { a != b }
  predicate ButNot(a: bool, b: bool) { a && !b }

  /** `x | y`, `x & y`, `x ^ y` and `x & ~y` on `n`-bit words. */
  function Or(x: nat, y: nat, n: nat): nat { Bitwise(Either, x, y, n) }
  function And(x: nat, y: nat, n: nat): nat { Bitwise(Both, x, y, n) }
  function Xor(x: nat, y: nat, n: nat): nat { Bitwise(Differ, x, y, n) }
  function AndNot(x: nat, y: nat, n: nat): nat { Bitwise(ButNot, x, y, n) }

  /** `x << k` on an `n`-bit word, and `x >> k`. */
  function ShiftLeft(x: nat, k: nat, n: nat): nat { x * Pow2(k) % Pow2(n) }
  function ShiftRight(x: nat, k: nat): nat { if k == 0 then x else ShiftRight(x / 2, k - 1) }

  // ---- arithmetic of powers of two

  lemma {:induction false} Pow2Add(a: nat, b: nat)
    ensures Pow2(a + b) == Pow2(a) * Pow2(b)
  {
    if a != 0 {
      Pow2Add(a - 1, b);
      assert Pow2(a + b) == 2 * Pow2(a - 1 + b);
    }
  }

  lemma {:induction false} Pow2Monotone(a: nat, b: nat)
    requires a <= b
    ensures Pow2(a) <= Pow2(b)
    decreases b
  {
    if a < b {
      Pow2Monotone(a, b - 1);
    }
  }

  lemma Pow2Values()
    ensures Pow2(3) == 8 && Pow2(4) == 16 && Pow2(5) == 32
    ensures Pow2(8) == U8 && Pow2(15) == 32768 && Pow2(16) == U16 && Pow2(32) == U32
  {
    assert Pow2(4) == 16;
    Pow2Add(4, 4);
    Pow2Add(7, 8);
    assert Pow2(7) == 128;
    Pow2Add(8, 8);
    Pow2Add(16, 16);
  }

  lemma SmallMultiple(d: int, m: int)
    requires -m < d * m < m
    ensures d == 0
  {
  }

  /** Division is determined by its defining equation. */
  lemma {:induction false} DivModUnique(x: int, m: int, q: int, r: int)
    requires m > 0 && 0 <= r < m && x == q * m + r
    ensures x / m == q && x % m == r
  {
    var q', r' := x / m, x % m;
    assert x == q' * m + r';
    assert (q - q') * m == r' - r;
    SmallMultiple(q - q', m);
  }

  lemma DivideThenMultiply(x: nat, m: nat)
    requires m > 0
    ensures 0 <= x / m * m <= x
  {
  }

  /** Dividing by `2 * m` is dividing by 2 and then by `m`. */
  lemma {:induction false} HalveDivMod(x: nat, m: nat)
    requires m >= 1
    ensures x / (2 * m) == x / 2 / m
    ensures x % (2 * m) == x % 2 + 2 * (x / 2 % m)
  {
    var h := x / 2;
    assert h == h / m * m + h % m;
    assert x == (h / m) * (2 * m) + (x % 2 + 2 * (h % m)) by {
      assert x == 2 * h + x % 2;
      assert 2 * (h / m * m) == (h / m) * (2 * m);
    }
    DivModUnique(x, 2 * m, h / m, x % 2 + 2 * (h % m));
  }

  // ---- bit-level laws

  lemma {:induction false} BitwiseAt(f: (bool, bool) -> bool, x: nat, y: nat, n: nat, i: nat)
    ensures Bit(Bitwise(f, x, y, n), i) == (i < n && f(Bit(x, i), Bit(y, i)))
    decreases n
  {
    if n == 0 {
      BitOfSmall(0, 0, i);
    } else {
      var r := Bitwise(f, x, y, n);
      assert r / 2 == Bitwise(f, x / 2, y / 2, n - 1);
      if i != 0 {
        BitwiseAt(f, x / 2, y / 2, n - 1, i - 1);
      }
    }
  }

  /** A word below `Pow2(n)` has no bit at or above `n`. */
  lemma {:induction false} BitOfSmall(x: nat, n: nat, i: nat)
    requires x < Pow2(n) && n <= i
    ensures !Bit(x, i)
    decreases i
  {
    if i != 0 {
      BitOfSmall(x / 2, if n == 0 then 0 else n - 1, i - 1);
    }
  }

  /** Words are equal when their bits are. */
  lemma {:induction false} Extensional(x: nat, y: nat, n: nat)
    requires x < Pow2(n) && y < Pow2(n)
    requires forall i: nat | i < n :: Bit(x, i) == Bit(y, i)
    ensures x == y
    decreases n
  {
    if n != 0 {
      assert Bit(x, 0) == Bit(y, 0);
      forall i: nat | i < n - 1
        ensures Bit(x / 2, i) == Bit(y / 2, i)
      {
        assert Bit(x, i + 1) == Bit(y, i + 1);
      }
      Extensional(x / 2, y / 2, n - 1);
    }
  }

  lemma {:induction false} ShiftRightIsDivision(x: nat, k: nat)
    ensures ShiftRight(x, k) == x / Pow2(k)
    decreases k
  {
    if k != 0 {
      HalveDivMod(x, Pow2(k - 1));
      ShiftRightIsDivision(x / 2, k - 1);
    }
  }

  lemma {:induction false} BitOfShiftRight(x: nat, k: nat, i: nat)
    ensures Bit(ShiftRight(x, k), i) == Bit(x, i + k)
    decreases k
  {
    if k != 0 {
      BitOfShiftRight(x / 2, k - 1, i);
    }
  }

  lemma {:induction false} BitOfProduct(x: nat, k: nat, i: nat)
    ensures Bit(x * Pow2(k), i) == (i >= k && Bit(x, i - k))
    decreases k
  {
    if k != 0 {
      var h := x * Pow2(k - 1);
      assert x * Pow2(k) == 2 * h;
      if i != 0 {
        assert 2 * h / 2 == h;
        BitOfProduct(x, k - 1, i - 1);
      }
    }
  }

  lemma {:induction false} BitOfMod(x: nat, n: nat, i: nat)
    ensures Bit(x % Pow2(n), i) == (i < n && Bit(x, i))
    decreases n
  {
    if n == 0 {
      BitOfSmall(0, 0, i);
    } else {
      HalveDivMod(x, Pow2(n - 1));
      var r := x % Pow2(n);
      assert r / 2 == x / 2 % Pow2(n - 1) && r % 2 == x % 2;
      if i != 0 {
        BitOfMod(x / 2, n - 1, i - 1);
      }
    }
  }

  lemma {:induction false} BitOfShiftLeft(x: nat, k: nat, n: nat, i: nat)
    ensures Bit(ShiftLeft(x, k, n), i) == (k <= i < n && Bit(x, i - k))
  {
    BitOfMod(x * Pow2(k), n, i);
    BitOfProduct(x, k, i);
  }

  lemma {:induction false} BitOfMask(k: nat, i: nat)
    ensures Bit(Pow2(k) - 1, i) == (i < k)
    decreases k
  {
    if k == 0 {
      BitOfSmall(0, 0, i);
    } else {
      assert (Pow2(k) - 1) / 2 == Pow2(k - 1) - 1;
      if i != 0 {
        BitOfMask(k - 1, i - 1);
      }
    }
  }

  /** Only bit `k` of a power of two is set. */
  lemma {:induction false} BitOfPow2(k: nat, i: nat)
    ensures Bit(Pow2(k), i) == (i == k)
  {
    BitOfProduct(1, k, i);
    if i > k {
      BitOfSmall(1, 1, i - k);
    }
  }

  // ---- words, masks and remainders

  /** `x & (2^k - 1)` is the remainder modulo `2^k`. */
  lemma {:induction false} AndMaskIsMod(x: nat, k: nat, n: nat)
    requires k <= n
    ensures And(x, Pow2(k) - 1, n) == x % Pow2(k)
  {
    Pow2Monotone(k, n);
    forall i: nat | i < n
      ensures Bit(And(x, Pow2(k) - 1, n), i) == Bit(x % Pow2(k), i)
    {
      BitwiseAt(Both, x, Pow2(k) - 1, n, i);
      BitOfMask(k, i);
      BitOfMod(x, k, i);
    }
    Extensional(And(x, Pow2(k) - 1, n), x % Pow2(k), n);
  }

  /** `x & ~(2^k - 1)` rounds `x` down to a multiple of `2^k`. */
  lemma {:induction false} AndNotMaskRoundsDown(x: nat, k: nat, n: nat)
    requires k <= n && x < Pow2(n)
    ensures AndNot(x, Pow2(k) - 1, n) == x / Pow2(k) * Pow2(k)
  {
    var q := ShiftRight(x, k);
    ShiftRightIsDivision(x, k);
    DivideThenMultiply(x, Pow2(k));
    forall i: nat | i < n
      ensures Bit(AndNot(x, Pow2(k) - 1, n), i) == Bit(q * Pow2(k), i)
    {
      BitwiseAt(ButNot, x, Pow2(k) - 1, n, i);
      BitOfMask(k, i);
      BitOfProduct(q, k, i);
      if i >= k {
        BitOfShiftRight(x, k, i - k);
      }
    }
    Extensional(AndNot(x, Pow2(k) - 1, n), q * Pow2(k), n);
  }

  /** `x & y` and `x & ~y` split `x`, and the first is no more than `y`. */
  lemma {:induction false} AndSplits(x: nat, y: nat, n: nat)
    requires x < Pow2(n)
    ensures And(x, y, n) + AndNot(x, y, n) == x && And(x, y, n) <= y
    decreases n
  {
    if n != 0 {
      AndSplits(x / 2, y / 2, n - 1);
    }
  }

  lemma {:induction false} AndCommutes(x: nat, y: nat, n: nat)
    ensures And(x, y, n) == And(y, x, n)
    decreases n
  {
    if n != 0 {
      AndCommutes(x / 2, y / 2, n - 1);
    }
  }

  /** A top bit set in `y` leaves of `x` only what is below it. */
  lemma {:induction false} AndNotTop(x: nat, x': nat, y: nat, y': nat, k: nat)
    requires x < Pow2(k) && y < Pow2(k)
    requires (x' == x || x' == Pow2(k) + x) && y' == Pow2(k) + y
    ensures AndNot(x', y', k + 1) == AndNot(x, y, k)
    decreases k
  {
    LowestBit(x', y', k);
    if k != 0 {
      LowestBit(x, y, k - 1);
      AndNotTop(x / 2, x' / 2, y / 2, y' / 2, k - 1);
    }
  }

  lemma LowestBit(x: nat, y: nat, n: nat)
    ensures AndNot(x, y, n + 1) == (if x % 2 == 1 && y % 2 != 1 then 1 else 0) + 2 * AndNot(x / 2, y / 2, n)
  {
  }

  /** What `x & ~y` keeps fits beside `y`. */
  lemma {:induction false} AndNotBeside(x: nat, y: nat, n: nat)
    requires y < Pow2(n)
    ensures AndNot(x, y, n) + y < Pow2(n)
    decreases n
  {
    if n != 0 {
      AndNotBeside(x / 2, y / 2, n - 1);
    }
  }

  lemma {:induction false} AndOfSame(x: nat, n: nat)
    requires x < Pow2(n)
    ensures And(x, x, n) == x
    decreases n
  {
    if n != 0 {
      AndOfSame(x / 2, n - 1);
    }
  }

  /** `x & (x - 1)` is 0 only for a power of two. */
  lemma {:induction false} PowerOfTwoTest(x: nat, n: nat) returns (k: nat)
    requires 1 <= x < Pow2(n)
    ensures And(x, x - 1, n) == 0 ==> k < n && x == Pow2(k)
    decreases n
  {
    k := 0;
    if x % 2 == 0 {
      assert (x - 1) / 2 == x / 2 - 1;
      k := PowerOfTwoTest(x / 2, n - 1);
      k := k + 1;
    } else if x > 1 {
      assert (x - 1) / 2 == x / 2;
      AndOfSame(x / 2, n - 1);
    }
  }

  /** Is `x` a power of two below `2^n`? */
  predicate IsPow2(x: nat, n: nat) { exists k: nat :: k < n && x == Pow2(k) }

  /** One bitwise test tells the powers of two. */
  lemma {:induction false} PowerOfTwoIff(x: nat, n: nat)
    requires 1 <= x < Pow2(n)
    ensures And(x, x - 1, n) == 0 <==> IsPow2(x, n)
  {
    var k := PowerOfTwoTest(x, n);
    assert And(x, x - 1, n) == 0 ==> k < n && x == Pow2(k);
    forall j: nat | j < n && x == Pow2(j)
      ensures And(x, x - 1, n) == 0
    {
      AndMaskIsMod(x, j, n);
      DivModUnique(x, x, 1, 0);
    }
  }

  /** Or-ing a value shifted above a smaller one adds them. */
  lemma {:induction false} OrOfDisjointIsSum(hi: nat, lo: nat, k: nat, n: nat)
    requires lo < Pow2(k) && hi * Pow2(k) + lo < Pow2(n)
    ensures Or(hi * Pow2(k), lo, n) == hi * Pow2(k) + lo
  {
    var sum := hi * Pow2(k) + lo;
    DivModUnique(sum, Pow2(k), hi, lo);
    ShiftRightIsDivision(sum, k);
    forall i: nat | i < n
      ensures Bit(Or(hi * Pow2(k), lo, n), i) == Bit(sum, i)
    {
      BitwiseAt(Either, hi * Pow2(k), lo, n, i);
      BitOfProduct(hi, k, i);
      if i < k {
        BitOfMod(sum, k, i);
      } else {
        BitOfShiftRight(sum, k, i - k);
        BitOfSmall(lo, k, i);
      }
    }
    Extensional(Or(hi * Pow2(k), lo, n), sum, n);
  }
}
