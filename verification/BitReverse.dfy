/** Bit reversal and rotation of 32-bit words, as the portable C bodies compute them. */
module BitReverse {
  import opened Bits

  /** `y` is `x` with its 32 bits in the opposite order. */
  ghost predicate IsReverse(x: nat, y: nat) {
    y < U32 && forall i: nat | i < 32 :: Bit(y, i) == Bit(x, 31 - i)
  }

  lemma {:induction false} ReverseIsUnique(x: nat, y: nat, z: nat)
    requires IsReverse(x, y) && IsReverse(x, z)
    ensures y == z
  {
    Pow2Values();
    Extensional(y, z, 32);
  }

  /** Reversing twice gives the word back. */
  lemma {:induction false} ReverseTwice(x: nat, y: nat, z: nat)
    requires x < U32 && IsReverse(x, y) && IsReverse(y, z)
    ensures z == x
  {
    Pow2Values();
    forall i: nat | i < 32
      ensures Bit(z, i) == Bit(x, i)
    {
      assert Bit(z, i) == Bit(y, 31 - i) == Bit(x, 31 - (31 - i));
    }
    Extensional(z, x, 32);
  }

  /** After `k` rounds: bits 0 to k of `result` are bits k to 0 of `value`. What is above is leftover. */
  ghost predicate Turned(value: nat, result: nat, k: nat) {
    result < U32 && forall j: nat | j <= k :: Bit(result, j) == Bit(value, k - j)
  }

  /** One round: shift up and put the next bit of the value below. */
  function Round(result: nat, v: nat): nat {
    Or(ShiftLeft(result, 1, 32), And(v, 1, 32), 32)
  }

  lemma {:induction false} RoundTurns(value: nat, result: nat, k: nat)
    requires k <= 30 && Turned(value, result, k)
    ensures Turned(value, Round(result, ShiftRight(value, k + 1)), k + 1)
  {
    Pow2Values();
    var v := ShiftRight(value, k + 1);
    var next := Round(result, v);
    forall j: nat | j <= k + 1
      ensures Bit(next, j) == Bit(value, k + 1 - j)
    {
      BitwiseAt(Either, ShiftLeft(result, 1, 32), And(v, 1, 32), 32, j);
      BitOfShiftLeft(result, 1, 32, j);
      BitwiseAt(Both, v, 1, 32, j);
      BitOfPow2(0, j);
      BitOfShiftRight(value, k + 1, 0);
    }
  }

  lemma {:induction false} ShiftMore(value: nat, k: nat)
    ensures ShiftRight(ShiftRight(value, k), 1) == ShiftRight(value, k + 1)
    decreases k
  {
    if k != 0 {
      ShiftMore(value / 2, k - 1);
    }
  }

  /** Once nothing but zeros is left, the missing rounds are one shift. */
  lemma {:induction false} FinalShift(value: nat, result: nat, k: nat)
    requires value < U32 && k <= 31 && Turned(value, result, k) && ShiftRight(value, k + 1) == 0
    ensures IsReverse(value, ShiftLeft(result, 31 - k, 32))
  {
    Pow2Values();
    var r := ShiftLeft(result, 31 - k, 32);
    forall i: nat | i < 32
      ensures Bit(r, i) == Bit(value, 31 - i)
    {
      BitOfShiftLeft(result, 31 - k, 32, i);
      if i < 31 - k {
        BitOfShiftRight(value, k + 1, 31 - i - (k + 1));
        BitOfSmall(0, 0, 31 - i - (k + 1));
      }
    }
  }

  /** __RBIT without the instruction: stop as soon as the rest of the word is zero. The count of
      missing shifts stays between 0 and 31. */
  method ReverseBits(word: nat) returns (result: nat)
    requires word < U32
    ensures IsReverse(word, result)
  {
    Pow2Values();
    var s: nat := 31;
    result := word;
    var value := ShiftRight(word, 1);
    assert Turned(word, result, 0);
    assert Pow2(32) == 2 * Pow2(31);
    while value != 0
      invariant s <= 31 && Turned(word, result, 31 - s)
      invariant value == ShiftRight(word, 32 - s) && value < Pow2(s)
      decreases value
    {
      assert s > 0;
      RoundTurns(word, result, 31 - s);
      ShiftMore(word, 32 - s);
      result := ShiftLeft(result, 1, 32);
      result := Or(result, And(value, 1, 32), 32);
      s := s - 1;
      value := ShiftRight(value, 1);
    }
    FinalShift(word, result, 31 - s);
    result := ShiftLeft(result, s, 32);
  }

  /** __ROR; a rotation by a multiple of 32 is caught first, since a shift by 32 is undefined in C. */
  function RotateRight(word: nat, turns: nat): nat {
    var n := turns % 32;
    if n == 0 then word else Or(ShiftRight(word, n), ShiftLeft(word, 32 - n, 32), 32)
  }

  lemma WrapIndex(i: nat, turns: nat)
    requires i < 32
    ensures (i + turns) % 32 == if i + turns % 32 < 32 then i + turns % 32 else i + turns % 32 - 32
  {
  }

  /** Bit `i` of the rotated word is bit `i + turns`, counted around the word. */
  lemma {:induction false} RotateRightAt(word: nat, turns: nat, i: nat)
    requires word < U32 && i < 32
    ensures Bit(RotateRight(word, turns), i) == Bit(word, (i + turns) % 32)
  {
    Pow2Values();
    WrapIndex(i, turns);
    if turns % 32 != 0 {
      RotatedAt(word, turns % 32, 32, i);
    }
  }

  /** Rotating a `w`-bit word by `n` places. */
  lemma {:induction false} RotatedAt(word: nat, n: nat, w: nat, i: nat)
    requires 0 < n < w && word < Pow2(w) && i < w
    ensures Bit(Or(ShiftRight(word, n), ShiftLeft(word, w - n, w), w), i)
         == Bit(word, if i + n < w then i + n else i + n - w)
  {
    BitwiseAt(Either, ShiftRight(word, n), ShiftLeft(word, w - n, w), w, i);
    BitOfShiftRight(word, n, i);
    BitOfShiftLeft(word, w - n, w, i);
    if i + n >= w {
      BitOfSmall(word, w, i + n);
    }
  }
}
