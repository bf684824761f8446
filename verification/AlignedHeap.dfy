/** SDK_Malloc and SDK_Free: aligned blocks carved out of raw heap blocks, with a hidden four-byte
    header (a magic number and the distance back to the raw block) just below each one.
    Addresses and sizes are 32-bit words. */
module AlignedHeap {
  import opened Bits

  const SIZE_MAX: nat := UINT32_MAX
  const HEADER: nat := 4
  const MAGIC: nat := 12345

  datatype Option<T> = None | Some(value: T)

  // ---- size and address arithmetic

  /** SDK_SIZEALIGN in 32-bit arithmetic. */
  function SizeAlign(x: nat, align: nat): nat
    requires align >= 1
  {
    AndNot((x + (align - 1)) % U32, align - 1, 32)
  }

  /** The least multiple of `m` that is at least `x`, without any width. */
  function RoundUp(x: nat, m: nat): nat
    requires m >= 1
  {
    if x == 0 then 0 else if x <= m then m else m + RoundUp(x - m, m)
  }

  lemma {:induction false} RoundUpIs(x: nat, m: nat)
    requires m >= 1
    ensures x <= RoundUp(x, m) < x + m && RoundUp(x, m) % m == 0
  {
    var q := RoundUpQuotient(x, m);
    DivModUnique(RoundUp(x, m), m, q, 0);
  }

  lemma {:induction false} RoundUpByDivision(x: nat, m: nat)
    requires m >= 1
    ensures (x + m - 1) / m * m == RoundUp(x, m)
  {
    var q := RoundUpQuotient(x, m);
    DivModUnique(x + m - 1, m, q, x + m - 1 - q * m);
  }

  lemma {:induction false} RoundUpQuotient(x: nat, m: nat) returns (q: nat)
    requires m >= 1
    ensures RoundUp(x, m) == q * m && x <= q * m < x + m
    decreases x
  {
    if x == 0 {
      q := 0;
    } else if x <= m {
      q := 1;
    } else {
      q := RoundUpQuotient(x - m, m);
      q := q + 1;
    }
  }

  lemma {:induction false} AlignmentBound(k: nat)
    requires k <= 31
    ensures 1 <= Pow2(k) <= 0x8000_0000 && Pow2(32) == U32
  {
    Pow2Values();
    Pow2Monotone(k, 31);
    assert Pow2(32) == 2 * Pow2(31);
  }

  /** The mask trick rounds up, and on overflow gives 0, which is what the caller's check detects. */
  lemma {:induction false} SizeAlignIs(x: nat, k: nat)
    requires x < U32 && k <= 31
    ensures SizeAlign(x, Pow2(k)) == if x + Pow2(k) - 1 < U32 then RoundUp(x, Pow2(k)) else 0
  {
    AlignmentBound(k);
    SizeAlignOf(x, k, Pow2(k));
  }

  lemma WrappedSum(x: nat, d: nat)
    requires x < U32 && d < U32
    ensures (x + d) % U32 == if x + d < U32 then x + d else x + d - U32
  {
  }

  lemma {:induction false} SizeAlignOf(x: nat, k: nat, m: nat)
    requires x < U32 && k <= 32 && m == Pow2(k) <= 0x8000_0000 && Pow2(32) == U32
    ensures SizeAlign(x, m) == if x + m - 1 < U32 then RoundUp(x, m) else 0
  {
    var sum := (x + (m - 1)) % U32;
    WrappedSum(x, m - 1);
    AndNotMaskRoundsDown(sum, k, 32);
    RoundedDown(x, m, sum);
  }

  lemma {:induction false} RoundedDown(x: nat, m: nat, sum: nat)
    requires x < U32 && 1 <= m <= 0x8000_0000 && sum == (if x + m - 1 < U32 then x + m - 1 else x + m - 1 - U32)
    ensures sum / m * m == if x + m - 1 < U32 then RoundUp(x, m) else 0
  {
    if x + m - 1 < U32 {
      RoundUpByDivision(x, m);
    } else {
      DivModUnique(sum, m, 0, sum);
    }
  }

  /** For any other alignment it still gives a value between `x` and `x + align - 1`, and on overflow one
      below `x`; but not always a multiple. */
  lemma {:induction false} SizeAlignBounds(x: nat, align: nat)
    requires x < U32 && 1 <= align < U32
    ensures if x + align - 1 < U32 then x <= SizeAlign(x, align) <= x + align - 1 else SizeAlign(x, align) < x
  {
    var sum := (x + (align - 1)) % U32;
    Pow2Values();
    WrappedSum(x, align - 1);
    AndSplits(sum, align - 1, 32);
  }

  predicate AlwaysMultiple(align: nat)
    requires align >= 1
  {
    forall x: nat | x + align - 1 < U32 :: SizeAlign(x, align) % align == 0
  }

  /** The mask expression always gives a multiple exactly for powers of two, and one bitwise test tells. */
  lemma {:induction false} MultiplesIffPowerOfTwo(align: nat)
    requires 1 <= align < U32
    ensures AlwaysMultiple(align) <==> IsPow2(align, 32)
    ensures IsPow2(align, 32) <==> And(align, align - 1, 32) == 0
  {
    Pow2Values();
    PowerOfTwoIff(align, 32);
    if And(align, align - 1, 32) == 0 {
      PowerAlwaysMultiple(align);
    } else {
      OneIsNoMultiple(align);
    }
  }

  lemma {:induction false} PowerAlwaysMultiple(align: nat)
    requires IsPow2(align, 32)
    ensures align >= 1 && AlwaysMultiple(align)
  {
    var k: nat :| k < 32 && align == Pow2(k);
    forall x: nat | x + align - 1 < U32
      ensures SizeAlign(x, align) % align == 0
    {
      SizeAlignIs(x, k);
      RoundUpIs(x, align);
    }
  }

  /** Rounding 1 up to an alignment that is not a power of two gives less than the alignment, but not 0. */
  lemma {:induction false} OneIsNoMultiple(align: nat)
    requires 1 <= align < U32 && And(align, align - 1, 32) != 0
    ensures !AlwaysMultiple(align)
  {
    Pow2Values();
    ClearBelow(align, 32);
    OneAligned(align);
    assert SizeAlign(1, align) % align != 0;
  }

  lemma OneAligned(align: nat)
    requires 1 <= align < U32
    ensures SizeAlign(1, align) == AndNot(align, align - 1, 32)
  {
    WrappedSum(1, align - 1);
  }

  lemma {:induction false} ClearBelow(x: nat, n: nat)
    requires 1 <= x < Pow2(n) && And(x, x - 1, n) != 0
    ensures 0 < AndNot(x, x - 1, n) < x && AndNot(x, x - 1, n) % x != 0
  {
    AndSplits(x, x - 1, n);
    DivModUnique(AndNot(x, x - 1, n), x, 0, AndNot(x, x - 1, n));
  }

  /** A four-byte header and `align` more bytes can be counted in 32 bits. */
  predicate Countable(align: nat) { align + HEADER <= SIZE_MAX }

  /** How much to ask the heap for, with 32-bit wrap-around; None is a refusal. */
  function PaddedSize(size: nat, align: nat): Option<nat>
    requires size < U32 && align < U32
  {
    if align == 0 || align >= SIZE_MAX then None else Pad(SizeAlign(size, align), size, align)
  }

  function Pad(aligned: nat, size: nat, align: nat): Option<nat> {
    if aligned < size then None
    else if aligned > (SIZE_MAX - align - HEADER) % U32 then None
    else Some((aligned + (align + HEADER) % U32) % U32)
  }

  lemma PadIs(aligned: nat, size: nat, align: nat)
    requires aligned < U32 && Countable(align)
    ensures Pad(aligned, size, align)
         == if size <= aligned && aligned + align + HEADER <= SIZE_MAX then Some(aligned + align + HEADER) else None
  {
  }

  /** The guards suffice, for every size, exactly for countable alignments: for the last three below SIZE_MAX
      the second guard itself wraps, and a request for 0 bytes asks malloc for less than a header. */
  lemma {:induction false} PaddingSufficesIff(align: nat)
    requires 1 <= align < SIZE_MAX
    ensures (forall size: nat | size < U32 ::
               PaddedSize(size, align).Some? ==> PaddedSize(size, align).value >= size + align + HEADER)
       <==> Countable(align)
  {
    if Countable(align) {
      forall size: nat | size < U32
        ensures PaddedSize(size, align).Some? ==> PaddedSize(size, align).value >= size + align + HEADER
      {
        SizeAlignBounds(size, align);
        PadIs(SizeAlign(size, align), size, align);
      }
    } else {
      NothingPadded(align);
    }
  }

  lemma {:induction false} NothingPadded(align: nat)
    requires 1 <= align < SIZE_MAX && !Countable(align)
    ensures PaddedSize(0, align) == Some(align + HEADER - U32)
  {
    NothingAligned(align);
    PadOfNothing(align);
  }

  lemma PadOfNothing(align: nat)
    requires align < SIZE_MAX && !Countable(align)
    ensures Pad(0, 0, align) == Some(align + HEADER - U32)
  {
    WrappedSum(align, HEADER);
  }

  lemma {:induction false} NothingAligned(align: nat)
    requires 1 <= align < U32
    ensures SizeAlign(0, align) == 0
  {
    Pow2Values();
    AndOfSame(align - 1, 32);
    AndSplits(align - 1, align - 1, 32);
  }

  /** A request is refused exactly when its true padded size does not fit, and never wraps otherwise. */
  lemma {:induction false} PaddedSizeIs(size: nat, k: nat)
    requires size < U32 && k <= 31
    ensures Pow2(k) < SIZE_MAX
    ensures var total := RoundUp(size, Pow2(k)) + Pow2(k) + HEADER;
      PaddedSize(size, Pow2(k)) == if total <= SIZE_MAX then Some(total) else None
  {
    var m := Pow2(k);
    AlignmentBound(k);
    SizeAlignIs(size, k);
    RoundUpIs(size, m);
    PadIs(SizeAlign(size, m), size, m);
  }

  /** Where the user's block starts inside a raw block at `base`. */
  function Place(base: nat, align: nat): nat
    requires align >= 1
  {
    SizeAlign((base + HEADER) % U32, align)
  }

  /** The block is aligned; header and user bytes lie inside the raw block; no address wraps. */
  lemma {:induction false} Layout(base: nat, size: nat, k: nat)
    requires k <= 31 && base + RoundUp(size, Pow2(k)) + Pow2(k) + HEADER <= U32
    ensures var p := Place(base, Pow2(k));
      && p % Pow2(k) == 0
      && base + HEADER <= p < base + HEADER + Pow2(k)
      && p + size <= base + RoundUp(size, Pow2(k)) + Pow2(k) + HEADER
  {
    RoundUpIs(size, Pow2(k));
    PlaceIs(base, k);
    RoundUpIs(base + HEADER, Pow2(k));
  }

  /** The same in terms of the computed request, for any alignment: it is a multiple for powers of two. */
  lemma {:induction false} PlaceInside(base: nat, size: nat, align: nat, n: nat)
    requires size < U32 && align < U32 && Countable(align) && PaddedSize(size, align) == Some(n) && base + n <= U32
    ensures var p := Place(base, align);
      && base + HEADER <= p < base + HEADER + align && p + size <= base + n && p < base + n
      && (IsPow2(align, 32) ==> p == RoundUp(base + HEADER, align) && p % align == 0)
  {
    SizeAlignBounds(size, align);
    PadIs(SizeAlign(size, align), size, align);
    PlaceBetween(base, align);
    if IsPow2(align, 32) {
      PlaceAligned(base, align);
    }
  }

  lemma {:induction false} PlaceAligned(base: nat, align: nat)
    requires IsPow2(align, 32) && base + HEADER + align <= U32
    ensures align >= 1 && Place(base, align) == RoundUp(base + HEADER, align) && Place(base, align) % align == 0
  {
    var k: nat :| k < 32 && align == Pow2(k);
    PlaceIs(base, k);
    RoundUpIs(base + HEADER, align);
  }

  lemma {:induction false} PlaceBetween(base: nat, align: nat)
    requires 1 <= align && base + HEADER + align <= U32
    ensures base + HEADER <= Place(base, align) < base + HEADER + align
  {
    assert (base + HEADER) % U32 == base + HEADER;
    SizeAlignBounds(base + HEADER, align);
  }

  lemma {:induction false} PlaceIs(base: nat, k: nat)
    requires k <= 31 && base + HEADER + Pow2(k) <= U32
    ensures Place(base, Pow2(k)) == RoundUp(base + HEADER, Pow2(k))
  {
    assert (base + HEADER) % U32 == base + HEADER;
    SizeAlignIs(base + HEADER, k);
  }

  // ---- does the offset fit its 16-bit field?

  /** Every placement for this alignment is close enough to its raw block for the header to say so. */
  ghost predicate OffsetsFit(align: nat)
    requires align >= 1
  {
    forall base: nat | 0 < base && base + align + HEADER <= U32 :: Place(base, align) - base < U16
  }

  /** A place is as far above its raw block as the header, and the bits of `align - 1` not in the sum rounded down. */
  lemma {:induction false} OffsetIs(base: nat, align: nat)
    requires 1 <= align && base + align + HEADER <= U32
    ensures Place(base, align) == base + HEADER + AndNot(align - 1, base + HEADER + align - 1, 32)
  {
    var sum, d := base + HEADER + align - 1, align - 1;
    Pow2Values();
    WrappedSum(base + HEADER, d);
    assert (base + HEADER) % U32 == base + HEADER;
    assert Place(base, align) == AndNot(sum, d, 32);
    Halves(sum, d, 32);
  }

  lemma {:induction false} Halves(x: nat, y: nat, n: nat)
    requires x < Pow2(n) && y < Pow2(n)
    ensures AndNot(x, y, n) + y == x + AndNot(y, x, n)
  {
    AndSplits(x, y, n);
    AndSplits(y, x, n);
    AndCommutes(x, y, n);
  }

  /** An `n`-bit word without its leading ones. */
  function Stripped(d: nat, n: nat): (r: nat)
    ensures r <= d
  {
    if n == 0 then 0 else if d >= Pow2(n - 1) then Stripped(d - Pow2(n - 1), n - 1) else d
  }

  lemma {:induction false} StrippedShort(d: nat, n: nat)
    requires d < Pow2(n) && n > 0
    ensures Stripped(d, n) < Pow2(n - 1)
    decreases n
  {
    if d >= Pow2(n - 1) && n > 1 {
      StrippedShort(d - Pow2(n - 1), n - 1);
    }
  }

  /** Larger words have the leading ones of a smaller one. */
  lemma {:induction false} NotIn(d: nat, s: nat, n: nat)
    requires d < s < Pow2(n)
    ensures AndNot(d, s, n) <= Stripped(d, n)
    decreases n
  {
    if n > 0 {
      var top := Pow2(n - 1);
      if d >= top {
        AndNotTop(d - top, d, s - top, s, n - 1);
        NotIn(d - top, s - top, n - 1);
      } else {
        AndSplits(d, s, n);
      }
    }
  }

  const FAR: nat := U16 - HEADER

  /** A word at least five larger that lacks enough of the bits of `d`. */
  lemma {:induction false} FarSum(d: nat, n: nat) returns (s: nat)
    requires d < Pow2(n) && Stripped(d, n) >= FAR && d + 65537 != Pow2(n)
    ensures d + HEADER < s < Pow2(n) && AndNot(d, s, n) >= FAR
    decreases n
  {
    var top := Pow2(n - 1);
    if d >= top {
      s := FarSum(d - top, n - 1);
      AndNotTop(d - top, d, s, s + top, n - 1);
      s := s + top;
    } else {
      s := FarAbove(d, n - 1);
    }
  }

  lemma {:induction false} FarAbove(d: nat, k: nat) returns (s: nat)
    requires FAR <= d < Pow2(k) && d + 65537 != 2 * Pow2(k)
    ensures d + HEADER < s < 2 * Pow2(k) && AndNot(d, s, k + 1) >= FAR
  {
    AtLeast16(d, k);
    var t: nat := if d + HEADER < Pow2(k) then 0 else if k == 16 then 3 else d + HEADER + 1 - Pow2(k);
    s := Pow2(k) + t;
    AndNotTop(d, d, t, s, k);
    AndSplits(d, t, k);
    if k == 16 {
      assert Pow2(2) == 4;
      AndMaskIsMod(d, 2, k);
    }
  }

  lemma {:induction false} AtLeast16(d: nat, k: nat)
    requires FAR <= d < Pow2(k)
    ensures k >= 16 && Pow2(16) == U16 && (k > 16 ==> Pow2(k) >= 2 * U16)
  {
    Pow2Values();
    if k < 16 {
      Pow2Monotone(k, 15);
    } else if k > 16 {
      Pow2Monotone(17, k);
    }
  }

  /** The offset field suffices for every placement exactly when what follows the leading ones of `align - 1`
      is small, or, by the shortage of room above, for one alignment more. */
  lemma {:induction false} OffsetFitsIff(align: nat)
    requires 1 <= align && Countable(align)
    ensures OffsetsFit(align) <==> Stripped(align - 1, 32) < FAR || align == 0xFFFF_0000
  {
    Pow2Values();
    if Stripped(align - 1, 32) < FAR || align == 0xFFFF_0000 {
      forall base: nat | 0 < base && base + align + HEADER <= U32
        ensures Place(base, align) - base < U16
      {
        NearPlace(base, align);
      }
    } else {
      var s := FarSum(align - 1, 32);
      var base: nat := s - (HEADER + align - 1);
      OffsetIs(base, align);
    }
  }

  lemma {:induction false} NearPlace(base: nat, align: nat)
    requires 1 <= align && 0 < base && base + align + HEADER <= U32
    requires Stripped(align - 1, 32) < FAR || align == 0xFFFF_0000
    ensures Place(base, align) - base < U16
  {
    Pow2Values();
    OffsetIs(base, align);
    var sum := base + HEADER + align - 1;
    NotIn(align - 1, sum, 32);
    AndNotBeside(align - 1, sum, 32);
  }

  /** So it does for every alignment up to 65532, and for no larger one up to 2^31, powers of two among them. */
  lemma {:induction false} OffsetFitsUpTo65532(align: nat)
    requires 1 <= align <= 0x8000_0000
    ensures OffsetsFit(align) <==> align <= 65532
  {
    OffsetFitsIff(align);
    Pow2Values();
    TopOff(align - 1, 32);
  }

  lemma TopOff(d: nat, n: nat)
    requires n > 0 && d < Pow2(n - 1)
    ensures Stripped(d, n) == d
  {
  }

  // ---- the heap

  type Byte = b: nat | b < U8

  datatype Block = Block(base: nat, size: nat)

  predicate Apart(a: nat, n: nat, b: nat, m: nat) { a + n <= b || b + m <= a }

  /** A little-endian half-word, as the header's fields are stored. */
  function Half(mem: seq<Byte>, a: nat): nat
    requires a + 1 < |mem|
  {
    mem[a] + U8 * mem[a + 1]
  }

  function LowByte(v: nat): Byte { v % U8 }

  function SetHalf(mem: seq<Byte>, a: nat, v: nat): seq<Byte>
    requires a + 1 < |mem|
  {
    mem[a := LowByte(v)][a + 1 := LowByte(v / U8)]
  }

  /** The header just below `p`. */
  function WriteHeader(mem: seq<Byte>, p: nat, offset: nat): (r: seq<Byte>)
    requires HEADER <= p <= |mem|
    ensures |r| == |mem| && forall a | 0 <= a < |mem| && !(p - HEADER <= a < p) :: r[a] == mem[a]
  {
    SetHalf(SetHalf(mem, p - 4, MAGIC), p - 2, offset)
  }

  /** There is a header with this offset below `p`. */
  predicate Headed(mem: seq<Byte>, p: nat, offset: nat) {
    |mem| == U32 && 4 <= p < U32 && Half(mem, p - 4) == 12345 && Half(mem, p - 2) == offset
  }

  /** The header gives back the magic number, and the distance to the raw block exactly if that fits 16 bits. */
  lemma {:induction false} HeaderReadsBack(mem: seq<Byte>, base: nat, p: nat)
    requires base + HEADER <= p <= |mem|
    ensures var r := WriteHeader(mem, p, (p - base) % U16);
      && Half(r, p - 4) == MAGIC && Half(r, p - 2) == (p - base) % U16
      && (Half(r, p - 2) == p - base <==> p - base < U16)
  {
  }

  /** Held raw blocks are in range and pairwise apart. */
  predicate RawSound(raw: map<nat, nat>) {
    && (forall b | b in raw :: 0 < b && b + raw[b] <= U32)
    && forall b, c | b in raw && c in raw && b != c :: Apart(b, raw[b], c, raw[c])
  }

  /** Live block `p`: inside its raw block with its header, which names that raw block. */
  predicate Placed(mem: seq<Byte>, raw: map<nat, nat>, p: nat, b: Block) {
    && |mem| == U32 && b.base in raw
    && b.base + HEADER <= p && p + b.size <= b.base + raw[b.base] <= U32 && p < b.base + raw[b.base]
    && Half(mem, p - 4) == MAGIC && Half(mem, p - 2) == p - b.base
  }

  predicate AllPlaced(mem: seq<Byte>, raw: map<nat, nat>, live: map<nat, Block>) {
    forall p | p in live :: Placed(mem, raw, p, live[p])
  }

  /** No two live blocks share a raw block. */
  predicate Distinct(live: map<nat, Block>) {
    forall p, q | p in live && q in live && p != q :: live[p].base != live[q].base
  }

  /** The raw block at `b` carries a live block. */
  ghost predicate Used(live: map<nat, Block>, b: nat) {
    exists p :: p in live && live[p].base == b
  }

  /** Live user blocks and held raw blocks correspond one to one. */
  ghost predicate Sound(mem: seq<Byte>, raw: map<nat, nat>, live: map<nat, Block>) {
    && |mem| == U32
    && RawSound(raw)
    && AllPlaced(mem, raw, live)
    && Distinct(live)
    && forall b | b in raw :: Used(live, b)
  }

  /** Live blocks never overlap, headers included. */
  lemma {:induction false} LiveBlocksApart(mem: seq<Byte>, raw: map<nat, nat>, live: map<nat, Block>, p: nat, q: nat)
    requires Sound(mem, raw, live) && p in live && q in live && p != q
    ensures p >= HEADER && q >= HEADER
    ensures Apart(p - HEADER, HEADER + live[p].size, q - HEADER, HEADER + live[q].size)
  {
  }

  /** What a caller owns is protected: every user byte of a live block belongs to its held raw block. */
  lemma {:induction false} UserBytesHeld(mem: seq<Byte>, raw: map<nat, nat>, live: map<nat, Block>, p: nat, i: nat)
    requires Sound(mem, raw, live) && p in live && i < live[p].size
    ensures p + i < U32 && Held(raw, p + i)
  {
  }

  /** Byte `a` belongs to a held raw block. */
  predicate Held(raw: map<nat, nat>, a: nat) { exists b :: b in raw && b <= a < b + raw[b] }

  /** No byte of a held block differs. */
  ghost predicate HeldUnchanged(raw: map<nat, nat>, mem: seq<Byte>, mem': seq<Byte>) {
    |mem| == U32 == |mem'| && forall a: nat | a < U32 && Held(raw, a) :: mem'[a] == mem[a]
  }

  /** Is there room for `n` bytes at `base`? */
  predicate Available(raw: map<nat, nat>, base: nat, n: nat) {
    base > 0 && base !in raw && base + n <= U32 && forall b | b in raw :: Apart(base, n, b, raw[b])
  }

  /** A call of malloc: the size asked for and the base returned, 0 for none. */
  datatype Request = Request(size: nat, base: nat)

  /** The call of malloc for one request, if it comes to one. */
  function Calls(size: nat, align: nat, base: nat): seq<Request>
    requires size < U32 && align < U32
  {
    match PaddedSize(size, align)
    case None => []
    case Some(n) => [Request(n, base)]
  }

  /** The block handed out when malloc answered `base`. */
  function Granted(size: nat, align: nat, base: nat): nat
    requires size < U32 && align < U32
  {
    if PaddedSize(size, align) == None || base == 0 then 0 else Place(base, align)
  }

  /** A block of `size` bytes at `p`, with its header, in a raw block of `n` bytes at `base`: below the first
      `align` addresses that leave room for the header, and for a power of two at the lowest multiple. */
  predicate WellPlaced(size: nat, align: nat, base: nat, p: nat, n: nat) {
    && base + n <= U32 && p < base + n && p + size <= base + n
    && align >= 1 && base + HEADER <= p < base + HEADER + align
    && (IsPow2(align, 32) ==> p == RoundUp(base + HEADER, align) && p % align == 0)
  }

  lemma {:induction false} PlacedWell(base: nat, size: nat, align: nat, n: nat)
    requires size < U32 && align < U32 && Countable(align) && PaddedSize(size, align) == Some(n)
    requires base != 0 && base + n <= U32
    ensures Granted(size, align, base) == Place(base, align)
    ensures WellPlaced(size, align, base, Place(base, align), n)
  {
    PlaceInside(base, size, align, n);
  }

  /** The address `d` bytes below `p`, in 32 bits. */
  function Below(p: nat, d: nat): nat
    requires p < U32 && d < U32
  {
    if d <= p then p - d else p + U32 - d
  }

  /** Is the magic number below `p`, and where does the offset there lead? */
  predicate Marked(mem: seq<Byte>, p: nat)
    requires |mem| == U32 && (p == 0 || HEADER <= p < U32)
  {
    Half(mem, Below(p, 4)) == MAGIC
  }

  function Origin(mem: seq<Byte>, p: nat): nat
    requires |mem| == U32 && (p == 0 || HEADER <= p < U32)
  {
    Below(p, Half(mem, Below(p, 2)))
  }

  class Heap {
    var mem: seq<Byte>
    var raw: map<nat, nat>           // blocks held from malloc: base to size
    ghost var live: map<nat, Block>  // blocks handed to callers
    ghost var asked: seq<Request>    // calls of malloc so far

    /** Nothing allocated, anything in memory. */
    constructor (mem: seq<Byte>)
      requires |mem| == U32
      ensures Valid() && this.mem == mem && raw == map[] && live == map[] && asked == []
    {
      this.mem, raw, live, asked := mem, map[], map[], [];
    }

    ghost predicate Valid()
      reads this
    {
      Sound(mem, raw, live)
    }

    /** malloc and free may put anything into bytes that belong to no held block. */
    method Scribble()
      requires |mem| == U32
      modifies this`mem
      ensures HeldUnchanged(raw, old(mem), mem)
    {
      var scratch: seq<Byte> := *;
      if |scratch| == U32 {
        var was, held := mem, raw;
        mem := seq(U32, a requires 0 <= a < U32 => if Held(held, a) then was[a] else scratch[a]);
      }
    }

    /** malloc: null, or a new block of the size asked for that overlaps nothing held. */
    method RawMalloc(n: nat) returns (base: nat)
      requires Valid()
      modifies this`raw, this`mem, this`asked
      ensures HeldUnchanged(old(raw), old(mem), mem) && asked == old(asked) + [Request(n, base)]
      ensures base == 0 ==> raw == old(raw)
      ensures base != 0 ==> base !in old(raw) && base + n <= U32 && raw == old(raw)[base := n] && RawSound(raw)
    {
      Scribble();
      base := *;
      if !Available(raw, base, n) {
        base := 0;
      }
      asked := asked + [Request(n, base)];
      if base == 0 {
        return;
      }
      raw := raw[base := n];
    }

    /** free, of a held block or of null. */
    method RawFree(base: nat)
      requires |mem| == U32 && (base == 0 || base in raw)
      modifies this`raw, this`mem
      ensures raw == (if base == 0 then old(raw) else old(raw) - {base}) && HeldUnchanged(raw, old(mem), mem)
    {
      if base != 0 {
        raw := raw - {base};
      }
      Scribble();
    }

    /** SDK_Malloc. For an alignment that is not a power of two the block need not be a multiple of it, and
        one too far above its raw block to record the distance leaves a heap that is not sound. */
    method Malloc(size: nat, align: nat) returns (p: nat, ghost base: nat)
      requires Valid() && size < U32 && align < U32 && (Countable(align) || align >= SIZE_MAX)
      modifies this
      ensures HeldUnchanged(old(raw), old(mem), mem)
      ensures Valid() <==> p == 0 || p - base < U16
      // malloc is asked once, for the padded size, unless the request is refused outright
      ensures asked == old(asked) + Calls(size, align, base)
      ensures PaddedSize(size, align) == None ==> base == 0
      ensures p == Granted(size, align, base) && (p == 0 <==> base == 0)
      ensures p == 0 ==> live == old(live) && raw == old(raw)
      // the block is above the header, in a raw block of its own; for a power of two it is the lowest aligned address
      ensures p != 0 ==>
        && PaddedSize(size, align).Some? && WellPlaced(size, align, base, p, PaddedSize(size, align).value)
        && p !in old(live) && live == old(live)[p := Block(base, size)]
        && base !in old(raw) && raw == old(raw)[base := PaddedSize(size, align).value]
      ensures p != 0 ==> Headed(mem, p, (p - base) % U16)
    {
      var padded := PaddedSize(size, align);
      if padded == None {
        return 0, 0;
      }
      p, base := MallocPadded(size, align, padded.value);
    }

    method MallocPadded(size: nat, align: nat, n: nat) returns (p: nat, ghost base: nat)
      requires Valid() && size < U32 && align < U32 && Countable(align) && PaddedSize(size, align) == Some(n)
      modifies this
      ensures HeldUnchanged(old(raw), old(mem), mem) && asked == old(asked) + [Request(n, base)]
      ensures p == Granted(size, align, base) && (p == 0 <==> base == 0)
      ensures Valid() <==> p == 0 || p - base < U16
      ensures p == 0 ==> live == old(live) && raw == old(raw)
      ensures p != 0 ==> WellPlaced(size, align, base, p, n)
      ensures p != 0 ==> p !in old(live) && live == old(live)[p := Block(base, size)]
      ensures p != 0 ==> base !in old(raw) && raw == old(raw)[base := n]
      ensures p != 0 ==> Headed(mem, p, (p - base) % U16)
    {
      ghost var held, before := raw, mem;
      var addr := RawMalloc(n);
      base := addr;
      if addr == 0 {
        StillSound(before, mem, raw, live);
        return 0, 0;
      }
      PlacedWell(addr, size, align, n);
      p := Place(addr, align);
      Grant(held, before, addr, p, size);
    }

    /** Write the header below `p`, inside the raw block just obtained. */
    method Grant(ghost held: map<nat, nat>, ghost before: seq<Byte>, base: nat, p: nat, size: nat)
      requires Sound(before, held, live) && HeldUnchanged(held, before, mem)
      requires RawSound(raw) && base !in held && base in raw && raw == held[base := raw[base]]
      requires base + HEADER <= p && p + size <= base + raw[base] && p < base + raw[base]
      modifies this`mem, this`live
      ensures HeldUnchanged(held, before, mem) && (Valid() <==> p - base < U16)
      ensures p !in old(live) && live == old(live)[p := Block(base, size)]
      ensures Headed(mem, p, (p - base) % U16)
    {
      ghost var scribbled := mem;
      mem := WriteHeader(mem, p, (p - base) % U16);
      HeaderReadsBack(scribbled, base, p);
      NewBlockApart(held, raw, base, before, scribbled, mem, p);
      NotGrantedYet(before, held, live, raw, base, p);
      if p - base < U16 {
        GrantKeepsSound(before, held, live, mem, raw, base, p, size);
      }
      live := live[p := Block(base, size)];
      assert AllPlaced(mem, raw, live) ==> Placed(mem, raw, p, live[p]);
    }

    /** SDK_Free. The header of a live block leads back to exactly the raw block it came from; a pointer
        without the magic number below it is ignored. Any other pointer must lead to something that free
        accepts: null, or a raw block, which is then lost to the caller it was granted to. */
    method Free(p: nat)
      requires Valid() && (p == 0 || HEADER <= p < U32)
      requires Marked(mem, p) ==> Origin(mem, p) == 0 || Origin(mem, p) in raw
      modifies this`mem, this`raw, this`live
      ensures HeldUnchanged(raw, old(mem), mem)
      ensures if Marked(old(mem), p) then live == old(live) - {p} && raw == old(raw) - {Origin(old(mem), p)}
              else live == old(live) && raw == old(raw) && mem == old(mem)
      ensures p in old(live) ==> Marked(old(mem), p) && Origin(old(mem), p) == old(live)[p].base
      ensures Valid() <==> p in old(live) || raw == old(raw)
    {
      if p in live {
        OriginOfLive(mem, raw, live, p);
      }
      if !Marked(mem, p) {
        return;
      }
      var base := Origin(mem, p);
      ghost var before, held, owned := mem, raw, live;
      live := live - {p};
      RawFree(base);
      AfterFree(before, held, owned, p, base, mem, raw);
    }

    /** A caller writes inside a block it owns. */
    method ClientWrite(p: nat, i: nat, v: Byte)
      requires Valid() && p in live && i < live[p].size
      modifies this`mem
      ensures Valid() && mem == old(mem)[p + i := v]
    {
      assert Placed(mem, raw, p, live[p]);
      ClientKeepsSound(mem, raw, live, p, i, v);
      mem := mem[p + i := v];
    }
  }

  /** What happens outside held blocks does not matter. */
  lemma {:induction false} StillSound(mem: seq<Byte>, mem': seq<Byte>, raw: map<nat, nat>, live: map<nat, Block>)
    requires Sound(mem, raw, live) && HeldUnchanged(raw, mem, mem')
    ensures Sound(mem', raw, live)
  {
  }

  /** The header written into a new raw block touches no block held before. */
  lemma {:induction false} NewBlockApart(raw: map<nat, nat>, raw': map<nat, nat>, base: nat,
                                         mem: seq<Byte>, scribbled: seq<Byte>, mem': seq<Byte>, p: nat)
    requires RawSound(raw') && base !in raw && base in raw' && raw' == raw[base := raw'[base]]
    requires HeldUnchanged(raw, mem, scribbled) && |mem'| == U32 && base + HEADER <= p < base + raw'[base]
    requires forall a | 0 <= a < U32 && !(p - HEADER <= a < p) :: mem'[a] == scribbled[a]
    ensures HeldUnchanged(raw, mem, mem')
  {
    forall a: nat | a < U32 && Held(raw, a)
      ensures mem'[a] == mem[a]
    {
      var c :| c in raw && c <= a < c + raw[c];
      assert c in raw' && c != base && Apart(c, raw'[c], base, raw'[base]);
    }
  }

  lemma {:induction false} UsedAfterGrant(live: map<nat, Block>, p: nat, block: Block, b: nat)
    requires p !in live && (b == block.base || Used(live, b))
    ensures Used(live[p := block], b)
  {
    var live' := live[p := block];
    if b == block.base {
      assert p in live' && live'[p].base == b;
    } else {
      var q :| q in live && live[q].base == b;
      assert q in live' && live'[q].base == b;
    }
  }

  lemma {:induction false} PlacedAfterGrant(mem: seq<Byte>, raw: map<nat, nat>, live: map<nat, Block>,
                                            mem': seq<Byte>, raw': map<nat, nat>, base: nat, p: nat, size: nat)
    requires AllPlaced(mem, raw, live) && Distinct(live) && HeldUnchanged(raw, mem, mem')
    requires RawSound(raw') && base !in raw && base in raw' && raw' == raw[base := raw'[base]]
    requires Placed(mem', raw', p, Block(base, size)) && p < base + raw'[base]
    ensures p !in live && AllPlaced(mem', raw', live[p := Block(base, size)])
    ensures Distinct(live[p := Block(base, size)])
  {
    NotGrantedYet(mem, raw, live, raw', base, p);
  }

  lemma {:induction false} GrantKeepsSound(mem: seq<Byte>, raw: map<nat, nat>, live: map<nat, Block>,
                                           mem': seq<Byte>, raw': map<nat, nat>, base: nat, p: nat, size: nat)
    requires Sound(mem, raw, live) && RawSound(raw') && base !in raw && base in raw'
    requires raw' == raw[base := raw'[base]]
    requires Placed(mem', raw', p, Block(base, size)) && p < base + raw'[base] && HeldUnchanged(raw, mem, mem')
    ensures p !in live && Sound(mem', raw', live[p := Block(base, size)])
  {
    PlacedAfterGrant(mem, raw, live, mem', raw', base, p, size);
    forall b | b in raw'
      ensures Used(live[p := Block(base, size)], b)
    {
      UsedAfterGrant(live, p, Block(base, size), b);
    }
  }

  /** A place inside a new raw block is not one of the blocks granted before. */
  lemma {:induction false} NotGrantedYet(mem: seq<Byte>, raw: map<nat, nat>, live: map<nat, Block>,
                                         raw': map<nat, nat>, base: nat, p: nat)
    requires AllPlaced(mem, raw, live) && RawSound(raw')
    requires base !in raw && base in raw' && raw' == raw[base := raw'[base]] && base + HEADER <= p < base + raw'[base]
    ensures p !in live
  {
    forall q | q in live
      ensures q != p
    {
      assert Placed(mem, raw, q, live[q]);
      var c := live[q].base;
      assert raw'[c] == raw[c] && Apart(c, raw'[c], base, raw'[base]);
    }
  }

  lemma {:induction false} UsedAfterRelease(live: map<nat, Block>, p: nat, b: nat)
    requires p in live && live[p].base != b && Used(live, b)
    ensures Used(live - {p}, b)
  {
    var live' := live - {p};
    var q :| q in live && live[q].base == b;
    assert q in live' && live'[q].base == b;
  }

  lemma {:induction false} PlacedAfterRelease(mem: seq<Byte>, raw: map<nat, nat>, live: map<nat, Block>,
                                              p: nat, base: nat)
    requires AllPlaced(mem, raw, live) && Distinct(live) && p in live && base == live[p].base
    ensures AllPlaced(mem, raw - {base}, live - {p})
  {
  }

  lemma {:induction false} ReleaseKeepsSound(mem: seq<Byte>, raw: map<nat, nat>, live: map<nat, Block>, p: nat,
                                             base: nat)
    requires Sound(mem, raw, live) && p in live && base == live[p].base
    ensures Sound(mem, raw - {base}, live - {p})
  {
    PlacedAfterRelease(mem, raw, live, p, base);
    forall b | b in raw - {base}
      ensures Used(live - {p}, b)
    {
      UsedAfterRelease(live, p, b);
    }
    assert RawSound(raw - {base});
    assert Distinct(live - {p});
  }

  /** A raw block freed behind its owner's back leaves a live block without one. */
  lemma {:induction false} Orphaned(mem: seq<Byte>, raw: map<nat, nat>, live: map<nat, Block>,
                                    mem0: seq<Byte>, raw0: map<nat, nat>, live0: map<nat, Block>, base: nat)
    requires Sound(mem0, raw0, live0) && base in raw0 && raw == raw0 - {base} && live == live0
    ensures !Sound(mem, raw, live)
  {
    assert Used(live0, base);
    var q :| q in live0 && live0[q].base == base;
    assert !Placed(mem, raw, q, live[q]);
  }

  /** The header of a live block leads to its raw block. */
  lemma {:induction false} OriginOfLive(mem: seq<Byte>, raw: map<nat, nat>, live: map<nat, Block>, p: nat)
    requires Sound(mem, raw, live) && p in live
    ensures HEADER <= p < U32 && Marked(mem, p) && Origin(mem, p) == live[p].base > 0 && live[p].base in raw
  {
    assert Placed(mem, raw, p, live[p]);
    BelowIs(p, 4);
    BelowIs(p, 2);
    BelowIs(p, p - live[p].base);
  }

  lemma BelowIs(p: nat, d: nat)
    requires d <= p < U32
    ensures Below(p, d) == p - d
  {
  }

  /** Releasing a live block. */
  lemma {:induction false} FreeLive(mem: seq<Byte>, raw: map<nat, nat>, live: map<nat, Block>, p: nat,
                                    mem': seq<Byte>, raw': map<nat, nat>)
    requires Sound(mem, raw, live) && p in live
    requires raw' == raw - {live[p].base} && HeldUnchanged(raw', mem, mem')
    ensures Sound(mem', raw', live - {p})
  {
    ReleaseKeepsSound(mem, raw, live, p, live[p].base);
    StillSound(mem, mem', raw', live - {p});
  }

  /** Releasing null. */
  lemma {:induction false} FreeNull(mem: seq<Byte>, raw: map<nat, nat>, live: map<nat, Block>, mem': seq<Byte>)
    requires Sound(mem, raw, live) && HeldUnchanged(raw, mem, mem')
    ensures raw - {0} == raw && Sound(mem', raw, live)
  {
    StillSound(mem, mem', raw, live);
  }

  /** Releasing what the header of `p` leads to. */
  lemma {:induction false} AfterFree(mem: seq<Byte>, raw: map<nat, nat>, live: map<nat, Block>, p: nat, base: nat,
                                     mem': seq<Byte>, raw': map<nat, nat>)
    requires Sound(mem, raw, live) && (base == 0 || base in raw) && (p in live ==> base == live[p].base > 0)
    requires raw' == (if base == 0 then raw else raw - {base}) && HeldUnchanged(raw', mem, mem')
    ensures raw' == raw - {base}
    ensures Sound(mem', raw', live - {p}) <==> p in live || raw' == raw
  {
    if p in live {
      FreeLive(mem, raw, live, p, mem', raw');
    } else {
      assert live - {p} == live;
      if base == 0 {
        FreeNull(mem, raw, live, mem');
      } else {
        Orphaned(mem', raw', live, mem, raw, live, base);
      }
    }
  }

  lemma {:induction false} ClientKeepsSound(mem: seq<Byte>, raw: map<nat, nat>, live: map<nat, Block>,
                                            p: nat, i: nat, v: Byte)
    requires Sound(mem, raw, live) && p in live && i < live[p].size
    ensures p + i < U32 && Sound(mem[p + i := v], raw, live)
  {
    UserBytesHeld(mem, raw, live, p, i);
    forall q | q in live
      ensures SameHeader(mem, mem[p + i := v], q)
    {
      HeaderSafe(mem, raw, live, p, i, q);
    }
    HeadersKept(mem, raw, live, mem[p + i := v]);
  }

  predicate SameHeader(mem: seq<Byte>, mem': seq<Byte>, q: nat) {
    && |mem'| == |mem| == U32 && HEADER <= q <= U32
    && Half(mem', q - 4) == Half(mem, q - 4) && Half(mem', q - 2) == Half(mem, q - 2)
  }

  /** No header lies where a caller may write. */
  lemma {:induction false} HeaderSafe(mem: seq<Byte>, raw: map<nat, nat>, live: map<nat, Block>, p: nat,
                                      i: nat, q: nat)
    requires Sound(mem, raw, live) && p in live && i < live[p].size && q in live
    ensures HEADER <= q <= U32 && !(q - HEADER <= p + i < q)
  {
    assert Placed(mem, raw, q, live[q]);
    if q != p {
      LiveBlocksApart(mem, raw, live, p, q);
    }
  }

  lemma {:induction false} HeadersKept(mem: seq<Byte>, raw: map<nat, nat>, live: map<nat, Block>, mem': seq<Byte>)
    requires AllPlaced(mem, raw, live) && forall q | q in live :: SameHeader(mem, mem', q)
    ensures AllPlaced(mem', raw, live)
  {
    forall q | q in live
      ensures Placed(mem', raw, q, live[q])
    {
      assert Placed(mem, raw, q, live[q]) && SameHeader(mem, mem', q);
    }
  }
}
