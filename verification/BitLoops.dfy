/** The bit-scanning loops of the compiler headers: __CLZ, __RBIT and __ROR. */
module BitLoops {
  import opened Bits

  // ----- __CLZ -----

  /** The number of binary digits of x. */
  function BitLength(x: nat): nat {
    if x == 0 then 0 else 1 + BitLength(x / 2)
  }

  /** The number of zero bits above the highest one bit of a 32-bit word. */
  function LeadingZeros(x: uint32): (c: nat)
    ensures c <= 32
  {
    Pow2Values();
    BitLengthBound(x, 32);
    32 - BitLength(x)
  }

  lemma {:induction false} BitLengthBound(x: nat, n: nat)
    requires x < Pow2(n)
    ensures BitLength(x) <= n
  {
    if x != 0 {
      BitLengthBound(x / 2, n - 1);
    }
  }

  lemma {:induction false} BitLengthRange(x: nat)
    requires x > 0
    ensures BitLength(x) > 0 && Pow2(BitLength(x) - 1) <= x < Pow2(BitLength(x))
  {
    if x / 2 > 0 {
      BitLengthRange(x / 2);
    } else {
      assert BitLength(x) == 1 && Pow2(1) == 2;
    }
  }

  /** The leading-zero count is the shift that moves x to the top of the word. */
  lemma LeadingZerosNormalise(x: uint32)
    requires x > 0
    ensures LeadingZeros(x) < 32
    ensures 0x8000_0000 <= x * Pow2(LeadingZeros(x)) < 0x1_0000_0000
  {
    BitLengthRange(x);
    Pow2Values();
    ShiftRange(x, BitLength(x), LeadingZeros(x));
  }

  /** The count is determined by that, and is 32 for the word without a one bit. */
  lemma LeadingZerosExactly(x: uint32, c: nat)
    ensures LeadingZeros(x) == c <==> if x == 0 then c == 32 else 0x8000_0000 <= x * Pow2(c) < 0x1_0000_0000
  {
    if x > 0 {
      LeadingZerosNormalise(x);
      hide LeadingZeros;
      if c < LeadingZeros(x) {
        DoublesAtLeast(x, c, LeadingZeros(x));
      } else if c > LeadingZeros(x) {
        DoublesAtLeast(x, LeadingZeros(x), c);
      }
    }
  }

  lemma DoublesAtLeast(x: nat, c: nat, d: nat)
    requires c < d
    ensures 2 * (x * Pow2(c)) <= x * Pow2(d)
  {
    Pow2Monotone(c + 1, d);
    assert Pow2(c + 1) == 2 * Pow2(c);
    MulMonotone(2 * Pow2(c), Pow2(d), x);
    MulAssoc(2, Pow2(c), x);
  }

  lemma ShiftRange(x: nat, n: nat, c: nat)
    requires n > 0 && Pow2(n - 1) <= x < Pow2(n)
    ensures Pow2(n - 1 + c) <= x * Pow2(c) < Pow2(n + c)
  {
    Pow2Add(n - 1, c);
    Pow2Add(n, c);
    MulMonotone(Pow2(n - 1), x, Pow2(c));
    MulMonotone(x, Pow2(n) - 1, Pow2(c));
    assert (Pow2(n) - 1) * Pow2(c) == Pow2(n) * Pow2(c) - Pow2(c);
  }

  lemma {:induction false} HighestBit(x: nat, k: nat, n: nat)
    requires x < Pow2(n) && k < n
    requires Bit(x, k) && forall i: nat :: k < i < n ==> !Bit(x, i)
    ensures BitLength(x) == k + 1
  {
    if k == 0 {
      forall i: nat | i < n - 1
        ensures Bit(x / 2, i) == Bit(0, i)
      {
        BitZero(i);
        assert Bit(x, i + 1) == Bit(x / 2, i);
      }
      BitExtensional(x / 2, 0, n - 1);
    } else {
      BitZero(k);
      forall i: nat | k - 1 < i < n - 1
        ensures !Bit(x / 2, i)
      {
        assert !Bit(x, i + 1);
      }
      HighestBit(x / 2, k - 1, n - 1);
    }
  }

  /** A one-bit mask tests that bit. */
  lemma {:induction false} AndOneBit(x: nat, k: nat)
    ensures And(x, Pow2(k)) == 0 <==> !Bit(x, k)
  {
    BitZero(k);
    if x != 0 {
      if k == 0 {
        assert And(x / 2, 0) == 0;
      } else {
        AndOneBit(x / 2, k - 1);
      }
    }
  }

  method CountLeadingZeros(data: uint32) returns (count: nat)
    ensures count == LeadingZeros(data)
  {
    if data == 0 {
      return 32;
    }
    count := 0;
    var mask: uint32 := 0x8000_0000;
    Pow2Values();
    AndOneBit(data, 31);
    while And(data, mask) == 0
      invariant count <= 31 && mask == Pow2(31 - count)
      invariant forall i: nat :: 31 - count < i < 32 ==> !Bit(data, i)
      invariant And(data, mask) == 0 <==> !Bit(data, 31 - count)
      decreases 31 - count
    {
      if count == 31 {
        forall i: nat | i < 32
          ensures Bit(data, i) == Bit(0, i)
        {
          BitZero(i);
        }
        BitExtensional(data, 0, 32);
      }
      count := count + 1;
      mask := mask / 2;
      AndOneBit(data, 31 - count);
    }
    HighestBit(data, 31 - count, 32);
  }

  // ----- __RBIT -----

  /** The word whose n bits are those of v in the opposite order. */
  function Reverse(v: nat, n: nat): (r: nat)
    ensures r < Pow2(n)
  {
    if n == 0 then 0 else (if v % 2 == 1 then Pow2(n - 1) else 0) + Reverse(v / 2, n - 1)
  }

  lemma {:induction false} ReverseBit(v: nat, n: nat, i: nat)
    requires i < n
    ensures Bit(Reverse(v, n), i) == Bit(v, n - 1 - i)
  {
    var r := Reverse(v / 2, n - 1);
    TopBit(r, n - 1, v % 2 == 1, i);
    if i < n - 1 {
      ReverseBit(v / 2, n - 1, i);
    }
  }

  /** A number below 2^n with or without 2^n added. */
  lemma TopBit(r: nat, n: nat, top: bool, i: nat)
    requires r < Pow2(n) && i <= n
    ensures Bit((if top then Pow2(n) else 0) + r, i) == if i == n then top else Bit(r, i)
  {
    if top {
      OrDisjoint(1, r, n);
      BitOr(Pow2(n), r, i);
      BitMul(1, n, i);
    }
    if i == n {
      BitHigh(r, n, n);
    }
  }

  lemma ReverseInvolution(v: nat, n: nat)
    requires v < Pow2(n)
    ensures Reverse(Reverse(v, n), n) == v
  {
    forall i: nat | i < n
      ensures Bit(Reverse(Reverse(v, n), n), i) == Bit(v, i)
    {
      ReverseBit(Reverse(v, n), n, i);
      ReverseBit(v, n, n - 1 - i);
    }
    BitExtensional(Reverse(Reverse(v, n), n), v, n);
  }

  /** The number of zero bits below the lowest one bit. */
  function TrailingZeros(v: nat): nat
    requires v > 0
  {
    if v % 2 == 1 then 0 else 1 + TrailingZeros(v / 2)
  }

  lemma {:induction false} LowestBit(v: nat, i: nat)
    requires v > 0
    ensures Bit(v, TrailingZeros(v))
    ensures i < TrailingZeros(v) ==> !Bit(v, i)
  {
    if v % 2 == 0 {
      LowestBit(v / 2, if i == 0 then 0 else i - 1);
    }
  }

  lemma {:induction false} TrailingZerosBound(v: nat, n: nat)
    requires 0 < v < Pow2(n)
    ensures TrailingZeros(v) < n
  {
    if v % 2 == 0 {
      TrailingZerosBound(v / 2, n - 1);
    }
  }

  /** Counting leading zeros of the reversed word counts the trailing zeros. */
  lemma LeadingZerosOfReverse(v: uint32)
    requires v > 0
    ensures Reverse(v, 32) < TWO32
    ensures LeadingZeros(Reverse(v, 32)) == TrailingZeros(v)
  {
    Pow2Values();
    TrailingZerosBound(v, 32);
    var t := TrailingZeros(v);
    var k := 31 - t;
    ReverseBit(v, 32, k);
    LowestBit(v, 0);
    forall i: nat | k < i < 32
      ensures !Bit(Reverse(v, 32), i)
    {
      ReverseBit(v, 32, i);
      LowestBit(v, 31 - i);
    }
    HighestBit(Reverse(v, 32), k, 32);
  }

  /** The loop starts from the unreversed word and stops as soon as no bits are
      left; the final shift pushes the left-over high bits out of the word. */
  method ReverseBits(v: uint32) returns (result: uint32)
    ensures result == Reverse(v, 32)
  {
    hide Bit, And, Or, Shl32, Reverse;
    var value: uint32 := v;
    var s: nat := 31;
    result := value;
    value := Shr(value, 1);
    assert Shr(v, 1) == v / Pow2(31 - s + 1);
    while value != 0
      invariant s <= 31 && value == v / Pow2(31 - s + 1)
      invariant forall j: nat :: j <= 31 - s ==> Bit(result, j) == Bit(v, 31 - s - j)
      decreases value
    {
      ghost var k := 31 - s;
      ReverseStep(v, value, result, k);
      result := Shl32(result, 1);
      LowBitFits(result, value);
      result := Or(result, And(value, 1));
      s := s - 1;
      value := Shr(value, 1);
    }
    ReverseFinish(v, result, s);
    result := Shl32(result, s);
  }

  lemma LowBitFits(result: uint32, value: uint32)
    ensures Or(result, And(value, 1)) < TWO32
  {
    AndBound(value, 1);
    Pow2Values();
    OrBound(result, And(value, 1), 32);
  }

  /** One iteration with k + 1 bits already placed. */
  lemma ReverseStep(v: uint32, value: uint32, result: uint32, k: nat)
    requires k <= 31 && value == v / Pow2(k + 1) && value != 0
    requires forall j: nat :: j <= k ==> Bit(result, j) == Bit(v, k - j)
    ensures k < 31
    ensures Shr(value, 1) == v / Pow2(k + 2) < value
    ensures forall j: nat :: j <= k + 1 ==>
      Bit(Or(Shl32(result, 1), And(value, 1)), j) == Bit(v, k + 1 - j)
  {
    Pow2Values();
    if k == 31 {
      DivModUnique(v, TWO32, 0, v);
      assert false;
    }
    DivDiv(v, Pow2(k + 1), 2);
    assert Pow2(k + 1) * 2 == Pow2(k + 2);
    forall j: nat | j <= k + 1
      ensures Bit(Or(Shl32(result, 1), And(value, 1)), j) == Bit(v, k + 1 - j)
    {
      BitOr(Shl32(result, 1), And(value, 1), j);
      BitShl32(result, 1, j);
      BitAnd(value, 1, j);
      if j == 0 {
        BitShr(v, k + 1, 0);
      } else {
        BitHigh(1, 1, j);
      }
    }
  }

  lemma ReverseFinish(v: uint32, result: uint32, s: nat)
    requires s <= 31 && v / Pow2(32 - s) == 0
    requires forall j: nat :: j <= 31 - s ==> Bit(result, j) == Bit(v, 31 - s - j)
    ensures Shl32(result, s) == Reverse(v, 32)
  {
    Pow2Values();
    assert v < Pow2(32 - s);
    forall i: nat | i < 32
      ensures Bit(Shl32(result, s), i) == Bit(Reverse(v, 32), i)
    {
      ReverseBit(v, 32, i);
      BitShl32(result, s, i);
      if i < s {
        BitHigh(v, 32 - s, 31 - i);
      } else {
        assert Bit(result, i - s) == Bit(v, 31 - s - (i - s));
      }
    }
    BitExtensional(Shl32(result, s), Reverse(v, 32), 32);
  }

  // ----- __ROR -----

  function RotateRight(op1: uint32, op2: uint32): uint32 {
    var n := op2 % 32;
    if n == 0 then op1
    else
      RotateField(op1, n, 0);
      Or(Shr(op1, n), Shl32(op1, 32 - n))
  }

  lemma RotateField(x: uint32, n: nat, i: nat)
    requires 0 < n < 32 && i < 32
    ensures Or(Shr(x, n), Shl32(x, 32 - n)) < TWO32
    ensures Bit(Or(Shr(x, n), Shl32(x, 32 - n)), i) == Bit(x, if i + n < 32 then i + n else i + n - 32)
  {
    Pow2Values();
    DivBound(x, Pow2(n));
    OrBound(Shr(x, n), Shl32(x, 32 - n), 32);
    BitOr(Shr(x, n), Shl32(x, 32 - n), i);
    BitShr(x, n, i);
    BitShl32(x, 32 - n, i);
    if i + n >= 32 {
      BitHigh(x, 32, i + n);
    }
  }

  /** Bit i of the rotated word is bit i + op2, counted around the word. */
  lemma RotateRightBit(op1: uint32, op2: uint32, i: nat)
    requires i < 32
    ensures Bit(RotateRight(op1, op2), i) == Bit(op1, (i + op2) % 32)
  {
    var n := op2 % 32;
    AroundWord(i, op2);
    if n != 0 {
      RotateField(op1, n, i);
    }
  }

  lemma AroundWord(i: nat, k: nat)
    requires i < 32
    ensures (i + k) % 32 == if i + k % 32 < 32 then i + k % 32 else i + k % 32 - 32
  {
  }

  /** Rotations compose by adding their amounts. */
  lemma RotateRightCompose(x: uint32, a: uint32, b: uint32, c: uint32)
    requires c % 32 == (a + b) % 32
    ensures RotateRight(RotateRight(x, a), b) == RotateRight(x, c)
  {
    var y := RotateRight(x, a);
    forall i: nat | i < 32
      ensures Bit(RotateRight(y, b), i) == Bit(RotateRight(x, c), i)
    {
      RotateRightBit(y, b, i);
      RotateRightBit(x, a, (i + b) % 32);
      RotateRightBit(x, c, i);
      AroundTwice(i, a, b, c);
    }
    Pow2Values();
    BitExtensional(RotateRight(y, b), RotateRight(x, c), 32);
  }

  lemma AroundTwice(i: nat, a: nat, b: nat, c: nat)
    requires c % 32 == (a + b) % 32
    ensures ((i + b) % 32 + a) % 32 == (i + c) % 32
  {
    var q, p := (i + b) / 32, (a + b) / 32;
    var k := (i + b) % 32 + a;
    DivModUnique(i + c, 32, k / 32 + q - p + c / 32, k % 32);
  }
}
