/** The 32-bit unsigned word of the C source (uint32_t), seen as its 32 bits,
    least significant bit first, together with the C operators the engine
    applies to it. */
module Word {

  /** One uint32_t: bit i has weight 2^i. */
  type Word = s: seq<bool> | |s| == 32 witness ZERO

  const ZERO: seq<bool> :=
    [false, false, false, false, false, false, false, false,
     false, false, false, false, false, false, false, false,
     false, false, false, false, false, false, false, false,
     false, false, false, false, false, false, false, false]

  /** 2^32: the modulus of uint32_t arithmetic. */
  const TWO32: nat := 0x1_0000_0000

  /** 2^64: the modulus of uint64_t arithmetic. */
  const TWO64: nat := 0x1_0000_0000_0000_0000

  // ---------------------------------------------------------------------
  // The C operators on uint32_t.  A shift by 32 or more is undefined in C,
  // so Shl and Shr demand an amount below 32 of every caller.

  function Not(x: Word): Word
  {
    seq(32, i requires 0 <= i < 32 => !x[i])
  }

  function And(x: Word, y: Word): Word
  {
    seq(32, i requires 0 <= i < 32 => x[i] && y[i])
  }

  function Or(x: Word, y: Word): Word
  {
    seq(32, i requires 0 <= i < 32 => x[i] || y[i])
  }

  function Xor(x: Word, y: Word): Word
  {
    seq(32, i requires 0 <= i < 32 => x[i] != y[i])
  }

  function Shl(x: Word, k: nat): Word
    requires k < 32
  {
    seq(32, i requires 0 <= i < 32 => k <= i && x[i - k])
  }

  function Shr(x: Word, k: nat): Word
    requires k < 32
  {
    seq(32, i requires 0 <= i < 32 => i + k < 32 && x[i + k])
  }

  // ---------------------------------------------------------------------
  // The numeric reading of a word.

  function Pow2(n: nat): (r: nat)
    ensures r >= 1
  {
    if n == 0 then 1 else 2 * Pow2(n - 1)
  }

  /** The unsigned number a bit sequence stands for (least significant bit first). */
  function Val(s: seq<bool>): nat
  {
    if |s| == 0 then 0 else (if s[0] then 1 else 0) + 2 * Val(s[1..])
  }

  /** The k low bits of n, least significant first. */
  function FromNat(n: nat, k: nat): (s: seq<bool>)
    ensures |s| == k
  {
    if k == 0 then [] else [n % 2 == 1] + FromNat(n / 2, k - 1)
  }

  /** The conversion of a number to uint32_t, which keeps its 32 low bits. */
  function ToWord(n: nat): Word
  {
    FromNat(n, 32)
  }

  lemma {:induction false} Pow2Add(a: nat, b: nat)
    ensures Pow2(a + b) == Pow2(a) * Pow2(b)
  {
    if a > 0 {
      Pow2Add(a - 1, b);
    }
  }

  lemma Pow2Of32()
    ensures Pow2(32) == TWO32
  {
    assert Pow2(2) == 4;
    Pow2Add(2, 2);
    Pow2Add(4, 4);
    Pow2Add(8, 8);
    Pow2Add(16, 16);
  }

  /** A bit sequence whose set bits are exactly the B low ones stands for 2^B - 1. */
  lemma {:induction false} ValLowOnes(s: seq<bool>, B: nat)
    requires B <= |s|
    requires forall t :: 0 <= t < |s| ==> (s[t] <==> t < B)
    ensures Val(s) + 1 == Pow2(B)
  {
    if B == 0 {
      ValZero(s);
    } else {
      assert forall t :: 0 <= t < |s| - 1 ==> (s[1..][t] <==> t < B - 1) by {
        forall t | 0 <= t < |s| - 1 ensures s[1..][t] <==> t < B - 1 {
          assert s[1..][t] == s[t + 1];
        }
      }
      ValLowOnes(s[1..], B - 1);
    }
  }

  // ---------------------------------------------------------------------
  // The item mask of PackedArray.c:52 and the range check of PackedArray.c:60.

  /** `x - 1` on uint32_t, which wraps 0 around to 2^32 - 1. */
  function Decrement32(x: nat): nat
  {
    (x + TWO32 - 1) % TWO32
  }

  /** `(uint32_t)(1ULL << bitsPerItem) - 1`: a shift in 64 bits, a cast that keeps
      32 bits, and a subtraction that wraps around modulo 2^32. */
  function Mask(bitsPerItem: nat): Word
    requires 1 <= bitsPerItem <= 32
  {
    ToWord(Decrement32(Pow2(bitsPerItem) % TWO64 % TWO32))
  }

  /** The arithmetic in Mask never loses the bit set by the shift except for a
      32-bit item, where the cast drops it and the subtraction wraps around:
      in every case the mask is 2^B - 1. */
  lemma MaskNumber(bitsPerItem: nat)
    requires 1 <= bitsPerItem <= 32
    ensures Mask(bitsPerItem) == ToWord(Pow2(bitsPerItem) - 1)
  {
    Pow2Of32();
    Pow2Monotone(bitsPerItem, 32);
    WrappingDecrement(Pow2(bitsPerItem));
  }

  /** Casting a number of at most 2^32 to uint32_t and subtracting one gives the number minus one. */
  lemma WrappingDecrement(p: nat)
    requires 1 <= p <= TWO32
    ensures Decrement32(p % TWO64 % TWO32) == p - 1
  {
  }

  lemma {:induction false} Pow2Monotone(a: nat, b: nat)
    requires a <= b
    ensures Pow2(a) <= Pow2(b)
  {
    if a < b {
      Pow2Monotone(a, b - 1);
    }
  }

  /** The bits of 2^B - 1 are the B low bits. */
  lemma {:induction false} LowOnes(B: nat, k: nat, t: nat)
    requires t < k
    ensures FromNat(Pow2(B) - 1, k)[t] <==> t < B
  {
    var n := Pow2(B) - 1;
    assert FromNat(n, k) == [n % 2 == 1] + FromNat(n / 2, k - 1);
    if B == 0 {
      assert n == 0;
      if t > 0 {
        LowOnes(0, k - 1, t - 1);
      }
    } else {
      var half := Pow2(B - 1) - 1;
      assert n == 2 * half + 1;
      assert n % 2 == 1 && n / 2 == half;
      if t > 0 {
        LowOnes(B - 1, k - 1, t - 1);
      }
    }
  }

  /** Exactly the n low bits of the word are set. */
  predicate LowBits(mask: Word, n: nat)
  {
    forall t :: 0 <= t < 32 ==> (mask[t] <==> t < n)
  }

  /** The mask has exactly the bitsPerItem low bits set, all 32 when bitsPerItem is 32. */
  lemma MaskBits(bitsPerItem: nat)
    requires 1 <= bitsPerItem <= 32
    ensures LowBits(Mask(bitsPerItem), bitsPerItem)
  {
    MaskNumber(bitsPerItem);
    forall t | 0 <= t < 32
      ensures Mask(bitsPerItem)[t] <==> t < bitsPerItem
    {
      LowOnes(bitsPerItem, 32, t);
    }
  }

  /** The mask is the number 2^bitsPerItem - 1. */
  lemma MaskValue(bitsPerItem: nat)
    requires 1 <= bitsPerItem <= 32
    ensures Val(Mask(bitsPerItem)) + 1 == Pow2(bitsPerItem)
  {
    MaskBits(bitsPerItem);
    ValLowOnes(Mask(bitsPerItem), bitsPerItem);
  }

  /** The value is an item of bitsPerItem bits: no bit from bitsPerItem upwards is set. */
  predicate Fits(value: Word, bitsPerItem: nat)
  {
    forall t :: bitsPerItem <= t < 32 ==> !value[t]
  }

  /** The range check of PackedArray.c:60, `0 == (~mask & value)`, holds for
      the item mask exactly when the value fits. */
  lemma RangeCheck(mask: Word, value: Word, bitsPerItem: nat)
    requires LowBits(mask, bitsPerItem)
    ensures And(Not(mask), value) == ZERO <==> Fits(value, bitsPerItem)
  {
    var m := And(Not(mask), value);
    if Fits(value, bitsPerItem) {
      assert forall t :: 0 <= t < 32 ==> m[t] == ZERO[t];
    } else {
      var t :| bitsPerItem <= t < 32 && value[t];
      assert m[t] != ZERO[t];
    }
  }

  /** Clear high bits mean a small number, for any bit sequence. */
  lemma {:induction false} ValBelowPow2(s: seq<bool>, B: nat)
    ensures (forall t :: B <= t < |s| ==> !s[t]) <==> Val(s) < Pow2(B)
  {
    if |s| == 0 {
    } else if B == 0 {
      ValZero(s);
    } else {
      ValBelowPow2(s[1..], B - 1);
      assert (forall t :: B <= t < |s| ==> !s[t]) <==> (forall t :: B - 1 <= t < |s| - 1 ==> !s[1..][t]) by {
        if forall t :: B - 1 <= t < |s| - 1 ==> !s[1..][t] {
          forall t | B <= t < |s| ensures !s[t] {
            assert s[t] == s[1..][t - 1];
          }
        }
      }
    }
  }

  /** A bit sequence stands for zero exactly when all its bits are clear. */
  lemma {:induction false} ValZero(s: seq<bool>)
    ensures (forall t :: 0 <= t < |s| ==> !s[t]) <==> Val(s) == 0
  {
    if |s| > 0 {
      ValZero(s[1..]);
      assert (forall t :: 0 <= t < |s| ==> !s[t]) <==> !s[0] && (forall t :: 0 <= t < |s| - 1 ==> !s[1..][t]) by {
        if !s[0] && (forall t :: 0 <= t < |s| - 1 ==> !s[1..][t]) {
          forall t | 0 <= t < |s| ensures !s[t] {
            if t > 0 { assert s[t] == s[1..][t - 1]; }
          }
        }
      }
    }
  }

  /** A value fits in bitsPerItem bits exactly when it is below 2^bitsPerItem. */
  lemma FitsBelow(value: Word, bitsPerItem: nat)
    ensures Fits(value, bitsPerItem) <==> Val(value) < Pow2(bitsPerItem)
  {
    ValBelowPow2(value, bitsPerItem);
  }
}
