/** Single bits of a byte, as the null bitmap of a row uses them. */
module Bits {
  import opened Bytes

  /** Bit `k` of `n`, counting from the lowest. */
  predicate Bit(n: nat, k: nat) {
    if k == 0 then n % 2 == 1 else Bit(n / 2, k - 1)
  }

  function PowerOfTwo(k: nat): (p: nat)
    ensures p >= 1
  {
    if k == 0 then 1 else 2 * PowerOfTwo(k - 1)
  }

  /** `n` with bit `k` set. */
  function SetBit(n: nat, k: nat): (m: nat)
    ensures m == if Bit(n, k) then n else n + PowerOfTwo(k)
  {
    if k == 0 then n + 1 - n % 2 else 2 * SetBit(n / 2, k - 1) + n % 2
  }

  lemma {:induction false} SetBitBits(n: nat, k: nat, j: nat)
    ensures Bit(SetBit(n, k), j) <==> j == k || Bit(n, j)
    decreases k
  {
    if k > 0 && j > 0 {
      SetBitBits(n / 2, k - 1, j - 1);
    } else if k == 0 && j > 0 {
      assert SetBit(n, 0) / 2 == n / 2;
    }
  }

  lemma {:induction false} SetBitBound(n: nat, k: nat, width: nat)
    requires n < PowerOfTwo(width) && k < width
    ensures SetBit(n, k) < PowerOfTwo(width)
    decreases k
  {
    if k > 0 {
      SetBitBound(n / 2, k - 1, width - 1);
    } else {
      PowerIsEven(width);
    }
  }

  lemma PowerIsEven(width: nat)
    requires width > 0
    ensures PowerOfTwo(width) % 2 == 0
  {
  }

  /** Numbers of `width` bits are equal when all their bits are. */
  lemma {:induction false} SameBits(a: nat, b: nat, width: nat)
    requires a < PowerOfTwo(width) && b < PowerOfTwo(width)
    requires forall k | 0 <= k < width :: Bit(a, k) == Bit(b, k)
    ensures a == b
    decreases width
  {
    if width > 0 {
      assert Bit(a, 0) == Bit(b, 0);
      forall k | 0 <= k < width - 1 ensures Bit(a / 2, k) == Bit(b / 2, k) {
        assert Bit(a, k + 1) == Bit(b, k + 1);
      }
      SameBits(a / 2, b / 2, width - 1);
    }
  }

  lemma {:induction false} NoBitsOfZero(k: nat)
    ensures !Bit(0, k)
    decreases k
  {
    if k > 0 {
      NoBitsOfZero(k - 1);
    }
  }

  lemma EightBits()
    ensures PowerOfTwo(8) == 256
  {
    assert PowerOfTwo(4) == 16;
  }
}
