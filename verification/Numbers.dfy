/** Numbers as bytes hold them, said without the functions that read and write fields. */
module Numbers {
  import opened Bytes
  import opened Bits

  /** The number that bytes stand for, the lowest first. */
  function Number(b: seq<byte>): nat {
    if b == [] then 0
    else
      var low: int := b[0];
      low + 256 * Number(b[1..])
  }

  /** The number in the `n` bytes from `o` on. */
  function Field(b: seq<byte>, o: nat, n: nat): nat
    requires o + n <= |b|
  {
    Number(b[o..o + n])
  }

  lemma NumberOfTwo(b: seq<byte>)
    requires |b| == 2
    ensures Number(b) == U16At(b, 0)
  {
    NumberOfOneMore(b);
    NumberOfOneMore(b[1..]);
    assert b[1..][1..] == [];
  }

  lemma NumberOfOneMore(b: seq<byte>)
    requires b != []
    ensures Number(b) == b[0] as int + 256 * Number(b[1..])
  {
  }

  lemma NumberJoined(a: seq<byte>, b: seq<byte>)
    requires |a| == 2
    ensures Number(a + b) == Number(a) + 0x1_0000 * Number(b)
  {
    NumberOfTwo(a);
    NumberOfOneMore(a + b);
    NumberOfOneMore((a + b)[1..]);
    assert (a + b)[1..][1..] == b;
  }

  lemma NumberOfFour(b: seq<byte>)
    requires |b| == 4
    ensures Number(b) == U32At(b, 0)
  {
    NumberJoined(b[..2], b[2..]);
    NumberOfTwo(b[..2]);
    NumberOfTwo(b[2..]);
    assert b == b[..2] + b[2..];
    hide Number;
  }

  lemma NumberOfEight(b: seq<byte>)
    requires |b| == 8
    ensures Number(b) == U64At(b, 0)
  {
    assert b == b[..2] + (b[2..4] + b[4..]) && b[2..4] + b[4..] == b[2..];
    NumberJoined(b[..2], b[2..]);
    NumberJoined(b[2..4], b[4..]);
    NumberOfTwo(b[..2]);
    NumberOfTwo(b[2..4]);
    NumberOfFour(b[4..]);
    hide Number;
  }

  /** Fields of two, four and eight bytes are little-endian. */
  lemma FieldsAreLittleEndian(b: seq<byte>, o: nat)
    ensures o + 2 <= |b| ==> U16At(b, o) == Field(b, o, 2)
    ensures o + 4 <= |b| ==> U32At(b, o) == Field(b, o, 4)
    ensures o + 8 <= |b| ==> U64At(b, o) == Field(b, o, 8)
  {
    if o + 2 <= |b| {
      NumberOfTwo(b[o..o + 2]);
    }
    if o + 4 <= |b| {
      NumberOfFour(b[o..o + 4]);
      U32Shift(b, o, b[o..o + 4], 0);
    }
    if o + 8 <= |b| {
      NumberOfEight(b[o..o + 8]);
      U64Shift(b, o, b[o..o + 8], 0);
    }
    hide Number, U16At, U32At, U64At;
  }

  /** The weights of the bits of a byte. */
  const WEIGHTS: seq<nat> := [1, 2, 4, 8, 16, 32, 64, 128]

  lemma {:induction false} BitsByWeight(n: nat, k: nat)
    requires k < 8
    ensures Bit(n, k) <==> n / WEIGHTS[k] % 2 == 1
    decreases k
  {
    if k > 0 {
      BitsByWeight(n / 2, k - 1);
      HalvedWeight(n, k);
    }
  }

  lemma HalvedWeight(n: nat, k: nat)
    requires 0 < k < 8
    ensures n / 2 / WEIGHTS[k - 1] == n / WEIGHTS[k]
  {
    assert n / 2 / 2 == n / 4 && n / 2 / 4 == n / 8 && n / 2 / 8 == n / 16;
    assert n / 2 / 16 == n / 32 && n / 2 / 32 == n / 64 && n / 2 / 64 == n / 128;
  }

  /** The weights of the bytes of an eight-byte field. */
  const POWERS: seq<nat> :=
    [1, 0x100, 0x1_0000, 0x100_0000, 0x1_0000_0000, 0x100_0000_0000, 0x1_0000_0000_0000, 0x100_0000_0000_0000]

  lemma {:induction false} DigitOfNumber(b: seq<byte>, k: nat)
    requires k < |b| && k < 8
    ensures Number(b) / POWERS[k] % 256 == b[k]
    decreases k
  {
    NumberOfOneMore(b);
    if k > 0 {
      DigitOfNumber(b[1..], k - 1);
      ShiftedPower(Number(b), k);
      assert Number(b) / 256 == Number(b[1..]);
    }
  }

  lemma ShiftedPower(n: nat, k: nat)
    requires 0 < k < 8
    ensures n / 256 / POWERS[k - 1] == n / POWERS[k]
  {
    if k == 1 || k == 2 {
      assert n / 256 / 0x100 == n / 0x1_0000;
    } else if k == 3 || k == 4 {
      assert n / 256 / 0x1_0000 == n / 0x100_0000;
      assert n / 256 / 0x100_0000 == n / 0x1_0000_0000;
    } else {
      assert n / 256 / 0x1_0000_0000 == n / 0x100_0000_0000;
      assert n / 256 / 0x100_0000_0000 == n / 0x1_0000_0000_0000;
      assert n / 256 / 0x1_0000_0000_0000 == n / 0x100_0000_0000_0000;
    }
  }

  lemma DigitOfField(b: seq<byte>, o: nat, k: nat)
    requires o + 8 <= |b| && k < 8
    ensures Field(b, o, 8) / POWERS[k] % 256 == b[o + k]
  {
    DigitOfNumber(b[o..o + 8], k);
    hide Number;
  }

  /** Reducing a signed number modulo two to the 64 keeps its digits. */
  lemma DigitOfRemainder(n: i64, k: nat)
    requires k < 8
    ensures n % 0x1_0000_0000_0000_0000 / POWERS[k] % 256 == n as int / POWERS[k] % 256
  {
    if n < 0 {
      var x: int := n;
      assert x % 0x1_0000_0000_0000_0000 == x + 0x1_0000_0000_0000_0000;
      PowerDivides(x, k);
    }
  }

  lemma AtLeastOnce(p: int, k: int)
    requires p > 0
    ensures k >= 1 ==> p * k >= p
    ensures k <= -1 ==> p * k <= -p
  {
  }

  /** Two ways to write a number with remainders below `p` have the same quotient. */
  lemma SameQuotient(p: int, d: int, r: int, e: int, s: int)
    requires 0 <= r < p && 0 <= s < p && p * d + r == p * e + s
    ensures d == e
  {
    assert p * (d - e) == p * d - p * e;
    AtLeastOnce(p, d - e);
  }

  lemma WholeMultiple(x: int, p: int, q: int)
    requires p > 0
    ensures (x + p * q) / p == x / p + q
  {
    var n := x + p * q;
    assert p * (x / p + q) == p * (x / p) + p * q;
    SameQuotient(p, x / p + q, x % p, n / p, n % p);
  }

  lemma PowerDivides(x: int, k: nat)
    requires k < 8
    ensures (x + 0x1_0000_0000_0000_0000) / POWERS[k] % 256 == x / POWERS[k] % 256
  {
    var q := 256 * POWERS[7 - k];
    assert POWERS[k] * q == 0x1_0000_0000_0000_0000;
    WholeMultiple(x, POWERS[k], q);
    LowDigit(x / POWERS[k], POWERS[7 - k]);
  }

  lemma LowDigit(y: int, m: int)
    ensures (y + 256 * m) % 256 == y % 256
  {
  }
}
