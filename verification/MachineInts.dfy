/** Fixed-width integers.  Every operation on these types is checked by the
    verifier to stay in range, so a model that verifies never overflows.

    On two's-complement words of any width `x & (2^k - 1)` is the Euclidean
    remainder by 2^k and `x >> k` is the floor of the quotient by 2^k, which is
    what Dafny's `%` and `/` with a positive divisor compute; the models use them
    in that role. */
module MachineInts {
  import opened Radix

  newtype uint8 = x: int | 0 <= x < 0x100
  newtype int8 = x: int | -0x80 <= x < 0x80
  newtype int32 = x: int | -0x8000_0000 <= x < 0x8000_0000
  newtype int64 = x: int | -0x8000_0000_0000_0000 <= x < 0x8000_0000_0000_0000

  /** The limbs of an array as integers. */
  ghost function Longs(s: seq<int64>): (r: seq<int>)
    ensures |r| == |s| && forall i :: 0 <= i < |s| ==> r[i] == s[i] as int
  {
    seq(|s|, i requires 0 <= i < |s| => s[i] as int)
  }

  /** Wrap-around to 32 bits, as a narrowing cast or a left shift does. */
  function Wrap32(v: int): (r: int32)
    ensures r as int % 0x1_0000_0000 == v % 0x1_0000_0000
  {
    var low := v % 0x1_0000_0000;
    if low < 0x8000_0000 then low as int32 else (low - 0x1_0000_0000) as int32
  }

  /** A narrowing cast to byte: keep the low 8 bits, read as signed. */
  function ToByte(v: int32): (r: int8)
    ensures r as int % 0x100 == v as int % 0x100
  {
    var low := v % 0x100;
    if low < 0x80 then low as int8 else (low - 0x100) as int8
  }

  /** `mask & v` for a mask that is all zeros or all ones. */
  function AndMask(mask: int32, v: int32): (r: int32)
    requires mask == 0 || mask == -1
    ensures mask == 0 ==> r == 0
    ensures mask == -1 ==> r == v
  {
    if mask == 0 then 0 else v
  }

  /** `x ^ y` on two's-complement words of n + 1 bits: the sign word is reached
      after n halvings. */
  function Xor(x: int, y: int, n: nat): (r: int)
    requires 0 - Pow(2, n) <= x < Pow(2, n) && 0 - Pow(2, n) <= y < Pow(2, n)
    ensures 0 - Pow(2, n) <= r < Pow(2, n)
    decreases n, x, y
  {
    if n == 0 then (if x == y then 0 else -1)
    else (x + y) % 2 + 2 * Xor(x / 2, y / 2, n - 1)
  }

  lemma ParityCancels(x: int, y: int, q: int, r: int)
    requires r == (x + y) % 2 + 2 * q
    ensures r / 2 == q && (x + r) % 2 + 2 * (y / 2) == y
  {
  }

  lemma XorStep(x: int, y: int, n: nat)
    requires n > 0 && 0 - Pow(2, n) <= x < Pow(2, n) && 0 - Pow(2, n) <= y < Pow(2, n)
    ensures 0 - Pow(2, n - 1) <= x / 2 < Pow(2, n - 1) && 0 - Pow(2, n - 1) <= y / 2 < Pow(2, n - 1)
    ensures Xor(x, y, n) == (x + y) % 2 + 2 * Xor(x / 2, y / 2, n - 1)
  {
  }

  lemma {:induction false} XorCancelsLeft(x: int, y: int, n: nat)
    requires 0 - Pow(2, n) <= x < Pow(2, n) && 0 - Pow(2, n) <= y < Pow(2, n)
    ensures Xor(x, Xor(x, y, n), n) == y
    decreases n
  {
    if n == 0 {
      assert Pow(2, 0) == 1;
    } else {
      XorStep(x, y, n);
      hide Xor, Pow;
      XorCancelsLeft(x / 2, y / 2, n - 1);
      var q, r := Xor(x / 2, y / 2, n - 1), Xor(x, y, n);
      XorStep(x, r, n);
      ParityCancels(x, y, q, r);
    }
  }

  lemma {:induction false} XorCommutes(x: int, y: int, n: nat)
    requires 0 - Pow(2, n) <= x < Pow(2, n) && 0 - Pow(2, n) <= y < Pow(2, n)
    ensures Xor(x, y, n) == Xor(y, x, n)
    decreases n
  {
    if n > 0 {
      XorCommutes(x / 2, y / 2, n - 1);
    }
  }

  lemma {:induction false} XorZero(x: int, n: nat)
    requires 0 - Pow(2, n) <= x < Pow(2, n)
    ensures Xor(x, 0, n) == x
    decreases n
  {
    if n > 0 {
      XorZero(x / 2, n - 1);
    }
  }

  lemma WordSizes()
    ensures Pow(2, 31) == 0x8000_0000
    ensures Pow(2, 63) == 0x8000_0000_0000_0000
  {
    assert Pow(2, 7) == 0x80;
    PowAdd(2, 7, 8);
    PowAdd(2, 15, 16);
    PowAdd(2, 31, 32);
  }

  function Xor32(x: int32, y: int32): int32 {
    WordSizes();
    Xor(x as int, y as int, 31) as int32
  }

  function Xor64(x: int64, y: int64): int64 {
    WordSizes();
    Xor(x as int, y as int, 63) as int64
  }

  /** Exclusive or is its own inverse: the reason a masked swap swaps. */
  lemma Xor32Cancels(x: int32, y: int32)
    ensures Xor32(x, Xor32(x, y)) == y
    ensures Xor32(y, Xor32(x, y)) == x
    ensures Xor32(x, 0) == x
  {
    WordSizes();
    XorCancelsLeft(x as int, y as int, 31);
    XorCancelsLeft(y as int, x as int, 31);
    XorCommutes(x as int, y as int, 31);
    XorZero(x as int, 31);
  }

  lemma Xor64Cancels(x: int64, y: int64)
    ensures Xor64(x, Xor64(x, y)) == y
    ensures Xor64(y, Xor64(x, y)) == x
    ensures Xor64(x, 0) == x
  {
    WordSizes();
    XorCancelsLeft(x as int, y as int, 63);
    XorCancelsLeft(y as int, x as int, 63);
    XorCommutes(x as int, y as int, 63);
    XorZero(x as int, 63);
  }
}
