/** Bitwise and, or on two's-complement words, as the constant-time codecs use
    them.  A word of n + 1 bits is an integer of [-2^n, 2^n). */
module Words {
  import opened Radix

  predicate Fits(x: int, n: nat) {
    0 - Pow(2, n) <= x < Pow(2, n)
  }

  /** `x & y` on words of n + 1 bits. */
  function And(x: int, y: int, n: nat): (r: int)
    requires Fits(x, n) && Fits(y, n)
    ensures Fits(r, n)
    decreases n, x, y
  {
    if n == 0 then (if x == -1 && y == -1 then -1 else 0)
    else (x % 2) * (y % 2) + 2 * And(x / 2, y / 2, n - 1)
  }

  /** `x | y`, by De Morgan's law: `~x` is -1 - x. */
  function Or(x: int, y: int, n: nat): (r: int)
    requires Fits(x, n) && Fits(y, n)
    ensures Fits(r, n)
  {
    -1 - And(-1 - x, -1 - y, n)
  }

  lemma {:induction false} AndCommutes(x: int, y: int, n: nat)
    requires Fits(x, n) && Fits(y, n)
    ensures And(x, y, n) == And(y, x, n)
    decreases n
  {
    if n > 0 {
      AndCommutes(x / 2, y / 2, n - 1);
    }
  }

  /** Masking with all zeros or all ones selects nothing or everything. */
  lemma {:induction false} AndMasks(y: int, n: nat)
    requires Fits(y, n)
    ensures And(0, y, n) == 0
    ensures And(-1, y, n) == y
    decreases n
  {
    if n > 0 {
      AndMasks(y / 2, n - 1);
    }
  }

  /** Masking with 2^k - 1 is the Euclidean remainder by 2^k. */
  lemma {:induction false} AndLow(y: int, k: nat, n: nat)
    requires Fits(y, n) && k <= n && Fits(Pow(2, k) - 1, n)
    ensures And(Pow(2, k) - 1, y, n) == y % Pow(2, k)
    decreases n
  {
    if k == 0 {
      AndMasks(y, n);
    } else {
      assert Pow(2, k) == 2 * Pow(2, k - 1);
      assert (Pow(2, k) - 1) / 2 == Pow(2, k - 1) - 1;
      AndLow(y / 2, k - 1, n - 1);
      LowBitSplits(y, Pow(2, k - 1));
    }
  }

  lemma LowBitSplits(y: int, m: int)
    requires m > 0
    ensures y % (2 * m) == y % 2 + 2 * (y / 2 % m)
  {
    var q, r := y / 2 / m, y / 2 % m;
    assert y == 2 * m * q + (2 * r + y % 2) by {
      assert y / 2 == m * q + r;
    }
    DivUnique(y, 2 * m, q, 2 * r + y % 2);
  }

  /** The and of two words is negative exactly when both are, and is no wider
      than they are. */
  lemma {:induction false} AndSign(x: int, y: int, k: nat, n: nat)
    requires k <= n && Fits(x, k) && Fits(y, k) && Fits(x, n) && Fits(y, n)
    ensures Fits(And(x, y, n), k)
    ensures And(x, y, n) < 0 <==> x < 0 && y < 0
    decreases n
  {
    if k == 0 {
      AndMasks(y, n);
    } else {
      AndSign(x / 2, y / 2, k - 1, n - 1);
      LowBitProduct(x, y, And(x / 2, y / 2, n - 1));
    }
  }

  lemma LowBitProduct(x: int, y: int, q: int)
    ensures 2 * q <= (x % 2) * (y % 2) + 2 * q <= 2 * q + 1
  {
    assert x % 2 == 0 || x % 2 == 1;
  }

  lemma OrSign(x: int, y: int, n: nat)
    requires Fits(x, n) && Fits(y, n)
    ensures Or(x, y, n) < 0 <==> x < 0 || y < 0
  {
    AndSign(-1 - x, -1 - y, n, n);
  }

  lemma OrHalves(x: int, y: int, n: nat)
    requires n > 0 && Fits(x, n) && Fits(y, n)
    ensures Fits(x / 2, n - 1) && Fits(y / 2, n - 1)
    ensures Or(x, y, n) == (if x % 2 == 0 && y % 2 == 0 then 0 else 1) + 2 * Or(x / 2, y / 2, n - 1)
  {
    assert (-1 - x) / 2 == -1 - x / 2 && (-1 - y) / 2 == -1 - y / 2;
    assert (-1 - x) % 2 == 1 - x % 2 && (-1 - y) % 2 == 1 - y % 2;
  }

  lemma EvenHalf(x: int, y: int, m: int)
    requires m > 0 && x % (2 * m) == 0 && 0 <= y < 2 * m
    ensures x / 2 % m == 0 && 0 <= y / 2 < m
    ensures x % 2 == 0 && (x + y) % 2 + 2 * (x / 2 + y / 2) == x + y
  {
    LowBitSplits(x, m);
  }

  lemma OrNothing(x: int, n: nat)
    requires Fits(x, n)
    ensures Fits(0, n) && Or(x, 0, n) == x
  {
    AndMasks(-1 - x, n);
    AndCommutes(-1 - x, -1, n);
  }

  /** When y is shorter than the run of zeros at the low end of x, `|` is `+`. */
  lemma {:induction false} OrDisjoint(x: int, y: int, k: nat, n: nat)
    requires Fits(x, n) && Fits(y, n) && k <= n
    requires x % Pow(2, k) == 0 && 0 <= y < Pow(2, k)
    ensures Or(x, y, n) == x + y
    decreases n
  {
    hide Or;
    if k == 0 {
      OrNothing(x, n);
    } else {
      EvenHalf(x, y, Pow(2, k - 1));
      OrHalves(x, y, n);
      OrDisjoint(x / 2, y / 2, k - 1, n - 1);
    }
  }

  /** An or is zero only when both words are. */
  lemma {:induction false} OrZero(x: int, y: int, n: nat)
    requires Fits(x, n) && Fits(y, n)
    ensures Or(x, y, n) == 0 <==> x == 0 && y == 0
    decreases n
  {
    if n == 0 {
      assert Pow(2, 0) == 1;
    } else {
      hide Or, Pow;
      OrHalves(x, y, n);
      OrZero(x / 2, y / 2, n - 1);
    }
  }

  lemma AndHalf(x: int, y: int, n: nat)
    requires n > 0 && Fits(x, n) && Fits(y, n)
    ensures Fits(x / 2, n - 1) && Fits(y / 2, n - 1)
    ensures And(x, y, n) / 2 == And(x / 2, y / 2, n - 1)
  {
    LowBitProduct(x, y, And(x / 2, y / 2, n - 1));
  }

  lemma Halved(x: int, m: int)
    requires m > 0
    ensures x / (2 * m) == x / 2 / m
  {
    LowBitSplits(x, m);
    var q, r := x / 2 / m, x / 2 % m;
    assert x / 2 == q * m + r;
    DivUnique(x, 2 * m, q, 2 * r + x % 2);
  }

  /** The high part of an and is the and of the high parts. */
  lemma {:induction false} AndHigh(x: int, y: int, k: nat, n: nat)
    requires Fits(x, n) && Fits(y, n) && k <= n
    ensures Fits(x / Pow(2, k), n - k) && Fits(y / Pow(2, k), n - k)
    ensures And(x, y, n) / Pow(2, k) == And(x / Pow(2, k), y / Pow(2, k), n - k)
    decreases n
  {
    if k == 0 {
      assert Pow(2, 0) == 1;
    } else {
      AndHalf(x, y, n);
      var m := Pow(2, k - 1);
      assert Pow(2, k) == 2 * m;
      hide And, Pow;
      AndHigh(x / 2, y / 2, k - 1, n - 1);
      Halved(x, m);
      Halved(y, m);
      Halved(And(x, y, n), m);
    }
  }

  /** A word and its complement share no bit. */
  lemma {:induction false} AndComplement(x: int, n: nat)
    requires Fits(x, n)
    ensures And(-1 - x, x, n) == 0
    decreases n
  {
    if n == 0 {
      assert Pow(2, 0) == 1;
    } else {
      AndComplement(x / 2, n - 1);
      assert (-1 - x) / 2 == -1 - x / 2 && (-1 - x) % 2 == 1 - x % 2;
    }
  }

  /** The greatest power of two that divides x. */
  function Trailing(x: nat): (p: nat)
    requires x > 0
    ensures p > 0
  {
    if x % 2 == 1 then 1 else 2 * Trailing(x / 2)
  }

  /** `~x & (x - 1)` are the zeros below the lowest bit of x. */
  lemma {:induction false} AndTrailing(x: nat, n: nat)
    requires x > 0 && Fits(x, n)
    ensures Fits(x - 1, n) && Fits(-1 - x, n) && And(-1 - x, x - 1, n) == Trailing(x) - 1
    decreases n
  {
    assert (-1 - x) / 2 == -1 - x / 2 && (-1 - x) % 2 == 1 - x % 2;
    if x % 2 == 1 {
      assert (x - 1) / 2 == x / 2;
      AndComplement(x / 2, n - 1);
    } else {
      assert (x - 1) / 2 == x / 2 - 1 && (x - 1) % 2 == 1;
      AndTrailing(x / 2, n - 1);
    }
  }

  /** It is a power of two no greater than x. */
  lemma {:induction false} TrailingIsPower(x: nat, n: nat) returns (k: nat)
    requires 0 < x < Pow(2, n)
    ensures k < n && Trailing(x) == Pow(2, k)
    decreases n
  {
    assert n > 0;
    if x % 2 == 1 {
      k := 0;
    } else {
      k := TrailingIsPower(x / 2, n - 1);
      k := k + 1;
    }
  }
}
