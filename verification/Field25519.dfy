/** The prime field of Curve25519 on canonical representatives 0 <= a < P. */
module Field25519 {
  const P: int := 0x7fff_ffff_ffff_ffff_ffff_ffff_ffff_ffff_ffff_ffff_ffff_ffff_ffff_ffff_ffff_ffed

  function Add(a: int, b: int): int { (a + b) % P }
  function Sub(a: int, b: int): int { (a - b) % P }
  function Mul(a: int, b: int): int { (a * b) % P }

  function Exp(a: int, e: nat): (r: int)
    ensures 0 <= r < P
    decreases e, a
  {
    if e == 0 then 1 else Mul(Exp(a, e - 1), a)
  }

  lemma MulMod(a: int, b: int)
    ensures Mul(a % P, b % P) == Mul(a, b)
  {
    var q, r, s, t := a / P, a % P, b / P, b % P;
    assert a * b == P * (q * b + r * s) + r * t by {
      assert a * b == (P * q + r) * b;
      assert r * b == r * (P * s + t);
    }
    ModShift(q * b + r * s, r * t);
  }

  lemma ModShift(q: int, r: int)
    ensures (P * q + r) % P == r % P
  {
  }

  lemma MulAssociative(a: int, b: int, c: int)
    ensures Mul(Mul(a, b), c) == Mul(a, Mul(b, c))
  {
    assert Mul(a, b) == (a * b) % P && Mul(b, c) == (b * c) % P;
    Reassociate(a, b, c);
    hide Mul;
    MulReduced(a * b, c);
    MulReduced(b * c, a);
    Commutes(a, (b * c) % P);
    Commutes(a, b * c);
  }

  lemma Reassociate(a: int, b: int, c: int)
    ensures Mul(a * b, c) == Mul(a, b * c)
  {
    assert a * b * c == a * (b * c);
  }

  lemma MulReduced(x: int, c: int)
    ensures Mul(x % P, c) == Mul(x, c)
  {
    hide Mul;
    MulMod(x, c);
    MulMod(x % P, c);
  }

  lemma {:induction false} ExpAdd(a: int, m: nat, n: nat)
    ensures Mul(Exp(a, m), Exp(a, n)) == Exp(a, m + n)
  {
    if n > 0 {
      ExpAdd(a, m, n - 1);
      MulAssociative(Exp(a, m), Exp(a, n - 1), a);
      assert Exp(a, m + n) == Mul(Exp(a, m + n - 1), a);
    }
  }

  lemma ExpOne(a: int)
    requires 0 <= a < P
    ensures Exp(a, 1) == a
  {
    assert Exp(a, 1) == Mul(Exp(a, 0), a);
  }

  lemma ExpDouble(a: int, n: nat)
    ensures Mul(Exp(a, n), Exp(a, n)) == Exp(a, 2 * n)
  {
    ExpAdd(a, n, n);
  }

  lemma ExpNext(a: int, n: nat)
    requires 0 <= a < P
    ensures Mul(Exp(a, n), a) == Exp(a, n + 1)
  {
  }

  lemma AddMod(x: int, y: int)
    ensures (x + y) % P == Add(x % P, y % P)
    ensures (x - y) % P == Sub(x % P, y % P)
  {
    ModShift(x / P + y / P, x % P + y % P);
    ModShift(x / P - y / P, x % P - y % P);
  }

  lemma Commutes(x: int, y: int)
    ensures Mul(x, y) == Mul(y, x) && Add(x, y) == Add(y, x)
  {
  }
}
