/** curve25519-fiat32.h read at field level: its inversion chain and its ladder,
    with field elements as canonical integers. */
module Fiat32 {
  import opened MachineInts
  import opened Radix
  import opened Field25519
  import opened X25519
  import opened LittleEndianBits

  /** 2^n - 1: an exponent of n set bits. */
  ghost function Ones(n: nat): nat { Pow(2, n) - 1 }

  /** A first squaring followed by a loop of count - 1 more. */
  method SquareTimes(v: int, count: nat, ghost z: int, ghost e: nat) returns (r: int)
    requires count >= 1 && v == Exp(z, e)
    ensures r == Exp(z, Pow(2, count) * e)
  {
    hide Exp, Mul;
    r := Mul(v, v);
    ExpDouble(z, e);
    assert Pow(2, 1) == 2;
    for i := 1 to count
      invariant r == Exp(z, Pow(2, i) * e)
    {
      r := Mul(r, r);
      ExpDouble(z, Pow(2, i) * e);
      assert Pow(2, i + 1) * e == 2 * (Pow(2, i) * e) by { assert Pow(2, i + 1) == 2 * Pow(2, i); }
    }
  }

  /** Shifting m bits in and filling them. */
  lemma OnesJoin(z: int, n: nat, m: nat)
    ensures Mul(Exp(z, Pow(2, m) * Ones(n)), Exp(z, Ones(m))) == Exp(z, Ones(n + m))
  {
    PowAdd(2, n, m);
    ExpAdd(z, Pow(2, m) * Ones(n), Ones(m));
    OnesArithmetic(Pow(2, n), Pow(2, m));
  }

  lemma OnesArithmetic(x: int, y: int)
    ensures y * (x - 1) + (y - 1) == x * y - 1
  {
  }

  /** Squarings and one multiplication extend a run of ones by m. */
  method Extend(v: int, n: nat, m: nat, w: int, ghost z: int) returns (r: int)
    requires m >= 1 && v == Exp(z, Ones(n)) && w == Exp(z, Ones(m))
    ensures r == Exp(z, Ones(n + m))
  {
    hide Exp, Mul;
    var t := SquareTimes(v, m, z, Ones(n));
    OnesJoin(z, n, m);
    r := Mul(t, w);
  }

  /** fe_loose_invert: z to the power P - 2. */
  method Invert(z: int) returns (r: int)
    requires 0 <= z < P
    ensures r == Exp(z, P - 2)
  {
    hide Exp, Mul, Pow, Ones;
    ExpOne(z);
    ExpDouble(z, 1);
    var t0 := Mul(z, z);
    ExpDouble(z, 2);
    ExpDouble(z, 4);
    var t1 := Mul(t0, t0);
    t1 := Mul(t1, t1);
    ExpAdd(z, 1, 8);
    t1 := Mul(z, t1);
    ExpAdd(z, 2, 9);
    t0 := Mul(t0, t1);
    ExpDouble(z, 11);
    var t2 := Mul(t0, t0);
    ExpAdd(z, 9, 22);
    t1 := Mul(t1, t2);
    SmallOnes();
    t1 := Extend(t1, 5, 5, t1, z);
    t2 := Extend(t1, 10, 10, t1, z);
    t2 := Extend(t2, 20, 20, t2, z);
    t1 := Extend(t2, 40, 10, t1, z);
    t2 := Extend(t1, 50, 50, t1, z);
    t2 := Extend(t2, 100, 100, t2, z);
    t1 := Extend(t2, 200, 50, t1, z);
    t1 := SquareTimes(t1, 5, z, Ones(250));
    LastOnes();
    ExpAdd(z, Pow(2, 5) * Ones(250), 11);
    r := Mul(t1, t0);
  }

  lemma SmallOnes()
    ensures Ones(5) == 31
  {
  }

  lemma LastOnes()
    ensures Pow(2, 5) * Ones(250) + 11 == P - 2
  {
    assert Pow(2, 5) == 32;
    hide Pow;
    TwoTo250(250);
  }

  /** BB + 121666 * E is AA + 121665 * E. */
  lemma OtherConstant(aa: int, bb: int)
    requires 0 <= aa < P && 0 <= bb < P
    ensures Add(bb, Mul(121666, Sub(aa, bb))) == Add(Mul(121665, Sub(aa, bb)), aa)
  {
    var e := Sub(aa, bb);
    var q := if aa >= bb then 0 else 1;
    assert e == aa - bb + P * q;
    AddRight(bb, 121666 * e);
    AddRight(aa, 121665 * e);
    ModShift(q, 121665 * e + aa);
  }

  lemma AddRight(x: int, y: int)
    ensures (x + y % P) % P == (x + y) % P
  {
    ModShift(y / P, x + y % P);
  }

  /** The loop body of curve25519_generic between the conditional swaps. */
  method Step(x1: int, x2: int, z2: int, x3: int, z3: int) returns (p: Points)
    ensures p == LadderStep(x1, Points(x2, z2, x3, z3))
  {
    var tmp0, tmp1 := Sub(x3, z3), Sub(x2, z2);
    var x2l, z2l := Add(x2, z2), Add(x3, z3);
    var nz3, nz2 := Mul(tmp0, x2l), Mul(z2l, tmp1);
    var bb, aa := Mul(tmp1, tmp1), Mul(x2l, x2l);
    var x3l, dif := Add(nz3, nz2), Sub(nz3, nz2);
    OtherConstant(aa, bb);
    hide Add, Sub, Mul;
    var nx2 := Mul(aa, bb);
    var e := Sub(aa, bb);
    var sq := Mul(dif, dif);
    var scaled := Mul(121666, e);
    var nx3 := Mul(x3l, x3l);
    var sum := Add(bb, scaled);
    Commutes(x1, sq);
    Commutes(e, sum);
    p := Points(nx2, Mul(e, sum), nx3, Mul(x1, sq));
  }

  /** curve25519_generic up to the byte codec: the field element it writes. */
  method Generic(scalar: seq<uint8>, u: int) returns (r: int)
    requires |scalar| == 32 && 0 <= u < P
    ensures r == ScalarMult(DecodeScalar(Octets(scalar)), u)
  {
    hide LadderStep, Mul, Exp, Bit;
    var e := scalar[0 := scalar[0] - scalar[0] % 8][31 := scalar[31] % 64 + 64];
    assert Octets(e) == Clamp(Octets(scalar));
    ghost var k := DecodeScalar(Octets(scalar));
    var p, swap := Points(1, 0, u, 1), false;
    var pos := 254;
    while pos >= 0
      invariant -1 <= pos <= 254
      invariant Ladder(u, k, pos + 1) == Deferred(p, swap)
    {
      var b := BitOfByte(e[pos / 8], pos % 8);
      ScalarBit(Octets(e), pos / 8, pos % 8);
      p := Swap(p, swap != (b == 1));
      swap := b == 1;
      p := Step(u, p.x2, p.z2, p.x3, p.z3);
      pos := pos - 1;
    }
    p := Swap(p, swap);
    assert 0 <= p.z2 < P by { LadderRange(u, k, 0); }
    var inverse := Invert(p.z2);
    r := Mul(p.x2, inverse);
  }

  ghost predicate Canonical(p: Points) {
    0 <= p.x2 < P && 0 <= p.z2 < P && 0 <= p.x3 < P && 0 <= p.z3 < P
  }

  lemma {:induction false} LadderRange(u: int, k: nat, t: nat)
    requires t <= BITS && 0 <= u < P
    ensures Canonical(Ladder(u, k, t).points)
    decreases BITS - t
  {
    if t < BITS {
      LadderRange(u, k, t + 1);
    }
  }
}
