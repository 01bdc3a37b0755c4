/** Ten 26-bit limbs: what the arrays of Curve25519.java stand for. */
module JavaLimbs {
  import opened MachineInts
  import opened Radix
  import opened Field25519
  import opened JavaField

  const RADIX: int32 := 0x400_0000
  const B: nat := 0x400_0000
  const TWO234: int := 0x40000000000000000000000000000000000000000000000000000000000

  ghost function Ints(s: seq<int32>): (r: seq<int>)
    ensures |r| == |s| && forall i :: 0 <= i < |s| ==> r[i] == s[i] as int
  {
    seq(|s|, i requires 0 <= i < |s| => s[i] as int)
  }

  ghost predicate Limbs(s: seq<int32>) {
    |s| == 10 && forall i :: 0 <= i < 10 ==> 0 <= s[i] < RADIX
  }

  /** The integer ten limbs stand for. */
  ghost function Fe(s: seq<int32>): int { Val(B, Ints(s)) }

  ghost predicate Canon(s: seq<int32>) { Limbs(s) && 0 <= Fe(s) < P }

  lemma Weights()
    ensures Pow(B, 1) == B
    ensures Pow(B, 9) == TWO234
    ensures Pow(B, 10) == TWO260
    ensures Pow(B, 11) == TWO260 * B
    ensures Pow(B, 20) == TWO260 * TWO260
  {
    assert Pow(B, 2) == B * B;
    PowAdd(B, 2, 2);
    PowAdd(B, 4, 4);
    PowAdd(B, 8, 1);
    PowAdd(B, 10, 10);
  }

  /** The top limb splits a number at bit 255. */
  lemma TopLimb(s: seq<int32>)
    requires Limbs(s)
    ensures 0 <= Fe(s) < TWO260
    ensures Fe(s) / TWO255 == s[9] as int / 0x20_0000
    ensures Fe(s[9 := s[9] % 0x20_0000]) == Fe(s) % TWO255
  {
    var a, t := Ints(s), Ints(s[9 := s[9] % 0x20_0000]);
    Weights();
    ValBound(B, a[..9]);
    assert a[..9] == t[..9];
    ValNext(B, a, 9);
    ValNext(B, t, 9);
    assert a[..10] == a && t[..10] == t;
  }

  /** A chain of ten columns that stays below 2^260 loses nothing. */
  lemma ExactChain(a: seq<int>, d: seq<int32>, c: seq<int>)
    requires |a| == 10 && Limbs(d) && Chain(B, a, Ints(d), c)
    requires 0 <= Val(B, a) + c[0] < TWO260
    ensures Fe(d) == Val(B, a) + c[0] && c[10] == 0
  {
    Weights();
    ChainFits(B, a, Ints(d), c);
  }

  /** In general a chain of ten columns drops the carry out of the last. */
  lemma CutChain(a: seq<int>, d: seq<int32>, c: seq<int>)
    requires |a| == 10 && Limbs(d) && Chain(B, a, Ints(d), c)
    ensures Fe(d) == (Val(B, a) + c[0]) % TWO260 && c[10] == (Val(B, a) + c[0]) / TWO260
  {
    Weights();
    ChainDivides(B, a, Ints(d), c);
  }

  lemma CutFurther(v: int)
    ensures v % TWO260 / TWO255 % 2 == v / TWO255 % 2
    ensures v % TWO260 % TWO255 == v % TWO255
  {
    var q, r := v / TWO260, v % TWO260;
    assert v == TWO260 * q + r;
    assert v == r + (32 * q) * TWO255;
    Periodic(r, 32 * q);
    EvenShift(r / TWO255, 16 * q);
  }

  lemma EvenShift(s: int, k: int)
    ensures (s + 2 * k) % 2 == s % 2
  {
  }

  lemma Periodic(v: int, k: int)
    ensures (v + k * TWO255) / TWO255 == v / TWO255 + k
    ensures (v + k * TWO255) % TWO255 == v % TWO255
  {
    DivUnique(v + k * TWO255, TWO255, v / TWO255 + k, v % TWO255);
  }

  /** Adding 19 decides, in bit 255, whether P is subtracted. */
  lemma TrialSubtraction(x: seq<int32>, t: seq<int32>, c: seq<int>)
    requires Limbs(x) && Limbs(t) && Chain(B, Ints(x), Ints(t), c) && c[0] == 19
    ensures t[9] / 0x20_0000 % 2 == 0 ==> TrialResult(Fe(x)) == Fe(x)
    ensures t[9] / 0x20_0000 % 2 == 1 ==> TrialResult(Fe(x)) == Fe(t[9 := t[9] % 0x20_0000])
  {
    hide Chain, TrialResult, Val;
    CutChain(Ints(x), t, c);
    TopLimb(t);
    TrialArithmetic(Fe(x), Fe(t));
  }

  lemma TrialArithmetic(v: int, t: int)
    requires t == (v + 19) % TWO260
    ensures t / TWO255 % 2 == 1 ==> t % TWO255 == TrialResult(v)
    ensures t / TWO255 % 2 != 1 ==> v == TrialResult(v)
  {
    CutFurther(v + 19);
  }

  lemma BorrowArithmetic(x: int, y: int, d: int, c: int, e: int)
    requires 0 <= x < TWO260 && 0 <= y < TWO260
    requires d == (x - y) % TWO260 && c == (x - y) / TWO260
    requires e == (d + 19 * c) % TWO260
    ensures c == (if x >= y then 0 else -1) && e % TWO255 == LimbSub(x, y)
  {
    if x >= y {
      DivUnique(x - y, TWO260, 0, x - y);
      CutFurther(x - y);
    } else {
      DivUnique(x - y, TWO260, -1, x - y + TWO260);
      CutFurther(x - y + TWO260 - 19);
      Periodic(x - y - 19, 32);
    }
  }

  /** A borrow out of the top limb asks for 19 to be taken off again and the
      result cut to 255 bits. */
  lemma BorrowFix(x: seq<int32>, y: seq<int32>, d: seq<int32>, c: seq<int>, e: seq<int32>, f: seq<int>)
    requires Limbs(x) && Limbs(y) && Limbs(d) && Limbs(e)
    requires Chain(B, Comb(-1, Ints(y), Ints(x)), Ints(d), c) && c[0] == 0
    requires Chain(B, Ints(d), Ints(e), f) && f[0] == 19 * c[10]
    ensures Fe(e) % TWO255 == LimbSub(Fe(x), Fe(y))
  {
    TopLimb(x);
    TopLimb(y);
    ValComb(B, -1, Ints(y), Ints(x));
    CutChain(Comb(-1, Ints(y), Ints(x)), d, c);
    CutChain(Ints(d), e, f);
    BorrowArithmetic(Fe(x), Fe(y), Fe(d), c[10], Fe(e));
  }

  /** Twenty limbs split at bit 255 into a low part and a high part. */
  lemma SplitAt255(x: seq<int32>, size: nat)
    requires Buffer(x, size) && size <= 10
    ensures Wide(x, size) == Fe(x[..10]) % TWO255 + TWO255 * Above255(x, size)
  {
    hide Val, Pow;
    Weights();
    assert Ints(x[..10 + size]) == Ints(x[..10]) + Ints(x[10..10 + size]);
    ValConcat(B, Ints(x[..10]), Ints(x[10..10 + size]));
    TopLimb(x[..10]);
  }

  lemma ColumnsBound(x: seq<int>, y: seq<int>, rows: nat)
    requires |x| == |y| == 10 && rows <= 10 && Digits(B, x) && Digits(B, y)
    ensures forall k :: 0 <= k < 20 ==> 0 <= Columns(x, y, rows, 20)[k] <= 10 * (B * B)
  {
    forall k | 0 <= k < 20
      ensures 0 <= Column(x, y, rows, k) <= 10 * (B * B)
    {
      ColumnBound(B, x, y, rows, k);
    }
  }

  /** The product of two numbers fits twenty limbs. */
  lemma CarriedProduct(x: seq<int32>, y: seq<int32>, t: seq<int64>, d: seq<int32>, c: seq<int>)
    requires Limbs(x) && Limbs(y) && |t| == 20 && |d| == 20
    requires Longs(t) == Columns(Ints(x), Ints(y), 10, 20)
    requires Chain(B, Longs(t), Ints(d), c) && c[0] == 0 && Digits(B, Ints(d))
    ensures Val(B, Ints(d)) == Fe(x) * Fe(y)
  {
    TopLimb(x);
    TopLimb(y);
    ProductValue(B, Ints(x), Ints(y), 10, 20);
    assert Ints(x)[..10] == Ints(x);
    Weights();
    MulBelow(Fe(x), Fe(y), TWO260, TWO260);
    ChainFits(B, Longs(t), Ints(d), c);
  }

  lemma LowBits(w: int, k: int)
    ensures (w + 0x1_0000_0000 * k) % B == w % B
  {
    var j := 64 * k;
    assert (w + B * j) % B == w % B;
  }

  ghost predicate Buffer(x: seq<int32>, size: nat) {
    |x| == 20 && size <= 10 && forall k :: 0 <= k < 10 + size ==> 0 <= x[k] < RADIX
  }

  /** The number in the low 10 + size limbs of the product buffer. */
  ghost function Wide(x: seq<int32>, size: nat): int
    requires |x| == 20 && size <= 10
  {
    Val(B, Ints(x[..10 + size]))
  }

  ghost function Above255(x: seq<int32>, size: nat): int
    requires |x| == 20 && size <= 10
  {
    x[9] as int / 0x20_0000 + 32 * Val(B, Ints(x[10..10 + size]))
  }

  lemma HighPart(x: seq<int32>, size: nat, hs: seq<int>, ls: seq<int>)
    requires Buffer(x, size) && 1 <= size <= 10
    requires |hs| == size && |ls| == size + 1 && Digits(B, hs) && ls[0] == x[9] as int / 0x20_0000
    requires forall k :: 0 <= k < size ==> ls[k] + 32 * x[10 + k] as int == hs[k] + B * ls[k + 1]
    ensures Val(B, hs) == Above255(x, size) % Pow(B, size)
  {
    var cols := Comb(32, Ints(x[10..10 + size]), Zeros(size));
    ValComb(B, 32, Ints(x[10..10 + size]), Zeros(size));
    ValZeros(B, size);
    assert Chain(B, cols, hs, ls) by {
      forall k | 0 <= k < size
        ensures ls[k] + cols[k] == hs[k] + B * ls[k + 1]
      {
        assert cols[k] == 32 * x[10 + k] as int;
      }
    }
    ChainDivides(B, cols, hs, ls);
  }

  lemma FoldedValue(x: seq<int32>, size: nat, hs: seq<int>, y: seq<int32>, cs: seq<int>)
    requires Buffer(x, size) && 1 <= size <= 10 && |hs| == size && Limbs(y)
    requires |cs| == 11 && cs[0] == 0
    requires forall k :: 0 <= k < 10 ==>
      cs[k] + (19 * (if k < size then hs[k] else 0) + (if k == 9 then x[9] % 0x20_0000 else x[k]) as int)
          == y[k] as int + B * cs[k + 1]
    ensures Fe(y) == (Fe(x[..10]) % TWO255 + 19 * Val(B, hs)) % TWO260
  {
    hide Val, Pow;
    var low := x[..10][9 := x[9] % 0x20_0000];
    var high := hs + Zeros(10 - size);
    TopLimb(x[..10]);
    PadValue(B, hs, 10 - size);
    ValComb(B, 19, high, Ints(low));
    CutChain(Comb(19, high, Ints(low)), y, cs);
  }

  /** Carries above the ten limbs do not matter if they are cut off in any case. */
  lemma FoldedWhole(low: int, high: int, m: int)
    requires m == TWO260 || 0 <= high < m
    ensures (low + 19 * (high % m)) % TWO260 == (low + 19 * high) % TWO260
  {
    if m == TWO260 {
      CutSum(low, high, m);
    } else {
      assert high % m == high by { DivUnique(high, m, 0, high); }
    }
  }

  lemma CutSum(low: int, high: int, m: int)
    requires m > 0
    ensures (low + 19 * (high % m)) % m == (low + 19 * high) % m
  {
    var q, r := high / m, high % m;
    var a := low + 19 * r;
    assert high == q * m + r && a == a / m * m + a % m;
    DivUnique(low + 19 * high, m, a / m + 19 * q, a % m);
  }

  /** The value after the first folding pass. */
  lemma FoldLemma(x: seq<int32>, size: nat, hs: seq<int>, ls: seq<int>, y: seq<int32>, cs: seq<int>)
    requires Buffer(x, size) && 1 <= size <= 10 && Limbs(y)
    requires |hs| == size && |ls| == size + 1 && Digits(B, hs) && ls[0] == x[9] as int / 0x20_0000
    requires forall k :: 0 <= k < size ==> ls[k] + 32 * x[10 + k] as int == hs[k] + B * ls[k + 1]
    requires size == 10 || 0 <= Above255(x, size) < Pow(B, size)
    requires |cs| == 11 && cs[0] == 0
    requires forall k :: 0 <= k < 10 ==>
      cs[k] + (19 * (if k < size then hs[k] else 0) + (if k == 9 then x[9] % 0x20_0000 else x[k]) as int)
          == y[k] as int + B * cs[k + 1]
    ensures Fe(y) == Unfolded(Wide(x, size)) % TWO260
  {
    hide Fe, Val, Pow, Above255, Wide;
    HighPart(x, size, hs, ls);
    FoldedValue(x, size, hs, y, cs);
    Weights();
    FoldedWhole(Fe(x[..10]) % TWO255, Above255(x, size), Pow(B, size));
    SplitAt255(x, size);
    DivUnique(Wide(x, size), TWO255, Above255(x, size), Fe(x[..10]) % TWO255);
  }

  /** The carries of the two loops of the first reduction are one chain. */
  lemma FoldCarries(x: seq<int32>, size: nat, hs: seq<int>, m: seq<int32>, y: seq<int32>, cs: seq<int>, rest: seq<int>)
    requires |x| == |m| == |y| == 20 && 1 <= size <= 10 && |hs| == size && |cs| == size + 1 && |rest| == 11 - size
    requires rest[0] == cs[size]
    requires forall k :: 0 <= k < size ==>
      cs[k] + (19 * hs[k] + (if k == 9 then x[9] % 0x20_0000 else x[k]) as int) == m[k] as int + B * cs[k + 1]
    requires forall k :: size <= k < 10 ==> m[k] == if k == 9 then x[9] % 0x20_0000 else x[k]
    requires forall k :: 0 <= k < size ==> y[k] == m[k]
    requires forall k :: size <= k < 10 ==> rest[k - size] + m[k] as int == y[k] as int + B * rest[k - size + 1]
    ensures var c := cs + rest[1..];
            |c| == 11 && c[0] == cs[0]
            && forall k :: 0 <= k < 10 ==>
                 c[k] + (19 * (if k < size then hs[k] else 0) + (if k == 9 then x[9] % 0x20_0000 else x[k]) as int)
                 == y[..10][k] as int + B * c[k + 1]
  {
    var c := cs + rest[1..];
    forall k | 0 <= k < 10
      ensures c[k] + (19 * (if k < size then hs[k] else 0) + (if k == 9 then x[9] % 0x20_0000 else x[k]) as int)
           == y[..10][k] as int + B * c[k + 1]
    {
      if k < size {
        assert c[k] == cs[k] && c[k + 1] == cs[k + 1];
      } else {
        assert c[k] == rest[k - size] && c[k + 1] == rest[k - size + 1];
      }
    }
  }

  /** The second folding pass keeps the residue and leaves less than 2P. */
  lemma RefoldLemma(y: seq<int32>, r: seq<int32>, cs: seq<int>)
    requires Limbs(y) && Limbs(r)
    requires |cs| == 11 && cs[0] == 19 * (y[9] as int / 0x20_0000)
    requires Chain(B, Ints(y[9 := y[9] % 0x20_0000]), Ints(r), cs)
    ensures 0 <= Fe(r) < 2 * P && Fe(r) % P == Fe(y) % P
  {
    hide Val;
    TopLimb(y);
    UnfoldedCongruent(Fe(y));
    ExactChain(Ints(y[9 := y[9] % 0x20_0000]), r, cs);
  }

  lemma AboveBound(x: seq<int32>, size: nat, m: int)
    requires Buffer(x, size) && Wide(x, size) < TWO255 * m
    ensures 0 <= Above255(x, size) < m
  {
    SplitAt255(x, size);
    ValBound(B, Ints(x[10..10 + size]));
    var above := Above255(x, size);
    assert above >= m ==> TWO255 * above >= TWO255 * m;
  }

  /** The carried multiple by a24 fits eleven limbs. */
  lemma CarriedScale(x: seq<int32>, d: seq<int32>, c: seq<int>)
    requires Limbs(x) && |d| == 11 && Digits(B, Ints(d))
    requires Chain(B, Comb(121665, Ints(x), Zeros(10)) + [0], Ints(d), c) && c[0] == 0
    ensures Val(B, Ints(d)) == 121665 * Fe(x)
  {
    TopLimb(x);
    var cols := Comb(121665, Ints(x), Zeros(10));
    ValComb(B, 121665, Ints(x), Zeros(10));
    ValZeros(B, 10);
    assert cols + [0] == cols + Zeros(1);
    PadValue(B, cols, 1);
    Weights();
    ChainFits(B, cols + [0], Ints(d), c);
  }

  /** And its part above bit 255 fits one limb. */
  lemma ScaleFolds(x: seq<int32>, t: seq<int32>)
    requires Limbs(x) && Buffer(t, 1) && Wide(t, 1) == 121665 * Fe(x)
    ensures 0 <= Above255(t, 1) < Pow(B, 1)
  {
    TopLimb(x);
    AboveBound(t, 1, 0x40_0000);
    Weights();
  }
}
