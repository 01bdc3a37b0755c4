/** Sixteen signed 16-bit limbs: the field elements of wireguard.c. */
module Fe16 {
  import opened MachineInts
  import opened Radix
  import opened Field25519
  import opened X25519

  const B16: nat := 0x1_0000
  const TWO256: int := 2 * P + 38

  ghost function Raw(s: seq<int64>): int { Val(B16, Longs(s)) }

  /** The field element sixteen limbs stand for. */
  ghost function Elem(s: seq<int64>): int { Raw(s) % P }

  /** What multmod returns. */
  ghost predicate Tight(s: seq<int64>) {
    |s| == 16 && -38 <= s[0] <= 65573 && forall i :: 1 <= i < 16 ==> 0 <= s[i] <= 65535
  }

  /** What add and subtract of two such numbers return. */
  ghost predicate Loose(s: seq<int64>) {
    |s| == 16 && forall i :: 0 <= i < 16 ==> -131146 <= s[i] <= 131146
  }

  ghost predicate Proper(s: seq<int64>) {
    |s| == 16 && forall i :: 0 <= i < 16 ==> 0 <= s[i] <= 65535
  }

  lemma TwoTo256()
    ensures Pow(B16, 16) == TWO256
  {
    assert Pow(B16, 2) == B16 * B16;
    PowAdd(B16, 2, 2);
    PowAdd(B16, 4, 4);
    PowAdd(B16, 8, 8);
  }

  /** What carry leaves behind: the digits of a chain, the last carry times 38
      added to limb 0. */
  ghost predicate Carried(a: seq<int64>, o: seq<int64>, d: seq<int>, c: seq<int>) {
    && |a| == |o| == |d| == 16 && |c| == 17
    && Chain(B16, Longs(a), d, c) && Digits(B16, d) && c[0] == 0
    && o[0] as int == d[0] + 38 * c[16]
    && forall k :: 1 <= k < 16 ==> o[k] as int == d[k]
  }

  /** Carrying subtracts a multiple of 2^256 - 38 = 2P. */
  lemma CarryValue(a: seq<int64>, o: seq<int64>, d: seq<int>, c: seq<int>)
    requires Carried(a, o, d, c)
    ensures Raw(o) == Raw(a) - 2 * P * c[16]
    ensures c[16] == Raw(a) / TWO256
    ensures Elem(o) == Elem(a)
  {
    hide Val, Pow;
    TwoTo256();
    ChainDivides(B16, Longs(a), d, c);
    ChainValue(B16, Longs(a), d, c);
    FirstDigit(B16, Longs(o));
    FirstDigit(B16, d);
    assert Longs(o)[1..] == d[1..];
    ModShift(-2 * c[16], Raw(a));
  }

  /** Carries are small if the columns are. */
  lemma {:induction false} CarryBound(a: seq<int64>, d: seq<int>, c: seq<int>, m: int, k: nat)
    requires |a| == 16 && Chain(B16, Longs(a), d, c) && Digits(B16, d) && c[0] == 0
    requires k <= 16 && m >= 1 && forall i :: 0 <= i < 16 ==> -m * B16 <= a[i] as int <= m * B16
    ensures -2 * m <= c[k] <= 2 * m
  {
    if k > 0 {
      CarryBound(a, d, c, m, k - 1);
      assert c[k - 1] + a[k - 1] as int == d[k - 1] + B16 * c[k];
    }
  }

  /** After one carry the second one moves at most one unit round the top. */
  lemma {:induction false} SecondCarry(a: seq<int64>, d: seq<int>, c: seq<int>, k: nat)
    requires |a| == 16 && Chain(B16, Longs(a), d, c) && Digits(B16, d) && c[0] == 0
    requires -0x8_0000_0000 <= a[0] as int <= 0x8_0000_0000 && forall i :: 1 <= i < 16 ==> 0 <= a[i] <= 65535
    requires 1 <= k <= 16
    ensures -0x8_0000 <= c[k] <= 0x8_0000
    ensures k >= 2 ==> -8 <= c[k] <= 8
    ensures k >= 3 ==> -1 <= c[k] <= 1
  {
    assert c[k - 1] + a[k - 1] as int == d[k - 1] + B16 * c[k];
    if k > 1 {
      SecondCarry(a, d, c, k - 1);
    }
  }

  /** Limb-wise sums and differences are sums and differences in the field. */
  lemma SumValue(a: seq<int64>, b: seq<int64>, o: seq<int64>, sign: int)
    requires |a| == |b| == |o| == 16 && (sign == 1 || sign == -1)
    requires forall k :: 0 <= k < 16 ==> o[k] as int == a[k] as int + sign * b[k] as int
    ensures Elem(o) == if sign == 1 then Add(Elem(a), Elem(b)) else Sub(Elem(a), Elem(b))
  {
    assert Longs(o) == Comb(sign, Longs(b), Longs(a));
    ValComb(B16, sign, Longs(b), Longs(a));
    hide Val;
    AddMod(Raw(a), Raw(b));
  }

  lemma ProductBound(a: int, b: int, m: int)
    requires -m <= a <= m && -m <= b <= m
    ensures -m * m <= a * b <= m * m
  {
    assert (m - a) * (m + b) >= 0 && (m + a) * (m - b) >= 0;
    assert (m - a) * (m - b) >= 0 && (m + a) * (m + b) >= 0;
  }

  lemma {:induction false} ColumnBound(x: seq<int>, y: seq<int>, rows: nat, k: int)
    requires rows <= |x| <= 16
    requires forall i :: 0 <= i < |x| ==> -131146 <= x[i] <= 131146
    requires forall i :: 0 <= i < |y| ==> -131146 <= y[i] <= 131146
    ensures 0 - rows * (131146 * 131146) <= Column(x, y, rows, k) <= rows * (131146 * 131146)
  {
    if rows > 0 {
      var r := rows - 1;
      ColumnBound(x, y, r, k);
      if r <= k < r + |y| {
        ProductBound(x[r], y[k - r], 131146);
      }
    }
  }

  lemma ColumnsBound(x: seq<int>, y: seq<int>, rows: nat)
    requires |x| == |y| == 16 && rows <= 16
    requires forall i :: 0 <= i < 16 ==> -131146 <= x[i] <= 131146
    requires forall i :: 0 <= i < 16 ==> -131146 <= y[i] <= 131146
    ensures forall k :: 0 <= k < 31 ==>
      -16 * (131146 * 131146) <= Columns(x, y, rows, 31)[k] <= 16 * (131146 * 131146)
  {
    forall k | 0 <= k < 31
      ensures -16 * (131146 * 131146) <= Column(x, y, rows, k) <= 16 * (131146 * 131146)
    {
      ColumnBound(x, y, rows, k);
    }
  }

  lemma FoldedColumn(t: seq<int64>, o: seq<int64>, k: nat)
    requires |o| == 16 && |t| == 31 && k < 16
    requires o[k] as int == t[k] as int + if k < 15 then 38 * t[k + 16] as int else 0
    ensures Longs(o)[k] == 38 * (Longs(t)[16..] + Zeros(1))[k] + Longs(t)[..16][k]
  {
    var hi := Longs(t)[16..];
    assert Longs(t)[..16][k] == Longs(t)[k];
    if k < 15 {
      assert (hi + Zeros(1))[k] == Longs(t)[k + 16];
    } else {
      assert (hi + Zeros(1))[k] == Zeros(1)[0];
    }
  }

  /** Folding the columns above 2^256 back in, times 38, keeps the residue. */
  lemma FoldedProduct(a: seq<int64>, b: seq<int64>, t: seq<int64>, o: seq<int64>)
    requires |a| == |b| == |o| == 16 && |t| == 31
    requires Longs(t) == Columns(Longs(a), Longs(b), 16, 31)
    requires forall k :: 0 <= k < 16 ==> o[k] as int == t[k] as int + if k < 15 then 38 * t[k + 16] as int else 0
    ensures Elem(o) == Mul(Elem(a), Elem(b))
  {
    hide Val, Columns, Column, Pow, Mul;
    var lo, hi := Longs(t)[..16], Longs(t)[16..];
    ProductValue(B16, Longs(a), Longs(b), 16, 31);
    assert Longs(a)[..16] == Longs(a);
    ValConcat(B16, lo, hi);
    assert Longs(t) == lo + hi;
    PadValue(B16, hi, 1);
    forall k | 0 <= k < 16
      ensures Longs(o)[k] == Comb(38, hi + Zeros(1), lo)[k]
    {
      FoldedColumn(t, o, k);
    }
    assert Longs(o) == Comb(38, hi + Zeros(1), lo);
    ValComb(B16, 38, hi + Zeros(1), lo);
    TwoTo256();
    FoldArithmetic(Raw(a), Raw(b), Val(B16, lo), Val(B16, hi), Raw(o));
  }

  lemma FoldArithmetic(x: int, y: int, lo: int, hi: int, o: int)
    requires x * y == lo + TWO256 * hi && o == lo + 38 * hi
    ensures o % P == Mul(x % P, y % P)
  {
    MulMod(x, y);
    ModShift(2 * hi, o);
  }

  /** One carry already normalises a tight number. */
  lemma TightCarries(a: seq<int64>, o: seq<int64>, d: seq<int>, c: seq<int>)
    requires Tight(a) && Carried(a, o, d, c)
    ensures Proper(o)
  {
    hide Val, Pow, Elem;
    TightRange(a);
    CarryValue(a, o, d, c);
    assert c[0] + a[0] as int == d[0] + B16 * c[1];
    FirstDigit(B16, Longs(a));
    LowLimb(a[0] as int, Val(B16, Longs(a)[1..]), Raw(a));
  }

  lemma LowLimb(first: int, rest: int, v: int)
    requires v == first + B16 * rest && -38 <= v < TWO256 + 38
    ensures v < 0 ==> first % B16 >= B16 - 38
    ensures v >= TWO256 ==> first % B16 < 76
  {
    assert first % B16 == v % B16;
    assert v >= TWO256 ==> (v - TWO256) % B16 == v % B16;
  }

  lemma TightRange(a: seq<int64>)
    requires Tight(a)
    ensures -38 <= Raw(a) < TWO256 + 38
  {
    var z := Longs(a)[0 := 0];
    FirstDigit(B16, Longs(a));
    FirstDigit(B16, z);
    assert z[1..] == Longs(a)[1..];
    ValBound(B16, z);
    var y := Longs(a)[0 := 65535];
    FirstDigit(B16, y);
    assert y[1..] == Longs(a)[1..];
    ValBound(B16, y);
    TwoTo256();
  }

  /** The limbs of P. */
  ghost function PLimbs(): (r: seq<int>)
    ensures |r| == 16 && r[0] == 0xffed && r[15] == 0x7fff
    ensures forall i :: 1 <= i < 15 ==> r[i] == 0xffff
  {
    [0xffed] + seq(14, _ => 0xffff) + [0x7fff]
  }

  lemma PLimbsValue()
    ensures Val(B16, PLimbs()) == P
  {
    var p := PLimbs();
    var ones := seq(16, _ => 1);
    TwoTo256();
    var low := Comb(0xffff, ones, Zeros(16));
    Repunit(16);
    ValComb(B16, 0xffff, ones, Zeros(16));
    ValZeros(B16, 16);
    assert p[..15] == low[..15][0 := 0xffed];
    FirstDigit(B16, p[..15]);
    FirstDigit(B16, low[..15]);
    assert p[..15][1..] == low[..15][1..];
    ValNext(B16, p, 15);
    ValNext(B16, low, 15);
    assert p[..16] == p && low[..16] == low;
    assert Pow(B16, 16) == B16 * Pow(B16, 15);
  }

  lemma {:induction false} Repunit(n: nat)
    ensures 0xffff * Val(B16, seq(n, _ => 1)) == Pow(B16, n) - 1
  {
    if n > 0 {
      Repunit(n - 1);
      var s := seq(n, _ => 1);
      assert s[..n - 1] == seq(n - 1, _ => 1);
    }
  }

  /** A trial subtraction of P: the top limb of the difference tells the sign. */
  lemma TrialValue(t: seq<int64>, m: seq<int64>, c: seq<int>)
    requires Proper(t) && |m| == 16 && |c| == 17
    requires Chain(B16, Comb(-1, PLimbs(), Longs(t)), Longs(m), c) && c[0] == 0 && c[16] == 0
    requires forall i :: 0 <= i < 15 ==> 0 <= m[i] <= 65535
    ensures Raw(m) == Raw(t) - P
    ensures Raw(t) >= P <==> m[15] >= 0
  {
    hide Val, Pow, PLimbs;
    PLimbsValue();
    ValComb(B16, -1, PLimbs(), Longs(t));
    ChainValue(B16, Comb(-1, PLimbs(), Longs(t)), Longs(m), c);
    ValNext(B16, Longs(m), 15);
    assert Longs(m)[..16] == Longs(m);
    ValBound(B16, Longs(m)[..15]);
    SignOfTop(Val(B16, Longs(m)[..15]), m[15] as int, Pow(B16, 15));
  }

  lemma SignOfTop(low: int, top: int, w: int)
    requires 0 <= low < w
    ensures low + top * w >= 0 <==> top >= 0
  {
    assert top < 0 ==> top * w <= -w;
    assert top >= 0 ==> top * w >= 0;
  }

  lemma ElemRange(s: seq<int64>)
    ensures 0 <= Elem(s) < P
  {
  }

  /** The exponent after n rounds of invert: bits of P - 2 from the top. */
  ghost function InverseExponent(n: nat): nat
    requires n <= 254
  {
    if n == 0 then 1
    else 2 * InverseExponent(n - 1) + if n == 250 || n == 252 then 0 else 1
  }

  lemma {:induction false} InverseExponentPrefix(n: nat)
    requires n < 250
    ensures InverseExponent(n) == Pow(2, n + 1) - 1
  {
    if n > 0 {
      InverseExponentPrefix(n - 1);
    } else {
      assert Pow(2, 1) == 2 * Pow(2, 0);
    }
  }

  lemma InverseExponentIsPMinusTwo(n: nat)
    requires n == 254
    ensures InverseExponent(n) == P - 2
  {
    hide Pow, InverseExponent;
    InverseExponentPrefix(249);
    TwoTo250(250);
    UnrollTail(254);
  }

  lemma UnrollTail(n: nat)
    requires n == 254
    ensures InverseExponent(n) == 32 * InverseExponent(n - 5) + 11
  {
    assert InverseExponent(n) == 2 * InverseExponent(n - 1) + 1;
    assert InverseExponent(n - 1) == 2 * InverseExponent(n - 2) + 1;
    assert InverseExponent(n - 2) == 2 * InverseExponent(n - 3);
    assert InverseExponent(n - 3) == 2 * InverseExponent(n - 4) + 1;
    assert InverseExponent(n - 4) == 2 * InverseExponent(n - 5);
  }

  function TrialOnce(v: int): int { if v >= P then v - P else v }

  /** Two conditional subtractions bring any 256-bit number below P. */
  lemma TwiceReduced(a: seq<int64>)
    requires Proper(a)
    ensures TrialOnce(TrialOnce(Raw(a))) == Elem(a)
  {
    ValBound(B16, Longs(a));
    TwoTo256();
    hide Val, Pow;
    var v := Raw(a);
    assert v >= 2 * P ==> v % P == v - 2 * P;
    assert P <= v < 2 * P ==> v % P == v - P;
  }

  /** Two bytes to a limb. */
  lemma PackedBytes(t: seq<int64>, o: Bytes)
    requires Proper(t) && |o| == 32
    requires forall k :: 0 <= k < 16 ==> o[2 * k] == t[k] as int % 256 && o[2 * k + 1] == t[k] as int / 256
    ensures Raw(t) >= 0 && o == Encode(Raw(t))
  {
    hide Val, Pow;
    ValBound(B16, Longs(t));
    forall i | 0 <= i < 32
      ensures o[i] == Encode(Raw(t))[i]
    {
      DigitAt(B16, Longs(t), i / 2);
      PackedByte(Raw(t), i, i / 2, t[i / 2] as int);
      assert o[2 * (i / 2)] == t[i / 2] as int % 256;
    }
    assert o == Encode(Raw(t));
  }

  lemma PackedByte(v: int, i: nat, k: nat, limb: int)
    requires v >= 0 && k == i / 2 && Pow(B16, k) > 0 && v / Pow(B16, k) % B16 == limb
    ensures Pow(256, i) > 0
    ensures v / Pow(256, i) % 256 == if i % 2 == 0 then limb % 256 else limb / 256
  {
    assert Pow(256, 2) == B16;
    assert Pow(256, 1) == 256;
    hide Pow;
    PowPow(256, 2, k);
    HalfWords(v / Pow(B16, k));
    if i % 2 == 1 {
      PowAdd(256, 2 * k, 1);
      DivDiv(v, Pow(256, 2 * k), 256);
    }
  }

  lemma HalfWords(q: int)
    ensures q % 256 == q % B16 % 256
    ensures q / 256 % 256 == q % B16 / 256
  {
    var h, r := q / B16, q % B16;
    assert q == 256 * (256 * h) + r;
    assert q / 256 == 256 * h + r / 256;
  }

  /** Elements given by their two lowest limbs. */
  lemma SmallElem(s: seq<int64>, x: int, y: int)
    requires |s| == 16 && s[0] as int == x && s[1] as int == y && 0 <= x <= 65535 && 0 <= y <= 1
    requires forall k :: 2 <= k < 16 ==> s[k] == 0
    ensures Elem(s) == x + 65536 * y
  {
    var a := Longs(s);
    FirstDigit(B16, a);
    FirstDigit(B16, a[1..]);
    assert a[1..][1..] == Zeros(14);
    ValZeros(B16, 14);
  }

  /** The order and the signs in which wireguard.c forms one ladder step. */
  function MirroredStep(p: Points): Points {
    var e := Add(p.x2, p.z2);
    var a := Sub(p.x2, p.z2);
    var c := Add(p.x3, p.z3);
    var b := Sub(p.x3, p.z3);
    var d := Mul(e, e);
    var f := Mul(a, a);
    var a' := Mul(c, a);
    var c' := Mul(b, e);
    var e' := Add(a', c');
    var a'' := Sub(a', c');
    var b' := Mul(a'', a'');
    var c'' := Sub(d, f);
    var a3 := Add(Mul(c'', 121665), d);
    Points(Mul(d, f), Mul(c'', a3), Mul(e', e'), Mul(b', 9))
  }

  lemma SquareOfDifference(x: int, y: int)
    ensures Mul(Sub(x, y), Sub(x, y)) == Mul(Sub(y, x), Sub(y, x))
  {
    MulMod(x - y, x - y);
    MulMod(y - x, y - x);
    assert (x - y) * (x - y) == (y - x) * (y - x);
  }

  /** It is the step of RFC 7748: only commuted operands and one sign differ. */
  lemma MirroredStepIsLadderStep(p: Points)
    ensures MirroredStep(p) == LadderStep(9, p)
  {
    hide Add, Sub, Mul;
    var a, b := Add(p.x2, p.z2), Sub(p.x2, p.z2);
    var aa, bb := Mul(a, a), Mul(b, b);
    var e := Sub(aa, bb);
    var da, cb := Mul(Sub(p.x3, p.z3), a), Mul(Add(p.x3, p.z3), b);
    Commutes(da, cb);
    SquareOfDifference(da, cb);
    Commutes(e, 121665);
    Commutes(e, Add(Mul(121665, e), aa));
  }

  lemma TightIsLoose()
    ensures forall s :: Tight(s) ==> Loose(s)
  {
  }
}
