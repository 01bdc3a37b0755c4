/** Curve25519.java: field arithmetic on ten 26-bit limbs, updated in place. */
module JavaCurve25519 {
  import opened MachineInts
  import opened Radix
  import opened Field25519
  import opened JavaLimbs
  import opened JavaField
  import opened X25519
  import opened LittleEndian
  import opened Words

  const ROW: int := 0x10_0000_0000_0000

  class Curve25519 {
    const x_1: array<int32>
    const x_2: array<int32>
    const x_3: array<int32>
    const z_2: array<int32>
    const z_3: array<int32>
    const A: array<int32>
    const AA: array<int32>
    const B_: array<int32>
    const BB: array<int32>
    const C: array<int32>
    const CB: array<int32>
    const D: array<int32>
    const DA: array<int32>
    const E: array<int32>
    const t1: array<int64>
    const t2: array<int32>

    static method FiveArrays()
      returns (a: array<int32>, b: array<int32>, c: array<int32>, d: array<int32>, e: array<int32>)
      ensures a.Length == b.Length == c.Length == d.Length == e.Length == 10
      ensures fresh(a) && fresh(b) && fresh(c) && fresh(d) && fresh(e)
      ensures a !in {b, c, d, e} && b !in {c, d, e} && c !in {d, e} && d != e
    {
      a := new int32[10](_ => 0);
      b := new int32[10](_ => 0);
      c := new int32[10](_ => 0);
      d := new int32[10](_ => 0);
      e := new int32[10](_ => 0);
    }

    constructor ()
      ensures Valid() && fresh(Registers()) && fresh(t1)
    {
      var x1, x2, x3, z2, z3 := FiveArrays();
      var a, aa, b, bb, c := FiveArrays();
      var cb, d, da, e, _ := FiveArrays();
      x_1, x_2, x_3, z_2, z_3 := x1, x2, x3, z2, z3;
      A, AA, B_, BB, C := a, aa, b, bb, c;
      CB, D, DA, E := cb, d, da, e;
      t1 := new int64[20](_ => 0);
      t2 := new int32[20];
    }

    ghost function Registers(): set<array<int32>> {
      {x_1, x_2, x_3, z_2, z_3, A, AA, B_, BB, C, CB, D, DA, E, t2}
    }

    ghost predicate Apart() {
      && x_1 !in {x_2, x_3, z_2, z_3, A, AA, B_, BB, C, CB, D, DA, E, t2}
      && x_2 !in {x_3, z_2, z_3, A, AA, B_, BB, C, CB, D, DA, E, t2}
      && x_3 !in {z_2, z_3, A, AA, B_, BB, C, CB, D, DA, E, t2}
      && z_2 !in {z_3, A, AA, B_, BB, C, CB, D, DA, E, t2}
      && z_3 !in {A, AA, B_, BB, C, CB, D, DA, E, t2}
      && A !in {AA, B_, BB, C, CB, D, DA, E, t2}
      && AA !in {B_, BB, C, CB, D, DA, E, t2}
      && B_ !in {BB, C, CB, D, DA, E, t2}
      && BB !in {C, CB, D, DA, E, t2}
      && C !in {CB, D, DA, E, t2}
      && CB !in {D, DA, E, t2}
      && D !in {DA, E, t2}
      && DA !in {E, t2}
      && E != t2
    }

    ghost predicate Sized() {
      && x_1.Length == x_2.Length == x_3.Length == z_2.Length == z_3.Length == 10
      && A.Length == AA.Length == B_.Length == BB.Length == C.Length == 10
      && CB.Length == D.Length == DA.Length == E.Length == 10
    }

    ghost predicate Valid()
      reads this, t1
    {
      Apart() && Sized() && Scratch()
    }

    ghost predicate Scratch()
      reads this, t1
    {
      t1.Length == 20 && t2.Length == 20 && t1[19] == 0
    }

    /** The first loop of reduceQuick: t2 := x + 19. */
    method AddNineteen(x: array<int32>) returns (ghost cs: seq<int>)
      requires x != t2 && t2.Length == 20 && Limbs(x[..])
      modifies t2
      ensures Limbs(t2[..10]) && |cs| == 11 && cs[0] == 19
      ensures Chain(B, Ints(x[..]), Ints(t2[..10]), cs)
    {
      var carry: int32 := 19;
      cs := [19];
      for index := 0 to 10
        invariant 0 <= carry <= 19
        invariant |cs| == index + 1 && cs[0] == 19 && cs[index] == carry as int
        invariant forall k :: 0 <= k < index ==> 0 <= t2[k] < RADIX
        invariant forall k :: 0 <= k < index ==> cs[k] + x[k] as int == t2[k] as int + B * cs[k + 1]
      {
        carry := carry + x[index];
        t2[index] := carry % RADIX;
        carry := carry / RADIX;
        cs := cs + [carry as int];
      }
    }

    /** The last loop of reduceQuick: a selection without branching. */
    method Select(x: array<int32>, mask: int32)
      requires x != t2 && t2.Length == 20 && x.Length == 10
      requires mask == 0 || mask == -1
      modifies x
      ensures x[..] == if mask == 0 then old(x[..]) else t2[..10]
    {
      var nmask := -1 - mask;
      for index := 0 to 10
        invariant forall k :: 0 <= k < index ==> x[k] == if mask == 0 then old(x[k]) else t2[k]
        invariant forall k :: index <= k < 10 ==> x[k] == old(x[k])
      {
        x[index] := AndMask(nmask, x[index]) + AndMask(mask, t2[index]);
      }
    }

    method ReduceQuick(x: array<int32>)
      requires Scratch() && x != t2
      requires Limbs(x[..])
      modifies x, t2
      ensures Limbs(x[..]) && 0 <= Fe(x[..]) == TrialResult(old(Fe(x[..])))
    {
      ghost var cs := AddNineteen(x);
      ghost var ts := t2[..10];
      TrialSubtraction(x[..], ts, cs);
      var mask := -(t2[9] / 0x20_0000 % 2);
      t2[9] := t2[9] % 0x20_0000;
      assert t2[..10] == ts[9 := ts[9] % 0x20_0000];
      Select(x, mask);
      TopLimb(x[..]);
    }

    method AddLimbs(result: array<int32>, x: array<int32>, y: array<int32>) returns (ghost cs: seq<int>)
      requires result.Length == 10 && Limbs(x[..]) && Limbs(y[..])
      modifies result
      ensures Limbs(result[..]) && |cs| == 11 && cs[0] == 0
      ensures Chain(B, old(Comb(1, Ints(x[..]), Ints(y[..]))), Ints(result[..]), cs)
    {
      ghost var cols := Comb(1, Ints(x[..]), Ints(y[..]));
      var carry := x[0] + y[0];
      result[0] := carry % RADIX;
      cs := [0, (carry / RADIX) as int];
      for index := 1 to 10
        invariant 0 <= carry < 2 * RADIX
        invariant |cs| == index + 1 && cs[0] == 0 && cs[index] == (carry / RADIX) as int
        invariant forall k :: 0 <= k < index ==> 0 <= result[k] < RADIX
        invariant forall k :: 0 <= k < index ==> cs[k] + cols[k] == result[k] as int + B * cs[k + 1]
        invariant forall k :: index <= k < 10 ==> x[k] == old(x[k]) && y[k] == old(y[k])
      {
        carry := carry / RADIX + x[index] + y[index];
        result[index] := carry % RADIX;
        cs := cs + [(carry / RADIX) as int];
      }
    }

    method AddFe(result: array<int32>, x: array<int32>, y: array<int32>)
      requires Scratch() && result != t2 && result.Length == 10
      requires Limbs(x[..]) && Limbs(y[..])
      modifies result, t2
      ensures Limbs(result[..])
      ensures Fe(result[..]) == old(LimbAdd(Fe(x[..]), Fe(y[..])))
      ensures old(Canon(x[..]) && Canon(y[..])) ==>
        Canon(result[..]) && Fe(result[..]) == old(Add(Fe(x[..]), Fe(y[..])))
    {
      ghost var a, b := Fe(x[..]), Fe(y[..]);
      ghost var xs, ys := Ints(x[..]), Ints(y[..]);
      ghost var cs := AddLimbs(result, x, y);
      ValComb(B, 1, xs, ys);
      CutChain(Comb(1, xs, ys), result[..], cs);
      ReduceQuick(result);
      if Canonical(a) && Canonical(b) {
        LimbAddIsAdd(a, b);
      }
    }

    /** The first loop of sub. */
    static method SubLimbs(result: array<int32>, x: array<int32>, y: array<int32>)
      returns (borrow: int32, ghost cs: seq<int>)
      requires result.Length == 10 && Limbs(x[..]) && Limbs(y[..])
      modifies result
      ensures -RADIX <= borrow < RADIX
      ensures Limbs(result[..]) && |cs| == 11 && cs[0] == 0 && cs[10] == (borrow / RADIX) as int
      ensures Chain(B, old(Comb(-1, Ints(y[..]), Ints(x[..]))), Ints(result[..]), cs)
    {
      ghost var cols := Comb(-1, Ints(y[..]), Ints(x[..]));
      cs := [0];
      borrow := 0;
      for index := 0 to 10
        invariant -RADIX <= borrow < RADIX
        invariant |cs| == index + 1 && cs[0] == 0 && cs[index] == (borrow / RADIX) as int
        invariant forall k :: 0 <= k < index ==> 0 <= result[k] < RADIX
        invariant forall k :: 0 <= k < index ==> cs[k] + cols[k] == result[k] as int + B * cs[k + 1]
        invariant forall k :: index <= k < 10 ==> x[k] == old(x[k]) && y[k] == old(y[k])
      {
        borrow := x[index] - y[index] - borrow / RADIX % 2;
        result[index] := borrow % RADIX;
        cs := cs + [(borrow / RADIX) as int];
      }
    }

    /** The second loop of sub: take off 19 if there was a borrow. */
    static method SubNineteen(result: array<int32>, borrow0: int32) returns (ghost cs: seq<int>)
      requires Limbs(result[..]) && -RADIX <= borrow0 < RADIX
      modifies result
      ensures Limbs(result[..]) && |cs| == 11 && cs[0] == 19 * (borrow0 / RADIX) as int
      ensures Chain(B, old(Ints(result[..])), Ints(result[..]), cs)
    {
      var borrow := result[0] - AndMask(-(borrow0 / RADIX % 2), 19);
      result[0] := borrow % RADIX;
      cs := [19 * (borrow0 / RADIX) as int, (borrow / RADIX) as int];
      for index := 1 to 10
        invariant -RADIX <= borrow < RADIX
        invariant |cs| == index + 1 && cs[0] == 19 * (borrow0 / RADIX) as int && cs[index] == (borrow / RADIX) as int
        invariant forall k :: 0 <= k < index ==> 0 <= result[k] < RADIX
        invariant forall k :: 0 <= k < index ==> cs[k] + old(result[k]) as int == result[k] as int + B * cs[k + 1]
        invariant forall k :: index <= k < 10 ==> result[k] == old(result[k])
      {
        borrow := result[index] - borrow / RADIX % 2;
        result[index] := borrow % RADIX;
        cs := cs + [(borrow / RADIX) as int];
      }
    }

    static method SubFe(result: array<int32>, x: array<int32>, y: array<int32>)
      requires result.Length == 10 && Limbs(x[..]) && Limbs(y[..])
      modifies result
      ensures Limbs(result[..])
      ensures Fe(result[..]) == old(LimbSub(Fe(x[..]), Fe(y[..])))
      ensures old(Canon(x[..]) && Canon(y[..])) ==>
        Canon(result[..]) && Fe(result[..]) == old(Sub(Fe(x[..]), Fe(y[..])))
    {
      ghost var xs, ys := x[..], y[..];
      var borrow, cs := SubLimbs(result, x, y);
      ghost var ds := result[..];
      ghost var fs := SubNineteen(result, borrow);
      ghost var es := result[..];
      BorrowFix(xs, ys, ds, cs, es, fs);
      TopLimb(es);
      result[9] := result[9] % 0x20_0000;
      assert result[..] == es[9 := es[9] % 0x20_0000];
      if Canonical(Fe(xs)) && Canonical(Fe(ys)) {
        LimbSubIsSub(Fe(xs), Fe(ys));
      }
    }

    /** The widening product of two limbs. */
    static method LimbProduct(a: int32, b: int32) returns (r: int64)
      requires 0 <= a < RADIX && 0 <= b < RADIX
      ensures r as int == a as int * b as int && 0 <= r as int < ROW
    {
      MulBelow(a as int, b as int, B, B);
      r := a as int64 * b as int64;
    }

    /** The columns of the first i rows of the product are in t1. */
    ghost predicate Rows(cols: seq<int>, i: nat)
      reads this, t1
      requires |cols| == 20 && 1 <= i <= 10 && t1.Length == 20
    {
      forall k :: 0 <= k < i + 9 ==> t1[k] as int == cols[k]
    }

    /** The first row of the product in mul. */
    method FirstRow(x: array<int32>, y: array<int32>)
      requires Scratch() && Limbs(x[..]) && Limbs(y[..])
      modifies t1
      ensures Scratch()
      ensures Rows(Columns(Ints(x[..]), Ints(y[..]), 1, 20), 1)
    {
      ghost var xs, ys := Ints(x[..]), Ints(y[..]);
      ghost var cols := Columns(xs, ys, 1, 20);
      assert forall k :: 0 <= k < 20 ==> Columns(xs, ys, 0, 20)[k] == 0;
      hide Columns, ScaledRow;
      RowAdds(xs, ys, 0, 20);
      for i := 0 to 10
        invariant t1[19] == 0
        invariant forall k :: 0 <= k < i ==> t1[k] as int == cols[k]
      {
        t1[i] := LimbProduct(x[0], y[i]);
        ScaledRowAt(xs[0], ys, 0, 20, i);
      }
    }

    /** Row i of the product in mul.  The last column is assigned, not
        accumulated, so t1 needs no clearing; t1[19] is never written. */
    method AddRow(x: array<int32>, y: array<int32>, i: int)
      requires Scratch() && Limbs(x[..]) && Limbs(y[..]) && 1 <= i < 10
      requires Rows(Columns(Ints(x[..]), Ints(y[..]), i, 20), i)
      modifies t1
      ensures Scratch()
      ensures Rows(Columns(Ints(x[..]), Ints(y[..]), i + 1, 20), i + 1)
    {
      ghost var xs, ys := Ints(x[..]), Ints(y[..]);
      ghost var before, row := Columns(xs, ys, i, 20), ScaledRow(xs[i], ys, i, 20);
      hide Columns, ScaledRow;
      RowAdds(xs, ys, i, 20);
      ColumnsBound(xs, ys, i);
      for j := 0 to 9
        invariant t1[19] == 0
        invariant forall k :: 0 <= k < i + 9 ==> t1[k] as int == before[k] + if k < i + j then row[k] else 0
      {
        var product := LimbProduct(x[i], y[j]);
        ScaledRowAt(xs[i], ys, i, 20, j);
        t1[i + j] := t1[i + j] + product;
      }
      t1[i + 9] := LimbProduct(x[i], y[9]);
      ScaledRowAt(xs[i], ys, i, 20, 9);
      assert before[i + 9] == 0 by { ColumnBeyond(xs, ys, i, i + 9); }
    }

    method Multiply(x: array<int32>, y: array<int32>)
      requires Scratch() && Limbs(x[..]) && Limbs(y[..])
      modifies t1
      ensures Scratch()
      ensures Longs(t1[..]) == Columns(Ints(x[..]), Ints(y[..]), 10, 20)
      ensures forall k :: 0 <= k < 20 ==> 0 <= t1[k] as int <= 10 * ROW
    {
      FirstRow(x, y);
      for i := 1 to 10
        invariant Scratch() && Rows(Columns(Ints(x[..]), Ints(y[..]), i, 20), i)
      {
        AddRow(x, y, i);
      }
      ColumnBeyond(Ints(x[..]), Ints(y[..]), 10, 19);
      ColumnsBound(Ints(x[..]), Ints(y[..]), 10);
    }

    /** `((int) v) & 0x03FFFFFF` of a long. */
    static method Low26(v: int64) returns (r: int32)
      ensures r as int == v as int % B
    {
      var w := Wrap32(v as int);
      ghost var k := (v as int - w as int) / 0x1_0000_0000;
      assert v as int == w as int + 0x1_0000_0000 * k;
      LowBits(w as int, k);
      r := w % RADIX;
    }

    /** The carry loop of mul. */
    method CarryLong() returns (ghost cs: seq<int>)
      requires Scratch()
      requires forall k :: 0 <= k < 20 ==> 0 <= t1[k] as int <= 10 * ROW
      modifies t2
      ensures |cs| == 21 && cs[0] == 0 && Digits(B, Ints(t2[..]))
      ensures Chain(B, Longs(t1[..]), Ints(t2[..]), cs)
    {
      var v := t1[0];
      t2[0] := Low26(v);
      cs := [0, v as int / B];
      for i := 1 to 20
        invariant 0 <= v as int < 11 * ROW
        invariant |cs| == i + 1 && cs[0] == 0 && cs[i] == v as int / B
        invariant forall k :: 0 <= k < i ==> 0 <= t2[k] < RADIX
        invariant forall k :: 0 <= k < i ==> cs[k] + t1[k] as int == t2[k] as int + B * cs[k + 1]
      {
        v := v / 0x400_0000 + t1[i];
        t2[i] := Low26(v);
        cs := cs + [v as int / B];
      }
    }

    /** The carry loop of mulA24. */
    method ScaleA24(x: array<int32>) returns (ghost cs: seq<int>)
      requires Scratch() && x != t2 && Limbs(x[..])
      modifies t2
      ensures |cs| == 12 && cs[0] == 0 && Digits(B, Ints(t2[..11]))
      ensures Chain(B, Comb(121665, Ints(x[..]), Zeros(10)) + [0], Ints(t2[..11]), cs)
    {
      ghost var cols := Comb(121665, Ints(x[..]), Zeros(10)) + [0];
      var carry: int64 := 0;
      cs := [0];
      for index := 0 to 10
        invariant 0 <= carry < 0x2_0000
        invariant |cs| == index + 1 && cs[0] == 0 && cs[index] == carry as int
        invariant forall k :: 0 <= k < index ==> 0 <= t2[k] < RADIX
        invariant forall k :: 0 <= k < index ==> cs[k] + cols[k] == t2[k] as int + B * cs[k + 1]
      {
        carry := carry + 121665 * x[index] as int64;
        t2[index] := Low26(carry);
        carry := carry / 0x400_0000;
        cs := cs + [carry as int];
      }
      t2[10] := Low26(carry);
      cs := cs + [0];
    }

    /** The loop of reduce that folds the part above bit 255 back in, times 19.
        `hs` are the limbs of that part. */
    static method FoldHigh(x: array<int32>, size: int, limb0: int32)
      returns (carry: int32, ghost hs: seq<int>, ghost ls: seq<int>, ghost cs: seq<int>)
      requires x.Length == 20 && 1 <= size <= 10 && 0 <= limb0 < 32
      requires forall k :: 0 <= k < 10 + size ==> 0 <= x[k] < RADIX
      modifies x
      ensures 0 <= carry < 32
      ensures |hs| == size && |ls| == |cs| == size + 1
      ensures ls[0] == limb0 as int && cs[0] == 0 && cs[size] == carry as int
      ensures forall k :: 0 <= k < size ==> 0 <= x[k] < RADIX && 0 <= hs[k] < B
      ensures forall k :: size <= k < 20 ==> x[k] == old(x[k])
      ensures forall k :: 0 <= k < size ==> ls[k] + 32 * old(x[10 + k]) as int == hs[k] + B * ls[k + 1]
      ensures forall k :: 0 <= k < size ==> cs[k] + (19 * hs[k] + old(x[k]) as int) == x[k] as int + B * cs[k + 1]
    {
      var limb := limb0;
      carry, hs, ls, cs := 0, [], [limb as int], [0];
      for index := 0 to size
        invariant 0 <= carry < 32 && 0 <= limb < 32
        invariant |hs| == index && |ls| == |cs| == index + 1
        invariant ls[0] == limb0 as int && cs[0] == 0 && ls[index] == limb as int && cs[index] == carry as int
        invariant forall k :: 0 <= k < index ==> 0 <= x[k] < RADIX && 0 <= hs[k] < B
        invariant forall k :: index <= k < 20 ==> x[k] == old(x[k])
        invariant forall k :: 0 <= k < index ==> ls[k] + 32 * old(x[10 + k]) as int == hs[k] + B * ls[k + 1]
        invariant forall k :: 0 <= k < index ==> cs[k] + (19 * hs[k] + old(x[k]) as int) == x[k] as int + B * cs[k + 1]
      {
        limb := limb + x[10 + index] * 32;
        carry := carry + (limb % RADIX * 19 + x[index]);
        x[index] := carry % RADIX;
        hs := hs + [(limb % RADIX) as int];
        limb := limb / RADIX;
        carry := carry / RADIX;
        ls, cs := ls + [limb as int], cs + [carry as int];
      }
    }

    /** The loop of reduce that carries through the remaining low limbs. */
    static method CarryRest(x: array<int32>, size: int, carry0: int32) returns (ghost cs: seq<int>)
      requires x.Length == 20 && 1 <= size <= 10 && 0 <= carry0 < 32
      requires forall k :: 0 <= k < 10 ==> 0 <= x[k] < RADIX
      modifies x
      ensures |cs| == 11 - size && cs[0] == carry0 as int
      ensures forall k :: 0 <= k < 10 ==> 0 <= x[k] < RADIX
      ensures forall k :: 0 <= k < size || 10 <= k < 20 ==> x[k] == old(x[k])
      ensures forall k :: size <= k < 10 ==> cs[k - size] + old(x[k]) as int == x[k] as int + B * cs[k - size + 1]
    {
      var carry := carry0;
      cs := [carry as int];
      for index := size to 10
        invariant 0 <= carry < 32
        invariant |cs| == index - size + 1 && cs[0] == carry0 as int && cs[index - size] == carry as int
        invariant forall k :: 0 <= k < 10 ==> 0 <= x[k] < RADIX
        invariant forall k :: 0 <= k < size || index <= k < 20 ==> x[k] == old(x[k])
        invariant forall k :: size <= k < index ==>
          cs[k - size] + old(x[k]) as int == x[k] as int + B * cs[k - size + 1]
      {
        carry := carry + x[index];
        x[index] := carry % RADIX;
        carry := carry / RADIX;
        cs := cs + [carry as int];
      }
    }

    /** The second reduction of reduce: fold in what is left above bit 255. */
    static method FoldTop(result: array<int32>, x: array<int32>, carry0: int32) returns (ghost cs: seq<int>)
      requires x.Length == 20 && result.Length == 10 && result != x
      requires Limbs(x[..10]) && 0 <= carry0 < 1000
      modifies result
      ensures Limbs(result[..]) && |cs| == 11 && cs[0] == carry0 as int
      ensures Chain(B, Ints(x[..10]), Ints(result[..]), cs)
    {
      var carry := carry0;
      cs := [carry as int];
      for index := 0 to 10
        invariant 0 <= carry < 1000
        invariant |cs| == index + 1 && cs[0] == carry0 as int && cs[index] == carry as int
        invariant forall k :: 0 <= k < index ==> 0 <= result[k] < RADIX
        invariant forall k :: 0 <= k < index ==> cs[k] + x[k] as int == result[k] as int + B * cs[k + 1]
      {
        carry := carry + x[index];
        result[index] := carry % RADIX;
        carry := carry / RADIX;
        cs := cs + [carry as int];
      }
    }

    /** The first reduction of reduce: low + 19 * high. */
    static method Fold(x: array<int32>, size: int)
      requires 1 <= size <= 10 && Buffer(x[..], size)
      requires size == 10 || 0 <= Above255(x[..], size) < Pow(B, size)
      modifies x
      ensures Limbs(x[..10])
      ensures Fe(x[..10]) == Unfolded(old(Wide(x[..], size))) % TWO260
    {
      ghost var xs := x[..];
      hide Fe, Above255, Wide, Val, Pow, Unfolded;
      var limb := x[9] / 0x20_0000;
      x[9] := x[9] % 0x20_0000;
      var carry, hs, ls, cs := FoldHigh(x, size, limb);
      ghost var ms := x[..];
      ghost var rest := CarryRest(x, size, carry);
      FoldCarries(xs, size, hs, ms, x[..], cs, rest);
      FoldLemma(xs, size, hs, ls, x[..10], cs + rest[1..]);
    }

    method Reduce(result: array<int32>, x: array<int32>, size: int)
      requires Scratch() && result.Length == 10 && result != x && result != t2
      requires 1 <= size <= 10 && Buffer(x[..], size)
      requires size == 10 || 0 <= Above255(x[..], size) < Pow(B, size)
      modifies result, x, t2
      ensures Canon(result[..]) && Fe(result[..]) == Folded(old(Wide(x[..], size)))
    {
      Fold(x, size);
      ghost var ys := x[..10];
      var carry := x[9] / 0x20_0000 * 19;
      x[9] := x[9] % 0x20_0000;
      assert x[..10] == ys[9 := ys[9] % 0x20_0000];
      ghost var cs := FoldTop(result, x, carry);
      RefoldLemma(ys, result[..], cs);
      TrialIsMod(Fe(result[..]));
      ReduceQuick(result);
    }

    method MulFe(result: array<int32>, x: array<int32>, y: array<int32>)
      requires Scratch() && result.Length == 10 && t2 !in {result, x, y}
      requires Limbs(x[..]) && Limbs(y[..])
      modifies result, t1, t2
      ensures Scratch() && Canon(result[..])
      ensures Fe(result[..]) == old(LimbMul(Fe(x[..]), Fe(y[..])))
      ensures old(Canon(x[..]) && Canon(y[..])) ==> Fe(result[..]) == old(Mul(Fe(x[..]), Fe(y[..])))
    {
      Multiply(x, y);
      ghost var cs := CarryLong();
      CarriedProduct(x[..], y[..], t1[..], t2[..], cs);
      assert t2[..20] == t2[..];
      ghost var a, b := Fe(x[..]), Fe(y[..]);
      if Canonical(a) && Canonical(b) {
        LimbMulIsMul(a, b);
      }
      Reduce(result, t2, 10);
    }

    method MulA24(result: array<int32>, x: array<int32>)
      requires Scratch() && result.Length == 10 && t2 !in {result, x}
      requires Limbs(x[..])
      modifies result, t2
      ensures Scratch() && Canon(result[..])
      ensures Fe(result[..]) == old(LimbMul(121665, Fe(x[..])))
      ensures old(Canon(x[..])) ==> Fe(result[..]) == old(Mul(121665, Fe(x[..])))
    {
      hide Folded, Pow, Above255;
      ghost var a := Fe(x[..]);
      if Canonical(a) {
        LimbMulIsMul(121665, a);
      }
      ghost var cs := ScaleA24(x);
      CarriedScale(x[..], t2[..11], cs);
      assert t2[..][..11] == t2[..11];
      ScaleFolds(x[..], t2[..]);
      Reduce(result, t2, 1);
    }

    method Square(result: array<int32>, x: array<int32>)
      requires Scratch() && result.Length == 10 && t2 !in {result, x}
      requires Limbs(x[..])
      modifies result, t1, t2
      ensures Scratch() && Canon(result[..])
      ensures Fe(result[..]) == old(LimbMul(Fe(x[..]), Fe(x[..])))
      ensures old(Canon(x[..])) ==> Fe(result[..]) == old(Mul(Fe(x[..]), Fe(x[..])))
    {
      MulFe(result, x, x);
    }

    static method CSwap(select0: int32, x: array<int32>, y: array<int32>)
      requires select0 == 0 || select0 == 1
      requires x.Length == y.Length == 10 && x != y
      modifies x, y
      ensures x[..] == if select0 == 1 then old(y[..]) else old(x[..])
      ensures y[..] == if select0 == 1 then old(x[..]) else old(y[..])
    {
      hide Xor32;
      var select := -select0;
      for index := 0 to 10
        invariant forall k :: 0 <= k < index ==> x[k] == if select0 == 1 then old(y[k]) else old(x[k])
        invariant forall k :: 0 <= k < index ==> y[k] == if select0 == 1 then old(x[k]) else old(y[k])
        invariant forall k :: index <= k < 10 ==> x[k] == old(x[k]) && y[k] == old(y[k])
      {
        Xor32Cancels(x[index], y[index]);
        Xor32Cancels(y[index], x[index]);
        var dummy := AndMask(select, Xor32(x[index], y[index]));
        x[index] := Xor32(x[index], dummy);
        y[index] := Xor32(y[index], dummy);
      }
    }

    /** One pass of the loop in evalCurve after its conditional swaps. */
    method Step()
      requires Valid()
      requires Limbs(x_1[..]) && Limbs(x_2[..]) && Limbs(z_2[..]) && Limbs(x_3[..]) && Limbs(z_3[..])
      modifies x_2, z_2, x_3, z_3, A, AA, B_, BB, C, CB, D, DA, E, t1, t2
      ensures Valid()
      ensures Canon(x_2[..]) && Canon(z_2[..]) && Canon(x_3[..]) && Canon(z_3[..])
      ensures Points(Fe(x_2[..]), Fe(z_2[..]), Fe(x_3[..]), Fe(z_3[..])) ==
              old(LimbStep(Fe(x_1[..]), Points(Fe(x_2[..]), Fe(z_2[..]), Fe(x_3[..]), Fe(z_3[..]))))
    {
      hide Fe, LimbAdd, LimbSub, LimbMul, Mul;
      AddFe(A, x_2, z_2);
      Square(AA, A);
      SubFe(B_, x_2, z_2);
      Square(BB, B_);
      SubFe(E, AA, BB);
      AddFe(C, x_3, z_3);
      SubFe(D, x_3, z_3);
      MulFe(DA, D, A);
      MulFe(CB, C, B_);
      AddFe(x_3, DA, CB);
      Square(x_3, x_3);
      SubFe(z_3, DA, CB);
      Square(z_3, z_3);
      MulFe(z_3, z_3, x_1);
      MulFe(x_2, AA, BB);
      MulA24(z_2, E);
      AddFe(z_2, z_2, AA);
      MulFe(z_2, z_2, E);
    }

    /** A run of squarings of A. */
    method SquareTimes(count: nat, ghost a: int, ghost e: nat)
      requires Scratch() && A.Length == 10 && A != t2
      requires Canon(A[..]) && Fe(A[..]) == Exp(a, e)
      modifies A, t1, t2
      ensures Scratch() && Canon(A[..]) && Fe(A[..]) == Exp(a, Doubled(e, count))
    {
      for j := 0 to count
        invariant Scratch() && Canon(A[..]) && Fe(A[..]) == Exp(a, Doubled(e, j))
      {
        Square(A, A);
        ExpDouble(a, Doubled(e, j));
      }
    }

    /** The first part of pow250: the pattern of one set bit in ten. */
    method Pattern(result: array<int32>, x: array<int32>) returns (ghost e: nat)
      requires Scratch() && result.Length == A.Length == 10
      requires t2 !in {result, x, A} && A !in {result, x} && result != x
      requires Canon(x[..])
      modifies result, A, t1, t2
      ensures Scratch() && Canon(result[..])
      ensures Fe(result[..]) == Exp(Fe(x[..]), e) && 1023 * e == E250
    {
      hide Exp, Mul, Doubled, Fe, LimbMul;
      ghost var a := Fe(x[..]);
      ExpOne(a);
      ExpDouble(a, 1);
      Square(A, x);
      SquareTimes(9, a, 2);
      DoubledTen(2);
      MulFe(result, A, x);
      ExpNext(a, 1024);
      ghost var n: nat, rounds: nat := 1024, 1;
      e := 1025;
      for i := 0 to 23
        invariant Scratch() && Canon(A[..]) && Canon(result[..])
        invariant Fe(A[..]) == Exp(a, n) && Fe(result[..]) == Exp(a, e)
        invariant rounds == i + 1 && n == Pow(1024, rounds) && 1023 * e == 1024 * n - 1
      {
        SquareTimes(10, a, n);
        DoubledTen(n);
        n, rounds := 1024 * n, rounds + 1;
        MulFe(result, result, A);
        ExpAdd(a, e, n);
        e := e + n;
      }
      PatternExponent(n, e, rounds);
    }

    /** x to the power 2^250 - 1. */
    method Pow250(result: array<int32>, x: array<int32>)
      requires Scratch() && result.Length == A.Length == 10
      requires t2 !in {result, x, A} && A !in {result, x} && result != x
      requires Canon(x[..])
      modifies result, A, t1, t2
      ensures Scratch() && Canon(result[..])
      ensures Fe(result[..]) == Exp(Fe(x[..]), E250)
    {
      hide Exp, Mul, Fe, Limbs, LimbMul;
      ghost var a := Fe(x[..]);
      ghost var e := Pattern(result, x);
      Square(A, result);
      ExpDouble(a, e);
      MulFe(result, result, A);
      ExpAdd(a, e, 2 * e);
      ghost var n: nat, m: nat := 2 * e, 3 * e;
      for j := 0 to 8
        invariant Scratch() && Canon(A[..]) && Canon(result[..])
        invariant Fe(A[..]) == Exp(a, n) && Fe(result[..]) == Exp(a, m)
        invariant n == Doubled(e, j + 1) && m == 2 * n - e
      {
        Square(A, A);
        ExpDouble(a, n);
        n := 2 * n;
        MulFe(result, result, A);
        ExpAdd(a, m, n);
        m := m + n;
      }
      DoubledTen(e);
    }

    /** x to the power P - 2. */
    method Recip(result: array<int32>, x: array<int32>)
      requires Scratch() && result.Length == A.Length == 10
      requires t2 !in {result, x, A} && A !in {result, x} && result != x
      requires Canon(x[..])
      modifies result, A, t1, t2
      ensures Scratch() && Canon(result[..])
      ensures Fe(result[..]) == Exp(Fe(x[..]), P - 2)
    {
      ghost var a, e := Fe(x[..]), E250;
      Pow250(result, x);
      Square(result, result);
      Square(result, result);
      MulFe(result, result, x);
      ExpDouble(a, e);
      ExpDouble(a, 2 * e);
      ExpNext(a, 4 * e);
      Square(result, result);
      Square(result, result);
      MulFe(result, result, x);
      ExpDouble(a, 4 * e + 1);
      ExpDouble(a, 8 * e + 2);
      ExpNext(a, 16 * e + 4);
      Square(result, result);
      MulFe(result, result, x);
      ExpDouble(a, 16 * e + 5);
      ExpNext(a, 32 * e + 10);
    }

    ghost function Now(): Points
      reads x_2, z_2, x_3, z_3
    {
      Points(Fe(x_2[..]), Fe(z_2[..]), Fe(x_3[..]), Fe(z_3[..]))
    }

    ghost predicate Ready()
      reads this, t1, x_1, x_2, z_2, x_3, z_3
    {
      Valid() && Limbs(x_1[..]) && Limbs(x_2[..]) && Limbs(z_2[..]) && Limbs(x_3[..]) && Limbs(z_3[..])
    }

    method SwapPoints(swap: int32)
      requires Ready() && (swap == 0 || swap == 1)
      modifies x_2, z_2, x_3, z_3
      ensures Ready() && Now() == old(Swap(Now(), swap == 1)) && x_1[..] == old(x_1[..])
    {
      CSwap(swap, x_2, x_3);
      CSwap(swap, z_2, z_3);
    }

    /** One iteration of the loop in evalCurve: the ladder step of RFC 7748 once all
        numbers are canonical. */
    method Iterate(swap: int32, select: int32)
      requires Ready() && (swap == 0 || swap == 1) && (select == 0 || select == 1)
      modifies x_2, z_2, x_3, z_3, A, AA, B_, BB, C, CB, D, DA, E, t1, t2
      ensures Ready() && CanonicalPoints(Now()) && x_1[..] == old(x_1[..])
      ensures Now() == old(LimbStep(Fe(x_1[..]), Swap(Now(), (swap == 1) != (select == 1))))
      ensures old(Canonical(Fe(x_1[..])) && CanonicalPoints(Now())) ==>
        Now() == old(LadderStep(Fe(x_1[..]), Swap(Now(), (swap == 1) != (select == 1))))
    {
      hide LimbStep, LadderStep, Fe;
      ghost var u, p := Fe(x_1[..]), Swap(Now(), (swap == 1) != (select == 1));
      SwapPoints(if swap == select then 0 else 1);
      Step();
      StepCanonical(u, p);
      if Canonical(u) && CanonicalPoints(p) {
        StepIsLadderStep(u, p);
      }
    }

    /** The ladder over the bits 254 .. 0 of the clamped key. */
    method EvalCurve(s: array<int8>)
      requires Ready() && s.Length == 32
      requires Now() == Points(1, 0, Fe(x_1[..]), 1)
      modifies x_2, z_2, x_3, z_3, A, AA, B_, BB, C, CB, D, DA, E, t1, t2
      ensures Ready() && x_1[..] == old(x_1[..])
      ensures Canon(x_2[..]) && Canon(z_2[..])
      ensures var last := LimbLadder(Fe(x_1[..]), DecodeScalar(SignedOctets(s[..])), 0);
              Now() == Swap(last.points, last.swap)
      ensures Canonical(Fe(x_1[..])) ==>
        var last := Ladder(Fe(x_1[..]), DecodeScalar(SignedOctets(s[..])), 0);
        Now() == Swap(last.points, last.swap)
    {
      hide LimbStep, LadderStep, Clamp, DecodeScalar, Bit, Fe, Limbs, Apart, Sized, Scratch;
      ghost var u, key := Fe(x_1[..]), SignedOctets(s[..]);
      ghost var k := DecodeScalar(key);
      var sposn, sbit, swap: int32 := 31, 6, 0;
      var svalue := OrBit6(s[31]);
      ClampedTop(s[31], svalue, key);
      while true
        invariant Ready() && x_1[..] == old(x_1[..])
        invariant 0 <= sposn <= 31 && 0 <= sbit <= 7 && (sposn == 31 ==> sbit <= 6)
        invariant ByteOf(key, sposn, svalue)
        invariant swap == 0 || swap == 1
        invariant LimbLadder(u, k, 8 * sposn + sbit + 1) == Deferred(Now(), swap == 1)
        decreases sposn, sbit
      {
        var select := BitOf(svalue, sbit);
        KeyBit(key, sposn, svalue, sbit);
        Iterate(swap, select);
        swap := select;
        assert LimbLadder(u, k, 8 * sposn + sbit) == Deferred(Now(), swap == 1);
        if sbit > 0 {
          sbit := sbit - 1;
        } else if sposn == 0 {
          break;
        } else if sposn == 1 {
          sposn := sposn - 1;
          svalue := AndF8(s[sposn]);
          ClampedBottom(s[0], svalue, key);
          sbit := 7;
        } else {
          sposn := sposn - 1;
          svalue := s[sposn] as int32;
          ClampedMiddle(sposn, key);
          sbit := 7;
        }
      }
      SwapPoints(swap);
      if Canonical(u) {
        LadderOnCanonical(u, k, 0);
      }
    }

    /** x := v, as Arrays.fill followed by an assignment to limb 0. */
    static method SetSmall(x: array<int32>, v: int32)
      requires x.Length == 10 && 0 <= v < 10
      modifies x
      ensures Canon(x[..]) && Fe(x[..]) == v as int
    {
      SetZero(x);
      x[0] := v;
      SmallValue(x[..], v);
    }

    static method Copy(source: array<int32>, target: array<int32>)
      requires source.Length == target.Length == 10 && source != target
      modifies target
      ensures target[..] == source[..]
    {
      for index := 0 to 10
        invariant forall k :: 0 <= k < index ==> target[k] == source[k]
      {
        target[index] := source[index];
      }
    }

    /** `x |= value << bit`; what is shifted beyond 32 bits is lost. */
    static method OrShifted(x: int32, value: int32, bit: nat) returns (r: int32)
      requires bit <= 25 && 0 <= x as int < Pow(2, bit) && 0 <= value < 256
      ensures r as int % 0x1_0000_0000 == (x as int + value as int * Pow(2, bit)) % 0x1_0000_0000
    {
      hide Pow, Or;
      var shifted := Wrap32(value as int * Pow(2, bit));
      ShiftedZeros(value as int, bit);
      OrOfParts(shifted as int, x as int, bit);
      WordSizes();
      r := Or(x as int, shifted as int, 31) as int32;
      SumWord(x as int, shifted as int, value as int * Pow(2, bit));
    }

    /** The body of the loop that reads a public key. */
    method UnpackByte(value: int32, index: nat, ghost key: Bytes)
      requires Sized() && index < 32 && |key| == 32 && value as int == key[index]
      requires Unpacked(Ints(x_1[..]), key, index)
      modifies x_1
      ensures Unpacked(Ints(x_1[..]), key, index + 1)
    {
      hide Unpacked, Pow, Or;
      var bit, word := 8 * index % 26, 8 * index / 26;
      ghost var s := Ints(x_1[..]);
      UnpackedRoom(s, key, index, word, bit);
      var r := OrShifted(x_1[word], value, bit);
      if bit <= 18 {
        ByteRoom(s[word], key[index], bit);
        ExactWord(r as int, s[word] + key[index] * Pow(2, bit));
        UnpackWithin(s, key, index, word, bit);
        PutLimb(word, r, s);
      } else {
        LowLimb(r as int, s[word] + key[index] * Pow(2, bit));
        UnpackAcross(s, key, index, word, bit);
        HighBits(value as int, bit);
        PutAcross(word, r, value, bit, s);
      }
    }

    method PutLimb(word: nat, r: int32, ghost s: seq<int>)
      requires Sized() && word < 10 && s == Ints(x_1[..])
      modifies x_1
      ensures Ints(x_1[..]) == s[word := r as int]
    {
      x_1[word] := r;
    }

    /** Its case of a byte in two limbs. */
    method PutAcross(word: nat, r: int32, value: int32, bit: nat, ghost s: seq<int>)
      requires Sized() && word < 9 && 18 < bit < 26 && 0 <= value < 256 && s == Ints(x_1[..]) && s[word + 1] == 0
      requires Fits(value as int / Pow(2, 26 - bit), 31)
      requires Fits(0, 31) && Or(0, value as int / Pow(2, 26 - bit), 31) == value as int / Pow(2, 26 - bit) < 256
      modifies x_1
      ensures Ints(x_1[..]) == s[word := r as int % B][word + 1 := value as int / Pow(2, 26 - bit)]
    {
      hide Or, Pow;
      x_1[word] := r % RADIX;
      x_1[word + 1] := Or(x_1[word + 1] as int, value as int / Pow(2, 26 - bit), 31) as int32;
    }

    /** The loop of eval that reads a public key into x_1, which is zero. */
    method Unpack(publicKey: array<int8>)
      requires Sized() && publicKey.Length == 32 && forall k :: 0 <= k < 10 ==> x_1[k] == 0
      modifies x_1
      ensures Limbs(x_1[..]) && Unpacked(Ints(x_1[..]), SignedOctets(publicKey[..]), 32)
    {
      hide Unpacked, Pow;
      ghost var key := SignedOctets(publicKey[..]);
      UnpackedStart(Ints(x_1[..]), key);
      for index := 0 to 32
        invariant Unpacked(Ints(x_1[..]), key, index)
      {
        UnpackByte((publicKey[index] as int % 256) as int32, index, key);
      }
      UnpackedLimbs(x_1[..], key, 32);
    }

    /** The initialisation in eval once x_1 is set. */
    method Start()
      requires Valid() && Limbs(x_1[..])
      modifies x_2, z_2, x_3, z_3
      ensures Ready() && x_1[..] == old(x_1[..]) && Now() == Points(1, 0, Fe(x_1[..]), 1)
    {
      hide Fe, Canon;
      SetSmall(x_2, 1);
      SetSmall(z_2, 0);
      Copy(x_1, x_3);
      SetSmall(z_3, 1);
    }

    /** x_2 as 32 bytes, little-endian. */
    method Store(result: array<int8>, offset: nat)
      requires Sized() && Canon(x_2[..]) && offset + 32 <= result.Length
      modifies result
      ensures SignedOctets(result[offset..offset + 32]) == Encode(Fe(x_2[..]))
      ensures result[..offset] == old(result[..offset]) && result[offset + 32..] == old(result[offset + 32..])
    {
      ghost var s, n := Ints(x_2[..]), Fe(x_2[..]);
      hide Fe, Encode, Pow;
      for index := 0 to 32
        invariant forall k :: 0 <= k < index ==> result[offset + k] as int % 256 == Encode(n)[k]
        invariant result[..offset] == old(result[..offset]) && result[offset + 32..] == old(result[offset + 32..])
      {
        LimbByte(s, index);
        var bit, word := 8 * index % 26, 8 * index / 26;
        if bit <= 18 {
          result[offset + index] := ShiftedByte(x_2[word], bit);
        } else {
          result[offset + index] := StraddlingByte(x_2[word], x_2[word + 1], bit);
        }
      }
    }

    /** `(byte) (x >> bit)` */
    static method ShiftedByte(x: int32, bit: nat) returns (r: int8)
      requires 0 <= x
      ensures r as int % 256 == x as int / Pow(2, bit) % 256
    {
      LowByteOfWord(x as int / Pow(2, bit));
      r := ToByte(Wrap32(x as int / Pow(2, bit)));
    }

    /** `(byte) ((x >> bit) | (y << (26 - bit)))`: the shift wraps to 32 bits, and
        the two words share no bits, so the or is a sum. */
    static method StraddlingByte(x: int32, y: int32, bit: nat) returns (r: int8)
      requires 0 <= x < RADIX && bit <= 26
      ensures r as int % 256 == (x as int / Pow(2, bit) + y as int * Pow(2, 26 - bit)) % 256
    {
      hide Or, Pow;
      PowUpTo26(26 - bit);
      var low, high := x as int / Pow(2, bit), Wrap32(y as int * Pow(2, 26 - bit)) as int;
      ShiftedZeros(y as int, 26 - bit);
      LimbTop(x as int, bit);
      OrOfParts(high, low, 26 - bit);
      WordSizes();
      r := ToByte(Or(high, low, 31) as int32);
      SumByte(low, high, y as int * Pow(2, 26 - bit));
    }

    /** eval once x_1 is set: the ladder, the inversion and the bytes. */
    method Derive(result: array<int8>, offset: nat, privateKey: array<int8>)
      requires Valid() && Limbs(x_1[..]) && privateKey.Length == 32 && offset + 32 <= result.Length
      modifies x_2, z_2, x_3, z_3, A, AA, B_, BB, C, CB, D, DA, E, t1, t2, result
      ensures SignedOctets(result[offset..offset + 32])
           == Encode(LimbScalarMult(DecodeScalar(SignedOctets(old(privateKey[..]))), old(Fe(x_1[..]))))
      ensures result[..offset] == old(result[..offset]) && result[offset + 32..] == old(result[offset + 32..])
    {
      hide Fe, Encode, LimbLadder, LimbMul, Mul, Exp, DecodeScalar;
      Start();
      EvalCurve(privateKey);
      Recip(z_3, z_2);
      MulFe(x_2, x_2, z_3);
      Store(result, offset);
    }

    /** eval with no public key: the public key of a private key. */
    static method Eval(result: array<int8>, offset: nat, privateKey: array<int8>)
      requires privateKey.Length == 32 && offset + 32 <= result.Length
      modifies result
      ensures SignedOctets(result[offset..offset + 32]) == PublicKey(SignedOctets(old(privateKey[..])))
      ensures result[..offset] == old(result[..offset]) && result[offset + 32..] == old(result[offset + 32..])
    {
      hide Fe, Encode, ScalarMult, LimbScalarMult, DecodeScalar;
      var state := new Curve25519();
      SetSmall(state.x_1, 9);
      ScalarMultOnCanonical(DecodeScalar(SignedOctets(privateKey[..])), 9);
      state.Derive(result, offset, privateKey);
    }

    /** eval with a public key.  All its 256 bits count, reduced mod P; RFC 7748
        ignores the highest.  The nineteen greatest keys are not reduced. */
    static method EvalAt(result: array<int8>, offset: nat, privateKey: array<int8>, publicKey: array<int8>)
      requires privateKey.Length == publicKey.Length == 32 && offset + 32 <= result.Length
      modifies result
      ensures var k := DecodeScalar(SignedOctets(old(privateKey[..])));
              var v := Val(256, SignedOctets(old(publicKey[..])));
              var bytes := SignedOctets(result[offset..offset + 32]);
              && (v < 2 * TWO255 - 19 ==> bytes == Encode(ScalarMult(k, v % P)))
              && (v >= 2 * TWO255 - 19 ==> bytes == Encode(LimbScalarMult(k, v)))
      ensures result[..offset] == old(result[..offset]) && result[offset + 32..] == old(result[offset + 32..])
    {
      hide Fe, Encode, ScalarMult, LimbScalarMult, DecodeScalar, Val;
      ghost var k, v := DecodeScalar(SignedOctets(privateKey[..])), Val(256, SignedOctets(publicKey[..]));
      var state := new Curve25519();
      state.Decode(publicKey);
      ScalarMultOnCanonical(k, v % P);
      state.Derive(result, offset, privateKey);
    }

    /** The public key in x_1, for every key: reduced mod P exactly below
        2^256 - 19. */
    method Decode(publicKey: array<int8>)
      requires Valid() && publicKey.Length == 32
      modifies x_1, t2
      ensures Valid() && Limbs(x_1[..])
      ensures var v := Val(256, SignedOctets(publicKey[..]));
              && 0 <= v < 2 * TWO255
              && Fe(x_1[..]) == (if v < 2 * TWO255 - 19 then v % P else v)
              && (Canon(x_1[..]) <==> v < 2 * TWO255 - 19)
    {
      hide Unpacked, Val;
      SetZero(x_1);
      Unpack(publicKey);
      ghost var v := Val(256, SignedOctets(publicKey[..]));
      UnpackedBound(Ints(x_1[..]), SignedOctets(publicKey[..]));
      TwoTrialsCanonical(v);
      ReduceQuick(x_1);
      ReduceQuick(x_1);
    }

    /** Arrays.fill(x, 0). */
    static method SetZero(x: array<int32>)
      requires x.Length == 10
      modifies x
      ensures forall k :: 0 <= k < 10 ==> x[k] == 0
    {
      for index := 0 to 10
        invariant forall k :: 0 <= k < index ==> x[k] == 0
      {
        x[index] := 0;
      }
    }
  }

  /** The u-coordinate of RFC 7748 leaves the highest bit out, so eval agrees with
      it exactly on the keys where that bit is clear. */
  lemma TopBitMatters(v: int)
    requires 0 <= v < 2 * TWO255
    ensures v % P == v % TWO255 % P <==> v < TWO255
  {
    if v >= TWO255 {
      var w := v - TWO255;
      assert v % TWO255 == w;
      assert w < P - 19 ==> w % P == w && v % P == w + 19;
      assert P - 19 <= w < P ==> w % P == w && v % P == w + 19 - P;
      assert w >= P ==> w % P == w - P && v % P == w - P + 19;
    }
  }

  /** For each of the nineteen greatest public keys the first pass, whatever the
      private key, already leaves the point that RFC 7748 has there. */
  lemma WidePublicKeys(key: Bytes, v: int)
    requires |key| == 32 && 2 * TWO255 - 19 <= v < 2 * TWO255
    ensures var k := DecodeScalar(key);
            var p, q := LimbLadder(v, k, 254).points, Ladder(v % P, k, 254).points;
            Mul(p.x2, q.z2) != Mul(q.x2, p.z2)
  {
    hide DecodeScalar, Bit, Mul, LimbLadder, Ladder;
    var top := (if key[31] < 128 then key[31] else key[31] - 256) as int8;
    ClampedTop(top, OrBit6(top), key);
    KeyBit(key, 31, OrBit6(top), 6);
    WideKeyLeaves(v, DecodeScalar(key));
  }
}
