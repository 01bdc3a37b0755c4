/** wg_generate_public_key of the embeddable library: the same public key from
    signed 16-bit limbs, with each swap undone at once. */
module WireguardKey {
  import opened MachineInts
  import opened Radix
  import opened Field25519
  import opened X25519
  import opened Fe16
  import opened LittleEndianBits

  method Carry(o: array<int64>) returns (ghost d: seq<int>, ghost c: seq<int>)
    requires o.Length == 16
    requires forall i :: 0 <= i < 16 ==> -0x1000_0000_0000 <= o[i] <= 0x1000_0000_0000
    modifies o
    ensures Carried(old(o[..]), o[..], d, c)
  {
    ghost var a := o[..];
    d, c := [], [0];
    for i := 0 to 15
      invariant |d| == i && |c| == i + 1 && c[0] == 0
      invariant -0x2000_0000 <= c[i] <= 0x2000_0000
      invariant forall k :: 0 <= k < i ==> o[k] as int == d[k] && 0 <= d[k] < B16
      invariant o[i] as int == a[i] as int + c[i]
      invariant forall k :: i < k < 16 ==> o[k] == a[k]
      invariant forall k :: 0 <= k < i ==> c[k] + a[k] as int == d[k] + B16 * c[k + 1]
    {
      o[i + 1] := o[i + 1] + 1 * (o[i] / 0x1_0000);
      c := c + [o[i] as int / B16];
      o[i] := o[i] % 0x1_0000;
      d := d + [o[i] as int];
    }
    o[0] := o[0] + 38 * (o[15] / 0x1_0000);
    c := c + [o[15] as int / B16];
    o[15] := o[15] % 0x1_0000;
    d := d + [o[15] as int];
  }

  method AddFe(o: array<int64>, a: array<int64>, b: array<int64>)
    requires o.Length == 16 && Tight(a[..]) && Tight(b[..])
    modifies o
    ensures Loose(o[..]) && Elem(o[..]) == old(Add(Elem(a[..]), Elem(b[..])))
  {
    for i := 0 to 16
      invariant forall k :: 0 <= k < i ==> o[k] == old(a[k]) + old(b[k])
      invariant forall k :: i <= k < 16 ==> a[k] == old(a[k]) && b[k] == old(b[k])
    {
      o[i] := a[i] + b[i];
    }
    SumValue(old(a[..]), old(b[..]), o[..], 1);
  }

  method Subtract(o: array<int64>, a: array<int64>, b: array<int64>)
    requires o.Length == 16 && Tight(a[..]) && Tight(b[..])
    modifies o
    ensures Loose(o[..]) && Elem(o[..]) == old(Sub(Elem(a[..]), Elem(b[..])))
  {
    for i := 0 to 16
      invariant forall k :: 0 <= k < i ==> o[k] == old(a[k]) - old(b[k])
      invariant forall k :: i <= k < 16 ==> a[k] == old(a[k]) && b[k] == old(b[k])
    {
      o[i] := a[i] - b[i];
    }
    SumValue(old(a[..]), old(b[..]), o[..], -1);
  }

  const SQUARE: int := 131146 * 131146

  method LimbProduct(a: int64, b: int64) returns (r: int64)
    requires -131146 <= a <= 131146 && -131146 <= b <= 131146
    ensures r as int == a as int * b as int && -SQUARE <= r as int <= SQUARE
  {
    ProductBound(a as int, b as int, 131146);
    r := a * b;
  }

  /** One row of the product loops of multmod. */
  method AddRow(t: array<int64>, a: array<int64>, b: array<int64>, i: int)
    requires t.Length == 31 && t !in {a, b} && Loose(a[..]) && Loose(b[..]) && 0 <= i < 16
    requires Longs(t[..]) == Columns(Longs(a[..]), Longs(b[..]), i, 31)
    modifies t
    ensures Longs(t[..]) == Columns(Longs(a[..]), Longs(b[..]), i + 1, 31)
  {
    ghost var xs, ys := Longs(a[..]), Longs(b[..]);
    ghost var before, row := Columns(xs, ys, i, 31), ScaledRow(xs[i], ys, i, 31);
    hide Columns, ScaledRow;
    RowAdds(xs, ys, i, 31);
    ColumnsBound(xs, ys, i);
    for j := 0 to 16
      invariant forall k :: 0 <= k < 31 ==> t[k] as int == before[k] + if k < i + j then row[k] else 0
    {
      var product := LimbProduct(a[i], b[j]);
      ScaledRowAt(xs[i], ys, i, 31, j);
      t[i + j] := t[i + j] + product;
    }
  }

  method Multiply(a: array<int64>, b: array<int64>) returns (t: array<int64>)
    requires Loose(a[..]) && Loose(b[..])
    ensures fresh(t) && t.Length == 31
    ensures Longs(t[..]) == Columns(Longs(a[..]), Longs(b[..]), 16, 31)
  {
    t := new int64[31](_ => 0);
    for i := 0 to 16
      invariant Longs(t[..]) == Columns(Longs(a[..]), Longs(b[..]), i, 31)
    {
      AddRow(t, a, b, i);
    }
  }

  method FoldProduct(o: array<int64>, t: array<int64>)
    requires o.Length == 16 && t.Length == 31 && o != t
    requires forall k :: 0 <= k < 31 ==> -16 * SQUARE <= t[k] as int <= 16 * SQUARE
    modifies o, t
    ensures forall k :: 0 <= k < 16 ==>
      o[k] as int == old(t[k]) as int + if k < 15 then 38 * old(t[k + 16]) as int else 0
  {
    for i := 0 to 15
      invariant forall k :: 0 <= k < i ==> t[k] as int == old(t[k]) as int + 38 * old(t[k + 16]) as int
      invariant forall k :: i <= k < 31 ==> t[k] == old(t[k])
    {
      t[i] := t[i] + 38 * t[i + 16];
    }
    for i := 0 to 16
      invariant forall k :: 0 <= k < i ==> o[k] == t[k]
      invariant forall k :: 0 <= k < 15 ==> t[k] as int == old(t[k]) as int + 38 * old(t[k + 16]) as int
      invariant t[15] == old(t[15])
    {
      o[i] := t[i];
    }
  }

  method CarryTwice(o: array<int64>)
    requires o.Length == 16
    requires forall i :: 0 <= i < 16 ==> -0x1000_0000_0000 <= o[i] <= 0x1000_0000_0000
    modifies o
    ensures Tight(o[..]) && Elem(o[..]) == old(Elem(o[..]))
  {
    ghost var a := o[..];
    var d, c := Carry(o);
    ghost var b := o[..];
    CarryValue(a, b, d, c);
    CarryBound(a, d, c, 0x1000_0000, 16);
    var e, f := Carry(o);
    CarryValue(b, o[..], e, f);
    SecondCarry(b, e, f, 16);
  }

  method Multmod(o: array<int64>, a: array<int64>, b: array<int64>)
    requires o.Length == 16 && Loose(a[..]) && Loose(b[..])
    modifies o
    ensures Tight(o[..]) && Elem(o[..]) == old(Mul(Elem(a[..]), Elem(b[..])))
  {
    ghost var xs, ys := a[..], b[..];
    var t := Multiply(a, b);
    ghost var ts := t[..];
    ColumnsBound(Longs(xs), Longs(ys), 16);
    hide Columns;
    FoldProduct(o, t);
    FoldedProduct(xs, ys, ts, o[..]);
    CarryTwice(o);
  }

  method CSwap(p: array<int64>, q: array<int64>, b: int)
    requires p.Length == q.Length == 16 && p != q && (b == 0 || b == 1)
    modifies p, q
    ensures p[..] == if b == 1 then old(q[..]) else old(p[..])
    ensures q[..] == if b == 1 then old(p[..]) else old(q[..])
  {
    hide Xor64;
    var c: int64 := -1 - (b - 1) as int64;
    for i := 0 to 16
      invariant forall k :: 0 <= k < i ==> p[k] == if b == 1 then old(q[k]) else old(p[k])
      invariant forall k :: 0 <= k < i ==> q[k] == if b == 1 then old(p[k]) else old(q[k])
      invariant forall k :: i <= k < 16 ==> p[k] == old(p[k]) && q[k] == old(q[k])
    {
      Xor64Cancels(p[i], q[i]);
      Xor64Cancels(q[i], p[i]);
      var t := if c == 0 then 0 else Xor64(p[i], q[i]);
      p[i] := Xor64(p[i], t);
      q[i] := Xor64(q[i], t);
    }
  }

  method Copy(o: array<int64>, a: array<int64>)
    requires o.Length == a.Length == 16 && o != a
    modifies o
    ensures o[..] == a[..]
  {
    for i := 0 to 16
      invariant forall k :: 0 <= k < i ==> o[k] == a[k]
    {
      o[i] := a[i];
    }
  }

  method Clone(a: array<int64>) returns (o: array<int64>)
    requires a.Length == 16
    ensures fresh(o) && o[..] == a[..]
  {
    o := new int64[16];
    Copy(o, a);
  }

  /** i to the power P - 2; the multiplication is skipped at bits 2 and 4. */
  method Invert(o: array<int64>, i: array<int64>)
    requires o.Length == 16 && Tight(i[..])
    modifies o
    ensures Tight(o[..]) && Elem(o[..]) == Exp(old(Elem(i[..])), P - 2)
  {
    hide Elem, Exp, Mul;
    ghost var v := Elem(i[..]);
    assert 0 <= v < P by { ElemRange(i[..]); }
    ExpOne(v);
    var c := Clone(i);
    var a := 253;
    while a >= 0
      invariant -1 <= a <= 253
      invariant i[..] == old(i[..]) && Tight(c[..])
      invariant Elem(c[..]) == Exp(v, InverseExponent(253 - a))
      decreases a
    {
      ghost var e := InverseExponent(253 - a);
      Multmod(c, c, c);
      ExpDouble(v, e);
      if a != 2 && a != 4 {
        Multmod(c, c, i);
        ExpNext(v, 2 * e);
      }
      a := a - 1;
    }
    InverseExponentIsPMinusTwo(254);
    Copy(o, c);
  }

  method CarryThrice(t: array<int64>)
    requires Tight(t[..])
    modifies t
    ensures Proper(t[..]) && Elem(t[..]) == old(Elem(t[..]))
  {
    hide Elem;
    for n := 0 to 3
      invariant Tight(t[..]) && Elem(t[..]) == old(Elem(t[..]))
      invariant n > 0 ==> Proper(t[..])
    {
      ghost var a := t[..];
      var d, c := Carry(t);
      CarryValue(a, t[..], d, c);
      TightCarries(a, t[..], d, c);
    }
  }

  /** The subtraction m := t - P inside pack. */
  method Difference(t: array<int64>, m: array<int64>) returns (ghost c: seq<int>)
    requires Proper(t[..]) && m.Length == 16 && m != t
    modifies m
    ensures |c| == 17 && c[0] == 0 && c[16] == 0
    ensures Chain(B16, Comb(-1, PLimbs(), Longs(t[..])), Longs(m[..]), c)
    ensures forall i :: 0 <= i < 15 ==> 0 <= m[i] <= 65535
    ensures -0x8000 <= m[15] <= 0x8000
  {
    hide PLimbs;
    ghost var p := PLimbs();
    m[0] := t[0] - 0xffed;
    c := [0];
    for i := 1 to 15
      invariant |c| == i && c[0] == 0 && c[i - 1] <= 0
      invariant -0x1_0000 <= m[i - 1] <= 0xffff
      invariant forall k :: 0 <= k < i - 1 ==> 0 <= m[k] <= 65535
      invariant forall k :: 0 <= k < i - 1 ==> c[k] + (t[k] as int - p[k]) == m[k] as int + B16 * c[k + 1]
      invariant c[i - 1] + (t[i - 1] as int - p[i - 1]) == m[i - 1] as int
    {
      var low, borrow := SplitBorrow(m[i - 1]);
      m[i] := t[i] - 0xffff - borrow;
      m[i - 1] := low;
      c := c + [-(borrow as int)];
    }
    var low, borrow := SplitBorrow(m[14]);
    m[15] := t[15] - 0x7fff - borrow;
    m[14] := low;
    c := c + [-(borrow as int), 0];
  }

  /** `x & 0xffff` and `(x >> 16) & 1` of a difference of two limbs. */
  method SplitBorrow(x: int64) returns (low: int64, borrow: int64)
    requires -0x1_0000 <= x <= 0xffff
    ensures 0 <= low <= 65535 && 0 <= borrow <= 1
    ensures x == low - 0x1_0000 * borrow
  {
    low, borrow := x % 0x1_0000, x / 0x1_0000 % 2;
  }

  method Pack(o: array<uint8>, n: array<int64>)
    requires o.Length == 32 && Tight(n[..])
    modifies o
    ensures Elem(n[..]) >= 0 && Octets(o[..]) == Encode(Elem(n[..]))
  {
    hide Elem, Encode, Raw;
    var m := new int64[16];
    var t := Clone(n);
    CarryThrice(t);
    TwiceReduced(t[..]);
    Reduce(t, m);
    Reduce(t, m);
    Emit(o, t);
  }

  method Emit(o: array<uint8>, t: array<int64>)
    requires o.Length == 32 && Proper(t[..])
    modifies o
    ensures Raw(t[..]) >= 0 && Octets(o[..]) == Encode(Raw(t[..]))
  {
    hide Raw, Encode;
    ghost var limbs := t[..];
    for i := 0 to 16
      invariant forall k :: 0 <= k < i ==>
        o[2 * k] as int == limbs[k] as int % 256 && o[2 * k + 1] as int == limbs[k] as int / 256
    {
      assert 0 <= t[i] <= 65535;
      o[2 * i] := (t[i] % 256) as uint8;
      o[2 * i + 1] := (t[i] / 256) as uint8;
    }
    PackedBytes(limbs, Octets(o[..]));
  }

  /** One pass of the conditional subtraction in pack. */
  method Reduce(t: array<int64>, m: array<int64>)
    requires Proper(t[..]) && m.Length == 16 && m != t
    modifies t, m
    ensures Proper(t[..])
    ensures Raw(t[..]) == TrialOnce(old(Raw(t[..])))
  {
    hide Raw;
    ghost var c := Difference(t, m);
    TrialValue(t[..], m[..], c);
    var b := (m[15] / 0x1_0000 % 2) as int;
    CSwap(t, m, 1 - b);
  }

  ghost predicate Six(a: array<int64>, b: array<int64>, c: array<int64>,
                      d: array<int64>, e: array<int64>, f: array<int64>)
  {
    && a.Length == b.Length == c.Length == d.Length == e.Length == f.Length == 16
    && a !in {b, c, d, e, f} && b !in {c, d, e, f} && c !in {d, e, f} && d !in {e, f} && e != f
  }

  ghost predicate AllTight(a: array<int64>, b: array<int64>, c: array<int64>, d: array<int64>)
    reads a, b, c, d
  {
    Tight(a[..]) && Tight(b[..]) && Tight(c[..]) && Tight(d[..])
  }

  ghost function Now(a: array<int64>, b: array<int64>, c: array<int64>, d: array<int64>): Points
    reads a, b, c, d
  {
    Points(Elem(a[..]), Elem(c[..]), Elem(b[..]), Elem(d[..]))
  }

  ghost predicate Constants(a24: array<int64>, nine: array<int64>)
    reads a24, nine
  {
    Loose(a24[..]) && Elem(a24[..]) == 121665 && Loose(nine[..]) && Elem(nine[..]) == 9
  }

  method Step(a: array<int64>, b: array<int64>, c: array<int64>, d: array<int64>, e: array<int64>, f: array<int64>,
              a24: array<int64>, nine: array<int64>)
    requires Six(a, b, c, d, e, f) && AllTight(a, b, c, d) && Constants(a24, nine)
    requires {a24, nine} !! {a, b, c, d, e, f}
    modifies a, b, c, d, e, f
    ensures AllTight(a, b, c, d)
    ensures Now(a, b, c, d) == old(LadderStep(9, Now(a, b, c, d)))
  {
    MirroredStepIsLadderStep(Now(a, b, c, d));
    hide Add, Sub, Mul, LadderStep, Elem, Tight, Loose;
    assert forall s :: Tight(s) ==> Loose(s) by { TightIsLoose(); }
    AddFe(e, a, c);
    Subtract(a, a, c);
    AddFe(c, b, d);
    Subtract(b, b, d);
    Multmod(d, e, e);
    Multmod(f, a, a);
    Multmod(a, c, a);
    Multmod(c, b, e);
    AddFe(e, a, c);
    Subtract(a, a, c);
    Multmod(b, a, a);
    Subtract(c, d, f);
    Multmod(a, c, a24);
    AddFe(a, a, d);
    Multmod(c, c, a);
    Multmod(a, d, f);
    Multmod(d, b, nine);
    Multmod(b, e, e);
  }

  method SwapPoints(a: array<int64>, b: array<int64>, c: array<int64>, d: array<int64>, r: int)
    requires a.Length == b.Length == c.Length == d.Length == 16
    requires a !in {b, c, d} && b !in {c, d} && c != d && (r == 0 || r == 1)
    requires AllTight(a, b, c, d)
    modifies a, b, c, d
    ensures AllTight(a, b, c, d) && Now(a, b, c, d) == old(Swap(Now(a, b, c, d), r == 1))
  {
    hide Elem, Tight;
    CSwap(a, b, r);
    CSwap(c, d, r);
  }

  method Small(x: int64, y: int64) returns (o: array<int64>)
    requires 0 <= x <= 65535 && 0 <= y <= 1
    ensures fresh(o) && Tight(o[..]) && Loose(o[..]) && Elem(o[..]) == x as int + 65536 * y as int
  {
    o := new int64[16](_ => 0);
    o[0], o[1] := x, y;
    SmallElem(o[..], x as int, y as int);
  }

  /** clamp_key */
  method ClampKey(z: array<uint8>)
    requires z.Length == 32
    modifies z
    ensures Octets(z[..]) == Clamp(old(Octets(z[..])))
  {
    z[31] := z[31] % 64 + 64;
    z[0] := z[0] - z[0] % 8;
  }

  method Ladder255(a: array<int64>, b: array<int64>, c: array<int64>, d: array<int64>, z: array<uint8>)
    requires a.Length == b.Length == c.Length == d.Length == 16 && z.Length == 32
    requires a !in {b, c, d} && b !in {c, d} && c != d
    requires AllTight(a, b, c, d) && Now(a, b, c, d) == Points(1, 0, 9, 1)
    modifies a, b, c, d
    ensures AllTight(a, b, c, d)
    ensures Val(256, Octets(z[..])) >= 0
    ensures Now(a, b, c, d) == DirectLadder(9, Val(256, Octets(z[..])), 0)
  {
    hide Elem, Tight, Loose, LadderStep, Bit, Val;
    ghost var k := Val(256, Octets(z[..]));
    assert k >= 0 by { ValBound(256, Octets(z[..])); }
    var e, f := new int64[16], new int64[16];
    var a24 := Small(0xdb41, 1);
    var nine := Small(9, 0);
    var i := 254;
    while i >= 0
      invariant -1 <= i <= 254
      invariant AllTight(a, b, c, d) && Constants(a24, nine)
      invariant Now(a, b, c, d) == DirectLadder(9, k, i + 1)
    {
      var r := BitOfByte(z[i / 8], i % 8);
      ScalarBit(Octets(z[..]), i / 8, i % 8);
      SwapPoints(a, b, c, d, r);
      Step(a, b, c, d, e, f, a24, nine);
      SwapPoints(a, b, c, d, r);
      i := i - 1;
    }
  }

  method GeneratePublicKey(publicKey: array<uint8>, privateKey: array<uint8>)
    requires publicKey.Length == privateKey.Length == 32
    modifies publicKey
    ensures Octets(publicKey[..]) == PublicKey(old(Octets(privateKey[..])))
  {
    hide Elem, Tight, Loose, DirectLadder, Clamp, Encode, Exp, Mul, Ladder;
    ghost var key := Octets(privateKey[..]);
    var z := new uint8[32](i requires 0 <= i < 32 reads privateKey => privateKey[i]);
    assert z[..] == privateKey[..];
    ClampKey(z);
    var a := Small(1, 0);
    var b := Small(9, 0);
    var c := Small(0, 0);
    var d := Small(1, 0);
    Ladder255(a, b, c, d, z);
    DeferredSwapIsDirect(9, DecodeScalar(key), 0);
    Invert(c, c);
    assert forall s :: Tight(s) ==> Loose(s) by { TightIsLoose(); }
    Multmod(a, a, c);
    Pack(publicKey, a);
  }
}
