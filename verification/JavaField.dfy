/** What the field operations of Curve25519.java do to the integers their limbs
    stand for.  On canonical numbers they are the operations of the field; on
    larger ones, which nineteen public keys bring in, bits are lost. */
module JavaField {
  import opened Radix
  import opened Field25519
  import opened X25519

  const TWO255: int := P + 19
  const TWO260: int := 32 * TWO255

  /** One trial subtraction of P: bit 255 of v + 19 decides, and what is taken
      instead of v is cut to 255 bits. */
  function TrialResult(v: int): int {
    if (v + 19) / TWO255 % 2 == 1 then (v + 19) % TWO255 else v
  }

  /** One trial subtraction is the remainder by P for numbers below 2P ... */
  lemma TrialIsMod(v: int)
    requires 0 <= v < 2 * P
    ensures TrialResult(v) == v % P
  {
  }

  lemma TrialOf256(v: int)
    requires 0 <= v < 2 * TWO255
    ensures TrialResult(v) == if P <= v < 2 * P + 19 then v - P else v
  {
    var q := if v < P then 0 else if v < 2 * P + 19 then 1 else 2;
    DivUnique(v + 19, TWO255, q, v + 19 - q * TWO255);
  }

  /** ... and two of them give a canonical number exactly below 2^256 - 19: the
      nineteen largest 32-byte numbers come back unreduced. */
  lemma TwoTrialsCanonical(v: int)
    requires 0 <= v < 2 * TWO255
    ensures TrialResult(TrialResult(v)) < P <==> v < 2 * TWO255 - 19
    ensures v < 2 * TWO255 - 19 ==> TrialResult(TrialResult(v)) == v % P
    ensures v >= 2 * TWO255 - 19 ==> TrialResult(TrialResult(v)) == v
  {
    hide TrialResult;
    TrialOf256(v);
    TrialOf256(TrialResult(v));
    if v < P {
      assert v % P == v;
    } else if v < 2 * P {
      assert v % P == v - P;
    } else {
      assert v % P == v - 2 * P;
    }
  }

  /** add: ten limbs of sum, the carry out of them dropped, and a trial. */
  function LimbAdd(a: int, b: int): int { TrialResult((a + b) % TWO260) }

  /** sub: 19 taken off after a borrow, and the result cut to 255 bits. */
  function LimbSub(a: int, b: int): (r: int) {
    (if a >= b then a - b else a - b - 19) % TWO255
  }

  /** The first fold of reduce before it is cut to ten limbs. */
  function Unfolded(w: int): int { w % TWO255 + 19 * (w / TWO255) }

  /** reduce: the fold cut to ten limbs, and its residue. */
  function Folded(w: int): (r: int)
    ensures 0 <= r < P
  {
    Unfolded(w) % TWO260 % P
  }

  function LimbMul(a: int, b: int): (r: int)
    ensures 0 <= r < P
  {
    Folded(a * b)
  }

  lemma UnfoldedCongruent(w: int)
    ensures Unfolded(w) % P == w % P
  {
    assert w == P * (w / TWO255) + Unfolded(w);
    ModShift(w / TWO255, Unfolded(w));
  }

  lemma NotCongruent(r: int, d: int)
    requires 0 < d < P
    ensures (r + d) % P != r % P
  {
    var q, s := r / P, r % P;
    ModShift(q, s + d);
    assert s + d < P ==> (s + d) % P == s + d;
    assert s + d >= P ==> (s + d) % P == s + d - P;
  }

  /** reduce gives the residue exactly if its first fold fits ten limbs. */
  lemma FoldedExactly(w: int)
    requires 0 <= w < TWO260 * TWO260
    ensures Folded(w) == w % P <==> Unfolded(w) < TWO260
  {
    UnfoldedCongruent(w);
    var y := Unfolded(w);
    var j, r := y / TWO260, y % TWO260;
    assert w / TWO255 <= 32 * TWO260;
    assert 0 <= j < 1000;
    ModShift(32 * j, r + 608 * j);
    assert y == P * (32 * j) + (r + 608 * j);
    if j > 0 {
      NotCongruent(r, 608 * j);
    }
  }

  lemma FoldedIsMod(w: int)
    requires 0 <= w < TWO255 * TWO255
    ensures Folded(w) == w % P
  {
    assert w / TWO255 < TWO255;
    UnfoldedCongruent(w);
  }

  predicate Canonical(a: int) { 0 <= a < P }

  /** On canonical numbers the operations are those of the field. */
  lemma LimbAddIsAdd(a: int, b: int)
    requires Canonical(a) && Canonical(b)
    ensures LimbAdd(a, b) == Add(a, b) && Canonical(Add(a, b))
  {
    TrialIsMod(a + b);
  }

  lemma LimbSubIsSub(a: int, b: int)
    requires Canonical(a) && Canonical(b)
    ensures LimbSub(a, b) == Sub(a, b) && Canonical(Sub(a, b))
  {
    assert a < b ==> (a - b) % P == a - b + P;
  }

  lemma LimbMulIsMul(a: int, b: int)
    requires Canonical(a) && Canonical(b)
    ensures LimbMul(a, b) == Mul(a, b) && Canonical(Mul(a, b))
  {
    MulBelow(a, b, TWO255, TWO255);
    FoldedIsMod(a * b);
  }

  /** One pass of the loop in evalCurve. */
  function LimbStep(u: int, p: Points): Points {
    var a := LimbAdd(p.x2, p.z2);
    var aa := LimbMul(a, a);
    var b := LimbSub(p.x2, p.z2);
    var bb := LimbMul(b, b);
    var e := LimbSub(aa, bb);
    var c := LimbAdd(p.x3, p.z3);
    var d := LimbSub(p.x3, p.z3);
    var da := LimbMul(d, a);
    var cb := LimbMul(c, b);
    var s := LimbAdd(da, cb);
    var t := LimbSub(da, cb);
    Points(LimbMul(aa, bb), LimbMul(LimbAdd(LimbMul(121665, e), aa), e),
           LimbMul(s, s), LimbMul(LimbMul(t, t), u))
  }

  predicate CanonicalPoints(p: Points) {
    Canonical(p.x2) && Canonical(p.z2) && Canonical(p.x3) && Canonical(p.z3)
  }

  lemma StepCanonical(u: int, p: Points)
    ensures CanonicalPoints(LimbStep(u, p))
  {
    hide LimbMul, LimbAdd, LimbSub;
  }

  lemma StepIsLadderStep(u: int, p: Points)
    requires Canonical(u) && CanonicalPoints(p)
    ensures LimbStep(u, p) == LadderStep(u, p)
  {
    assert Canonical(121665);
    hide LimbMul, LimbAdd, LimbSub, Add, Sub, Mul, Canonical;
    var a, b, c, d := Add(p.x2, p.z2), Sub(p.x2, p.z2), Add(p.x3, p.z3), Sub(p.x3, p.z3);
    LimbAddIsAdd(p.x2, p.z2);
    LimbSubIsSub(p.x2, p.z2);
    LimbAddIsAdd(p.x3, p.z3);
    LimbSubIsSub(p.x3, p.z3);
    var aa, bb, da, cb := Mul(a, a), Mul(b, b), Mul(d, a), Mul(c, b);
    LimbMulIsMul(a, a);
    LimbMulIsMul(b, b);
    LimbMulIsMul(d, a);
    LimbMulIsMul(c, b);
    var e, s, t := Sub(aa, bb), Add(da, cb), Sub(da, cb);
    LimbSubIsSub(aa, bb);
    LimbAddIsAdd(da, cb);
    LimbSubIsSub(da, cb);
    LimbMulIsMul(aa, bb);
    LimbMulIsMul(121665, e);
    LimbAddIsAdd(Mul(121665, e), aa);
    LimbMulIsMul(Add(Mul(121665, e), aa), e);
    LimbMulIsMul(s, s);
    LimbMulIsMul(t, t);
    LimbMulIsMul(Mul(t, t), u);
  }

  /** The ladder of evalCurve, in the form of X25519.Ladder. */
  function LimbLadder(u: int, k: nat, t: nat): (r: Deferred)
    requires t <= BITS
    ensures t < BITS ==> CanonicalPoints(r.points)
    decreases BITS - t, k
  {
    if t == BITS then Deferred(Points(1, 0, u, 1), false)
    else
      var before := LimbLadder(u, k, t + 1);
      var bit := Bit(k, t);
      var p := Swap(before.points, before.swap != bit);
      StepCanonical(u, p);
      Deferred(LimbStep(u, p), bit)
  }

  lemma {:induction false} LadderOnCanonical(u: int, k: nat, t: nat)
    requires Canonical(u) && t <= BITS
    ensures LimbLadder(u, k, t) == Ladder(u, k, t)
    ensures CanonicalPoints(Ladder(u, k, t).points)
    decreases BITS - t
  {
    hide LimbStep, LadderStep;
    if t < BITS {
      LadderOnCanonical(u, k, t + 1);
      var before := Ladder(u, k, t + 1);
      StepIsLadderStep(u, Swap(before.points, before.swap != Bit(k, t)));
    }
  }

  /** What eval makes of a scalar and the number in x_1. */
  function LimbScalarMult(k: nat, u: int): (r: int)
    ensures 0 <= r < P
  {
    var last := LimbLadder(u, k, 0);
    var p := Swap(last.points, last.swap);
    Mul(p.x2, Exp(p.z2, P - 2))
  }

  /** The same as RFC 7748 for every canonical number. */
  lemma ScalarMultOnCanonical(k: nat, u: int)
    requires Canonical(u)
    ensures LimbScalarMult(k, u) == ScalarMult(k, u)
  {
    hide LimbLadder, Ladder, Mul, Exp;
    LadderOnCanonical(u, k, 0);
  }

  // ----- the nineteen public keys from 2^256 - 19 on -----

  /** A doubling of the ladder from AA and BB. */
  function DoubledX(aa: int, bb: int): int { Mul(aa, bb) }

  function DoubledZ(aa: int, bb: int): int {
    var e := Sub(aa, bb);
    Mul(Add(Mul(121665, e), aa), e)
  }

  /** The same on integers. */
  function IntegerZ(aa: int, bb: int): int { (121665 * (aa - bb) + aa) * (aa - bb) }

  lemma DoubledResidues(a: int, b: int)
    ensures DoubledX(a % P, b % P) == a * b % P
    ensures DoubledZ(a % P, b % P) == IntegerZ(a, b) % P
  {
    MulMod(a, b);
    AddMod(a, b);
    var e := a - b;
    MulMod(121665, e);
    assert 121665 % P == 121665;
    AddMod(121665 * e, a);
    MulMod(121665 * e + a, e);
  }

  lemma FoldedParts(w: int, high: int, low: int, j: int, q: int, s: int)
    requires w == high * TWO255 + low && 0 <= low < TWO255
    requires low + 19 * high == j * TWO260 + (P * q + s) && 0 <= P * q + s < TWO260
    ensures Folded(w) == s % P
  {
    DivUnique(w, TWO255, high, low);
    DivUnique(Unfolded(w), TWO260, j, P * q + s);
    ModShift(q, s);
  }

  lemma SquareNear(k: int, n: int)
    ensures (k * TWO255 + n) * (k * TWO255 + n) == (k * k * TWO255 + 2 * k * n) * TWO255 + n * n
  {
  }

  /** v + 1 = 2^256 + n squared: the fold is too wide for ten limbs. */
  lemma WideSquare(n: int)
    requires -18 <= n <= 0
    ensures LimbMul(2 * TWO255 + n, 2 * TWO255 + n) == (n * n + 76 * n + 228) % P
  {
    hide Folded;
    SquareNear(2, n);
    MulBelow(-n, -n, 19, 19);
    var a := 2 * TWO255 + n;
    FoldedParts(a * a, 4 * TWO255 + 4 * n, n * n, 2, 12, n * n + 76 * n + 228);
  }

  /** v - 1 = 2^256 + m cut to 255 bits and squared: nothing more is lost. */
  lemma CutSquare(m: int)
    requires -20 <= m < 0
    ensures LimbMul(TWO255 + m, TWO255 + m) == (m + 19) * (m + 19) % P
  {
    hide Folded;
    SquareNear(1, m);
    MulBelow(-m, -m, 21, 21);
    var b := TWO255 + m;
    FoldedParts(b * b, TWO255 + 2 * m, m * m, 0, 19, m * m + 38 * m + 361);
  }

  lemma WideSides(n: int)
    requires -18 <= n <= 0
    ensures LimbAdd(2 * TWO255 - 1 + n, 1) == 2 * TWO255 + n
    ensures LimbSub(2 * TWO255 - 1 + n, 1) == TWO255 + (n - 2)
  {
    DivUnique(2 * TWO255 + n, TWO260, 0, 2 * TWO255 + n);
    DivUnique(2 * TWO255 + n + 19, TWO255, 2, n + 19);
    DivUnique(2 * TWO255 + (n - 2), TWO255, 1, TWO255 + (n - 2));
  }

  /** The doubling of the first pass for the key 2^256 - 1 + n. */
  lemma WideDoubling(n: int)
    requires -18 <= n <= 0
    ensures var p := LimbStep(2 * TWO255 - 1 + n, Points(2 * TWO255 - 1 + n, 1, 1, 0));
            var aa, bb := n * n + 76 * n + 228, (n + 17) * (n + 17);
            p.x2 == aa * bb % P && p.z2 == IntegerZ(aa, bb) % P
  {
    hide LimbStep, LimbMul, Mul;
    var v, aa, bb := 2 * TWO255 - 1 + n, n * n + 76 * n + 228, (n + 17) * (n + 17);
    WideSides(n);
    WideSquare(n);
    CutSquare(n - 2);
    DoubledResidues(aa, bb);
    DoublingOnCanonical(v, Points(v, 1, 1, 0), aa % P, bb % P);
  }

  lemma DoublingOnCanonical(u: int, p: Points, aa: int, bb: int)
    requires LimbMul(LimbAdd(p.x2, p.z2), LimbAdd(p.x2, p.z2)) == aa
    requires LimbMul(LimbSub(p.x2, p.z2), LimbSub(p.x2, p.z2)) == bb
    ensures LimbStep(u, p).x2 == DoubledX(aa, bb) && LimbStep(u, p).z2 == DoubledZ(aa, bb)
  {
    assert Canonical(121665) && Canonical(aa) && Canonical(bb);
    hide LimbMul, LimbAdd, LimbSub, Add, Sub, Mul, Canonical;
    var e := Sub(aa, bb);
    LimbSubIsSub(aa, bb);
    LimbMulIsMul(aa, bb);
    LimbMulIsMul(121665, e);
    LimbAddIsAdd(Mul(121665, e), aa);
    LimbMulIsMul(Add(Mul(121665, e), aa), e);
  }

  lemma LadderDoubling(u: int, p: Points, a: int, b: int)
    requires Add(p.x2, p.z2) == a && Sub(p.x2, p.z2) == b
    ensures LadderStep(u, p).x2 == DoubledX(a * a % P, b * b % P)
    ensures LadderStep(u, p).z2 == DoubledZ(a * a % P, b * b % P)
  {
    assert Mul(a, a) == a * a % P && Mul(b, b) == b * b % P;
    hide Add, Sub, Mul;
  }

  /** The doubling RFC 7748 makes of the same key, which is 37 + n mod P. */
  lemma TrueDoubling(n: int)
    requires -18 <= n <= 0
    ensures var p := LadderStep(37 + n, Points(37 + n, 1, 1, 0));
            var aa, bb := (n + 38) * (n + 38), (n + 36) * (n + 36);
            p.x2 == aa * bb % P && p.z2 == IntegerZ(aa, bb) % P
  {
    hide LadderStep, Mul;
    assert Add(37 + n, 1) == n + 38 && Sub(37 + n, 1) == n + 36;
    LadderDoubling(37 + n, Points(37 + n, 1, 1, 0), n + 38, n + 36);
    DoubledResidues((n + 38) * (n + 38), (n + 36) * (n + 36));
  }

  lemma CrossProducts(n: int)
    requires -18 <= n <= 0
    ensures var aa, bb := n * n + 76 * n + 228, (n + 17) * (n + 17);
            var cc, dd := (n + 38) * (n + 38), (n + 36) * (n + 36);
            0 < cc * dd * IntegerZ(aa, bb) - aa * bb * IntegerZ(cc, dd) < P
  {
    assert n == -18 || n == -17 || n == -16 || n == -15 || n == -14 || n == -13 || n == -12 || n == -11
        || n == -10 || n == -9 || n == -8 || n == -7 || n == -6 || n == -5 || n == -4 || n == -3
        || n == -2 || n == -1 || n == 0;
  }

  lemma Unequal(x: int, z: int, c: int, d: int)
    requires 0 < c * z - x * d < P
    ensures Mul(x % P, d % P) != Mul(c % P, z % P)
  {
    MulMod(x, d);
    MulMod(c, z);
    NotCongruent(x * d, c * z - x * d);
  }

  /** For each of the nineteen greatest public keys the very first pass, that of the
      bit which clamping sets, already leaves the point that RFC 7748 has there. */
  lemma WideKeyLeaves(v: int, k: nat)
    requires 2 * TWO255 - 19 <= v < 2 * TWO255 && Bit(k, BITS - 1)
    ensures var p, q := LimbLadder(v, k, BITS - 1).points, Ladder(v % P, k, BITS - 1).points;
            Mul(p.x2, q.z2) != Mul(q.x2, p.z2)
  {
    hide LimbStep, LadderStep, Mul;
    var n := v + 1 - 2 * TWO255;
    assert v % P == 37 + n;
    WideDoubling(n);
    TrueDoubling(n);
    CrossProducts(n);
    var aa, bb := n * n + 76 * n + 228, (n + 17) * (n + 17);
    var cc, dd := (n + 38) * (n + 38), (n + 36) * (n + 36);
    Unequal(aa * bb, IntegerZ(aa, bb), cc * dd, IntegerZ(cc, dd));
  }
}
