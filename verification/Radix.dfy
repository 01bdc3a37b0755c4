/** Positional notation and carry chains.  A column is a digit that may be out
    of range or negative; a carry chain turns columns into proper digits. */
module Radix {
  function Pow(b: nat, n: nat): (r: nat)
    ensures b > 0 ==> r > 0
  {
    if n == 0 then 1 else b * Pow(b, n - 1)
  }

  /** The integer a little-endian sequence of columns stands for. */
  ghost function Val(b: nat, s: seq<int>): int {
    if |s| == 0 then 0
    else Val(b, s[..|s| - 1]) + s[|s| - 1] * Pow(b, |s| - 1)
  }

  ghost predicate Digits(b: nat, s: seq<int>) {
    forall i :: 0 <= i < |s| ==> 0 <= s[i] < b
  }

  /** `d` are the digits and `c` the carries (borrows, when negative) that a
      left-to-right carry chain over the columns `a` produces. */
  ghost predicate Chain(b: nat, a: seq<int>, d: seq<int>, c: seq<int>) {
    && |d| == |a| && |c| == |a| + 1
    && forall k :: 0 <= k < |a| ==> c[k] + a[k] == d[k] + b * c[k + 1]
  }

  lemma {:induction false} PowAdd(b: nat, m: nat, n: nat)
    ensures Pow(b, m + n) == Pow(b, m) * Pow(b, n)
  {
    if m > 0 {
      PowAdd(b, m - 1, n);
      assert Pow(b, m + n) == b * Pow(b, m - 1 + n);
    }
  }

  lemma ValNext(b: nat, s: seq<int>, i: nat)
    requires i < |s|
    ensures Val(b, s[..i + 1]) == Val(b, s[..i]) + s[i] * Pow(b, i)
  {
    assert s[..i + 1][..i] == s[..i];
  }

  lemma {:induction false} ValBound(b: nat, s: seq<int>)
    requires Digits(b, s)
    ensures 0 <= Val(b, s) < Pow(b, |s|)
  {
    if |s| > 0 {
      var n := |s| - 1;
      ValBound(b, s[..n]);
      var w := Pow(b, n);
      assert (s[n] + 1) * w <= b * w;
      assert 0 <= s[n] * w;
    }
  }

  lemma MulBelow(a: int, b: int, m: int, n: int)
    requires 0 <= a < m && 0 <= b < n
    ensures 0 <= a * b < m * n
  {
    assert m * n - a * b == (m - a) * n + a * (n - b);
    assert (m - a) * n > 0;
  }

  lemma CarryStep(b: int, c: int, a: int, q: int, r: int, w: int)
    requires c + a == r + b * q
    ensures r * w + q * (b * w) == c * w + a * w
  {
    assert (c + a) * w == (r + b * q) * w;
  }

  lemma {:induction false} ChainValue(b: nat, a: seq<int>, d: seq<int>, c: seq<int>)
    requires Chain(b, a, d, c)
    ensures Val(b, d) + c[|a|] * Pow(b, |a|) == Val(b, a) + c[0]
  {
    if |a| > 0 {
      var n := |a| - 1;
      ChainValue(b, a[..n], d[..n], c[..n + 1]);
      CarryStep(b, c[n], a[n], c[n + 1], d[n], Pow(b, n));
    }
  }

  lemma DivUnique(x: int, m: int, q: int, r: int)
    requires m > 0 && x == q * m + r && 0 <= r < m
    ensures x / m == q && x % m == r
  {
    var d := x / m - q;
    assert d * m == r - x % m;
    assert d >= 1 ==> d * m >= m;
    assert d <= -1 ==> d * m <= -m;
  }

  /** A carry chain into proper digits computes quotient and remainder by b^|a|. */
  lemma ChainDivides(b: nat, a: seq<int>, d: seq<int>, c: seq<int>)
    requires b > 0 && Chain(b, a, d, c) && Digits(b, d)
    ensures Val(b, d) == (Val(b, a) + c[0]) % Pow(b, |a|)
    ensures c[|a|] == (Val(b, a) + c[0]) / Pow(b, |a|)
  {
    ChainValue(b, a, d, c);
    ValBound(b, d);
    DivUnique(Val(b, a) + c[0], Pow(b, |a|), c[|a|], Val(b, d));
  }

  /** A chain whose value fits its digits loses nothing. */
  lemma ChainFits(b: nat, a: seq<int>, d: seq<int>, c: seq<int>)
    requires b > 0 && Chain(b, a, d, c) && Digits(b, d)
    requires 0 <= Val(b, a) + c[0] < Pow(b, |a|)
    ensures Val(b, d) == Val(b, a) + c[0] && c[|a|] == 0
  {
    ChainDivides(b, a, d, c);
    DivUnique(Val(b, a) + c[0], Pow(b, |a|), 0, Val(b, a) + c[0]);
  }

  ghost function Zeros(n: nat): (r: seq<int>)
    ensures |r| == n && forall i :: 0 <= i < n ==> r[i] == 0
  {
    seq(n, _ => 0)
  }

  /** Column-wise m * x + y. */
  ghost function Comb(m: int, x: seq<int>, y: seq<int>): (r: seq<int>)
    requires |x| == |y|
    ensures |r| == |x| && forall i :: 0 <= i < |x| ==> r[i] == m * x[i] + y[i]
  {
    seq(|x|, i requires 0 <= i < |x| => m * x[i] + y[i])
  }

  lemma {:induction false} ValComb(b: nat, m: int, x: seq<int>, y: seq<int>)
    requires |x| == |y|
    ensures Val(b, Comb(m, x, y)) == m * Val(b, x) + Val(b, y)
  {
    if |x| > 0 {
      var n := |x| - 1;
      ValComb(b, m, x[..n], y[..n]);
      assert Comb(m, x, y)[..n] == Comb(m, x[..n], y[..n]);
      CombStep(m, Val(b, x[..n]), x[n], y[n], Pow(b, n));
    }
  }

  lemma CombStep(m: int, v: int, x: int, y: int, w: int)
    ensures m * v + (m * x + y) * w == m * (v + x * w) + y * w
  {
  }

  lemma {:induction false} ValZeros(b: nat, n: nat)
    ensures Val(b, Zeros(n)) == 0
  {
    if n > 0 {
      ValZeros(b, n - 1);
      assert Zeros(n)[..n - 1] == Zeros(n - 1);
    }
  }

  lemma {:induction false} ValConcat(b: nat, s: seq<int>, t: seq<int>)
    ensures Val(b, s + t) == Val(b, s) + Pow(b, |s|) * Val(b, t)
  {
    if |t| == 0 {
      assert s + t == s;
    } else {
      var n := |t| - 1;
      ValConcat(b, s, t[..n]);
      assert (s + t)[..|s| + n] == s + t[..n];
      PowAdd(b, |s|, n);
      ConcatStep(Pow(b, |s|), Val(b, t[..n]), t[n], Pow(b, n));
    }
  }

  lemma ConcatStep(w: int, v: int, d: int, u: int)
    ensures w * v + d * (w * u) == w * (v + d * u)
  {
  }

  lemma PadValue(b: nat, s: seq<int>, n: nat)
    ensures Val(b, s + Zeros(n)) == Val(b, s)
  {
    ValConcat(b, s, Zeros(n));
    ValZeros(b, n);
  }

  /** Column k of the schoolbook product of the first `rows` digits of x by y. */
  ghost function Column(x: seq<int>, y: seq<int>, rows: nat, k: int): int
    requires rows <= |x|
  {
    if rows == 0 then 0
    else Column(x, y, rows - 1, k) + Partial(x, y, rows - 1, k)
  }

  ghost function Partial(x: seq<int>, y: seq<int>, row: nat, k: int): int
    requires row < |x|
  {
    if row <= k < row + |y| then x[row] * y[k - row] else 0
  }

  lemma {:induction false} ColumnBeyond(x: seq<int>, y: seq<int>, rows: nat, k: int)
    requires rows <= |x| && k >= rows - 1 + |y|
    ensures Column(x, y, rows, k) == 0
  {
    if rows > 0 {
      ColumnBeyond(x, y, rows - 1, k);
    }
  }

  ghost function Columns(x: seq<int>, y: seq<int>, rows: nat, n: nat): (r: seq<int>)
    requires rows <= |x|
    ensures |r| == n && forall k :: 0 <= k < n ==> r[k] == Column(x, y, rows, k)
  {
    seq(n, k => Column(x, y, rows, k))
  }

  ghost function Row(y: seq<int>, r: nat, n: nat): (s: seq<int>)
    requires n >= r + |y|
    ensures |s| == n
    ensures forall k :: 0 <= k < n ==> s[k] == if r <= k < r + |y| then y[k - r] else 0
  {
    Zeros(r) + y + Zeros(n - r - |y|)
  }

  lemma RowValue(b: nat, y: seq<int>, r: nat, n: nat)
    requires n >= r + |y|
    ensures Val(b, Row(y, r, n)) == Pow(b, r) * Val(b, y)
  {
    PadValue(b, Zeros(r) + y, n - r - |y|);
    ValConcat(b, Zeros(r), y);
    ValZeros(b, r);
  }

  lemma {:induction false} ColumnBound(b: nat, x: seq<int>, y: seq<int>, rows: nat, k: int)
    requires rows <= |x| && Digits(b, x) && Digits(b, y)
    ensures 0 <= Column(x, y, rows, k) <= rows * (b * b)
  {
    if rows > 0 {
      var r := rows - 1;
      ColumnBound(b, x, y, r, k);
      if r <= k < r + |y| {
        MulBelow(x[r], y[k - r], b, b);
      }
      assert rows * (b * b) == r * (b * b) + b * b;
    }
  }

  /** One more row adds one shifted multiple of y. */
  lemma ColumnsStep(x: seq<int>, y: seq<int>, r: nat, n: nat)
    requires r < |x| && n >= r + |y|
    ensures Columns(x, y, r + 1, n) == Comb(x[r], Row(y, r, n), Columns(x, y, r, n))
    ensures forall k :: 0 <= k < n ==>
      Columns(x, y, r + 1, n)[k] == Columns(x, y, r, n)[k] + if r <= k < r + |y| then x[r] * y[k - r] else 0
  {
    var s := Comb(x[r], Row(y, r, n), Columns(x, y, r, n));
    forall k | 0 <= k < n
      ensures Columns(x, y, r + 1, n)[k] == s[k]
    {
      assert Column(x, y, r + 1, k) == Column(x, y, r, k) + Partial(x, y, r, k);
    }
  }

  ghost function ScaledRow(d: int, y: seq<int>, r: nat, n: nat): (s: seq<int>)
    ensures |s| == n
  {
    seq(n, k => if r <= k < r + |y| then d * y[k - r] else 0)
  }

  lemma ScaledRowAt(d: int, y: seq<int>, r: nat, n: nat, j: nat)
    requires j < |y| && r + j < n
    ensures ScaledRow(d, y, r, n)[r + j] == d * y[j]
  {
  }

  lemma RowAdds(x: seq<int>, y: seq<int>, r: nat, n: nat)
    requires r < |x| && n >= r + |y|
    ensures Columns(x, y, r + 1, n) == Comb(1, ScaledRow(x[r], y, r, n), Columns(x, y, r, n))
    ensures forall k :: 0 <= k < r || r + |y| <= k < n ==> ScaledRow(x[r], y, r, n)[k] == 0
  {
    ColumnsStep(x, y, r, n);
  }

  /** The columns of a schoolbook product stand for the product. */
  lemma {:induction false} ProductValue(b: nat, x: seq<int>, y: seq<int>, rows: nat, n: nat)
    requires rows <= |x| && (rows == 0 || n >= rows - 1 + |y|)
    ensures Val(b, Columns(x, y, rows, n)) == Val(b, x[..rows]) * Val(b, y)
  {
    if rows == 0 {
      assert Columns(x, y, 0, n) == Zeros(n);
      ValZeros(b, n);
    } else {
      var r := rows - 1;
      ProductValue(b, x, y, r, n);
      ColumnsStep(x, y, r, n);
      ValComb(b, x[r], Row(y, r, n), Columns(x, y, r, n));
      RowValue(b, y, r, n);
      ValNext(b, x, r);
      ProductStep(Val(b, x[..r]), x[r], Pow(b, r), Val(b, y));
    }
  }

  lemma ProductStep(v: int, d: int, w: int, y: int)
    ensures d * (w * y) + v * y == (v + d * w) * y
  {
  }

  /** Dividing by a power of the radix drops low digits. */
  lemma DropDigits(b: nat, s: seq<int>, i: nat)
    requires b > 0 && i <= |s| && Digits(b, s)
    ensures Val(b, s) / Pow(b, i) == Val(b, s[i..])
  {
    assert s == s[..i] + s[i..];
    ValConcat(b, s[..i], s[i..]);
    ValBound(b, s[..i]);
    DivUnique(Val(b, s), Pow(b, i), Val(b, s[i..]), Val(b, s[..i]));
  }

  lemma FirstDigit(b: nat, s: seq<int>)
    requires |s| > 0
    ensures Val(b, s) == s[0] + b * Val(b, s[1..])
  {
    var d := [s[0]];
    assert s == d + s[1..];
    ValConcat(b, d, s[1..]);
    assert d[..0] == [];
    assert Val(b, d) == Val(b, d[..0]) + d[0] * Pow(b, 0);
    assert Pow(b, 1) == b * Pow(b, 0);
  }

  /** A digit is recovered by division and remainder. */
  lemma DigitAt(b: nat, s: seq<int>, i: nat)
    requires b > 0 && i < |s| && Digits(b, s)
    ensures Val(b, s) / Pow(b, i) % b == s[i]
  {
    hide Val, Pow;
    DropDigits(b, s, i);
    FirstDigit(b, s[i..]);
    DivUnique(Val(b, s[i..]), b, Val(b, s[i..][1..]), s[i]);
  }

  lemma {:induction false} PowPow(b: nat, m: nat, n: nat)
    ensures Pow(Pow(b, m), n) == Pow(b, m * n)
    decreases n
  {
    if n > 0 {
      PowPow(b, m, n - 1);
      assert m * n == m + m * (n - 1);
      PowAdd(b, m, m * (n - 1));
    } else {
      assert m * n == 0;
    }
  }

  lemma DivDiv(x: int, m: nat, n: nat)
    requires m > 0 && n > 0
    ensures m * n > 0 && x / (m * n) == x / m / n
  {
    var q, r := x / m, x % m;
    var s, t := q / n, q % n;
    assert x == m * q + r && q == n * s + t;
    assert x == (m * n) * s + (m * t + r) by {
      assert m * q == m * (n * s) + m * t;
    }
    assert 0 <= m * t <= m * (n - 1);
    DivUnique(x, m * n, s, m * t + r);
  }
}
